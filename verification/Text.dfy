/** Strings as the parsers see them: white space, trimming, searching, splitting, joining. */
module Text {

  /** QChar::isSpace. */
  predicate IsSpace(c: char) {
    || c == ' ' || '\t' <= c <= '\r'
    || c as int == 0x85 || c as int == 0xA0 || c as int == 0x1680
    || 0x2000 <= c as int <= 0x200A
    || c as int == 0x2028 || c as int == 0x2029 || c as int == 0x202F
    || c as int == 0x205F || c as int == 0x3000
  }

  const WHITE_SPACE: seq<int> := [
    0x09, 0x0A, 0x0B, 0x0C, 0x0D, 0x20, 0x85, 0xA0, 0x1680,
    0x2000, 0x2001, 0x2002, 0x2003, 0x2004, 0x2005, 0x2006, 0x2007, 0x2008, 0x2009, 0x200A,
    0x2028, 0x2029, 0x202F, 0x205F, 0x3000]

  /** The characters of Unicode's White_Space property, one by one. */
  lemma SpacesListed(c: char)
    ensures IsSpace(c) <==> c as int in WHITE_SPACE
  {
    var n := c as int;
    if 0x09 <= n <= 0x0D {
      assert WHITE_SPACE[n - 0x09] == n;
    } else if 0x2000 <= n <= 0x200A {
      assert WHITE_SPACE[n - 0x2000 + 9] == n;
    }
  }

  lemma Regroup<T>(a: seq<T>, x: T, b: seq<T>)
    ensures (a + [x]) + b == a + ([x] + b)
  {
  }

  function TrimLeft(s: string, p: char -> bool): string {
    if s != "" && p(s[0]) then TrimLeft(s[1..], p) else s
  }

  function TrimRight(s: string, p: char -> bool): string {
    if s != "" && p(s[|s| - 1]) then TrimRight(s[..|s| - 1], p) else s
  }

  /** s without the characters satisfying p at either end. */
  function Trim(s: string, p: char -> bool): string {
    TrimRight(TrimLeft(s, p), p)
  }

  /** QString::trimmed. */
  function Trimmed(s: string): string {
    Trim(s, IsSpace)
  }

  predicate IsTrim(s: string, p: char -> bool) {
    s != "" ==> !p(s[0]) && !p(s[|s| - 1])
  }

  lemma TrimFixed(s: string, p: char -> bool)
    requires IsTrim(s, p)
    ensures Trim(s, p) == s
  {
  }

  /** A trimmed text is what is left between two runs of trimmed-away characters. */
  lemma {:induction false} TrimLeftPad(pad: string, s: string, p: char -> bool)
    requires forall c :: c in pad ==> p(c)
    ensures TrimLeft(pad + s, p) == TrimLeft(s, p)
  {
    if pad == "" {
      assert pad + s == s;
    } else {
      assert (pad + s)[1..] == pad[1..] + s;
      TrimLeftPad(pad[1..], s, p);
    }
  }

  lemma PrependPad(s: string, pad: string, rest: string, p: char -> bool)
    requires s != "" && p(s[0]) && s[1..] == pad + rest && forall c :: c in pad ==> p(c)
    ensures s == [s[0]] + pad + rest && forall c :: c in [s[0]] + pad ==> p(c)
  {
    assert s == [s[0]] + s[1..];
  }

  lemma {:induction false} TrimLeftSuffix(s: string, p: char -> bool) returns (pad: string)
    ensures s == pad + TrimLeft(s, p) && forall c :: c in pad ==> p(c)
    ensures TrimLeft(s, p) != "" ==> !p(TrimLeft(s, p)[0])
  {
    if s != "" && p(s[0]) {
      var pad' := TrimLeftSuffix(s[1..], p);
      pad := [s[0]] + pad';
      PrependPad(s, pad', TrimLeft(s[1..], p), p);
    } else {
      pad := "";
    }
  }

  lemma {:induction false} TrimRightPrefix(s: string, p: char -> bool) returns (pad: string)
    ensures s == TrimRight(s, p) + pad && forall c :: c in pad ==> p(c)
    ensures TrimRight(s, p) != "" ==> !p(TrimRight(s, p)[|TrimRight(s, p)| - 1])
  {
    if s != "" && p(s[|s| - 1]) {
      var pad' := TrimRightPrefix(s[..|s| - 1], p);
      pad := pad' + [s[|s| - 1]];
      assert s == s[..|s| - 1] + [s[|s| - 1]];
    } else {
      pad := "";
      assert s == s + "";
    }
  }

  lemma {:induction false} TrimRightPad(s: string, pad: string, p: char -> bool)
    requires forall c :: c in pad ==> p(c)
    ensures TrimRight(s + pad, p) == TrimRight(s, p)
  {
    if pad == "" {
      assert s + pad == s;
    } else {
      var n := |pad| - 1;
      assert (s + pad)[..|s| + n] == s + pad[..n];
      TrimRightPad(s, pad[..n], p);
    }
  }

  lemma {:induction false} TrimLeftBefore(s: string, pad: string, p: char -> bool)
    requires forall c :: c in pad ==> p(c)
    ensures TrimRight(TrimLeft(s + pad, p), p) == TrimRight(TrimLeft(s, p), p)
  {
    if s == "" {
      TrimLeftPad(pad, "", p);
      assert s + pad == pad + "";
    } else if p(s[0]) {
      assert (s + pad)[1..] == s[1..] + pad;
      TrimLeftBefore(s[1..], pad, p);
    } else {
      TrimRightPad(s, pad, p);
    }
  }

  lemma TrimPadded(before: string, s: string, after: string, p: char -> bool)
    requires forall c :: c in before + after ==> p(c)
    ensures Trim(before + s + after, p) == Trim(s, p)
  {
    assert before + s + after == before + (s + after);
    assert forall c :: c in before ==> c in before + after;
    assert forall c :: c in after ==> c in before + after;
    TrimLeftPad(before, s + after, p);
    TrimLeftBefore(s, after, p);
  }

  lemma TrimSplit(s: string, p: char -> bool) returns (left: string, right: string)
    ensures s == left + Trim(s, p) + right
    ensures forall c :: c in left + right ==> p(c)
    ensures IsTrim(Trim(s, p), p)
  {
    left := TrimLeftSuffix(s, p);
    var m := TrimLeft(s, p);
    right := TrimRightPrefix(m, p);
    assert s == left + (TrimRight(m, p) + right);
    var t := Trim(s, p);
    if t != "" {
      assert t[0] == m[0];
    }
  }

  function ToLowerChar(c: char): char {
    if 'A' <= c <= 'Z' then (c as int + 32) as char else c
  }

  const SMALL := "abcdefghijklmnopqrstuvwxyz"
  const CAPITALS := "ABCDEFGHIJKLMNOPQRSTUVWXYZ"

  /** Each capital letter becomes the small letter at its place in the alphabet; nothing else
      changes. */
  lemma LowerLetters(c: char, i: nat)
    requires i < 26
    ensures ToLowerChar(CAPITALS[i]) == SMALL[i]
    ensures c !in CAPITALS ==> ToLowerChar(c) == c
  {
    if 'A' <= c <= 'Z' {
      assert CAPITALS[c as int - 65] == c;
    }
  }

  function ToLower(s: string): (r: string)
    ensures |r| == |s|
  {
    if s == "" then "" else [ToLowerChar(s[0])] + ToLower(s[1..])
  }

  /** The first position of c, or the length. */
  function Find(s: string, c: char): (i: nat)
    ensures i <= |s|
  {
    if s == "" || s[0] == c then 0 else 1 + Find(s[1..], c)
  }

  lemma {:induction false} FindFirst(s: string, c: char)
    ensures c !in s[..Find(s, c)]
    ensures Find(s, c) < |s| <==> c in s
    ensures Find(s, c) < |s| ==> s[Find(s, c)] == c
  {
    if s != "" && s[0] != c {
      FindFirst(s[1..], c);
      var i := Find(s, c);
      assert s == [s[0]] + s[1..];
      assert s[..i] == [s[0]] + s[1..][..i - 1];
    }
  }

  lemma {:induction false} FindAt(a: string, c: char, b: string)
    requires c !in a
    ensures Find(a + [c] + b, c) == |a|
  {
    if a != "" {
      FindAt(a[1..], c, b);
      assert (a + [c] + b)[1..] == a[1..] + [c] + b;
    }
  }

  /** QString::split on one character: empty parts are kept. */
  function Split(s: string, c: char): (r: seq<string>)
    ensures r != []
    ensures forall t :: t in r ==> c !in t
  {
    var i := Find(s, c);
    FindFirst(s, c);
    if i == |s| then
      assert s[..i] == s;
      [s]
    else [s[..i]] + Split(s[i + 1..], c)
  }

  lemma SplitCons(a: string, c: char, b: string)
    requires c !in a
    ensures Split(a + [c] + b, c) == [a] + Split(b, c)
  {
    FindAt(a, c, b);
    var s := a + [c] + b;
    assert s[..|a|] == a && s[|a| + 1..] == b;
  }

  lemma SplitOne(a: string, c: char)
    requires c !in a
    ensures Split(a, c) == [a]
  {
    FindFirst(a, c);
  }

  /** QStringList::join on one character. */
  function Join(parts: seq<string>, c: char): string {
    if parts == [] then ""
    else if |parts| == 1 then parts[0]
    else parts[0] + [c] + Join(parts[1..], c)
  }

  lemma {:induction false} SplitJoin(parts: seq<string>, c: char)
    requires parts != [] && forall t :: t in parts ==> c !in t
    ensures Split(Join(parts, c), c) == parts
  {
    if |parts| == 1 {
      SplitOne(parts[0], c);
    } else {
      SplitJoin(parts[1..], c);
      SplitCons(parts[0], c, Join(parts[1..], c));
    }
  }

  // ---- lines -----------------------------------------------------------------------------

  /** The carriage return of a "\r\n" is part of the line end, not of the line. */
  function DropReturn(line: string): string {
    if line != "" && line[|line| - 1] == '\r' then line[..|line| - 1] else line
  }

  function FirstLine(text: string): string {
    DropReturn(text[..Find(text, '\n')])
  }

  function AfterLine(text: string): (rest: string)
    requires text != ""
    ensures |rest| < |text|
  {
    var i := Find(text, '\n');
    if i == |text| then "" else text[i + 1..]
  }

  /** The lines QTextStream::readLineInto delivers. */
  function Lines(text: string): seq<string>
    decreases |text|
  {
    if text == "" then [] else [FirstLine(text)] + Lines(AfterLine(text))
  }

  /** Each line followed by a newline, as a printer writes them. */
  function Unlines(ls: seq<string>): string {
    if ls == [] then "" else ls[0] + "\n" + Unlines(ls[1..])
  }

  /** No line end of any kind inside. */
  predicate OneLine(s: string) {
    '\n' !in s && '\r' !in s
  }

  predicate IsLine(l: string) {
    '\n' !in l && (l != "" ==> l[|l| - 1] != '\r')
  }

  lemma {:induction false} LinesUnlines(ls: seq<string>)
    requires forall l :: l in ls ==> IsLine(l)
    ensures Lines(Unlines(ls)) == ls
  {
    if ls != [] {
      assert IsLine(ls[0]);
      var rest := Unlines(ls[1..]);
      var text := ls[0] + "\n" + rest;
      FindAt(ls[0], '\n', rest);
      assert text == ls[0] + ['\n'] + rest;
      assert text[..|ls[0]|] == ls[0] && text[|ls[0]| + 1..] == rest;
      LinesUnlines(ls[1..]);
    }
  }

  lemma {:induction false} UnlinesAppend(a: seq<string>, b: seq<string>)
    ensures Unlines(a + b) == Unlines(a) + Unlines(b)
  {
    if a == [] {
      assert a + b == b;
    } else {
      assert (a + b)[1..] == a[1..] + b;
      UnlinesAppend(a[1..], b);
    }
  }

  lemma {:induction false} UnlinesHasNoReturn(ls: seq<string>)
    requires forall l :: l in ls ==> OneLine(l)
    ensures '\r' !in Unlines(ls)
  {
    if ls != [] {
      assert OneLine(ls[0]);
      UnlinesHasNoReturn(ls[1..]);
    }
  }
}
