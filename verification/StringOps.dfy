/** Strings::Split, Join, Trim and Replace, by cursor, against what they compute. */
module StringOps {
  import opened Text

  /** The parts between separators; what follows the last one counts only if it is not empty. */
  function SplitParts(s: string, c: char): seq<string>
    decreases |s|
  {
    var i := Find(s, c);
    if i == |s| then (if s == "" then [] else [s])
    else [s[..i]] + SplitParts(s[i + 1..], c)
  }

  /** Joining onto what is there already: the joiner is left out while nothing is there. */
  function JoinOnto(acc: string, parts: seq<string>, c: char): string
    decreases |parts|
  {
    if parts == [] then acc
    else JoinOnto((if acc == "" then "" else acc + [c]) + parts[0], parts[1..], c)
  }

  /** std::string::find from a position; the length stands for npos. */
  method FindFrom(s: string, c: char, start: nat) returns (i: nat)
    requires start <= |s|
    ensures start <= i <= |s| && i == start + Find(s[start..], c)
  {
    i := start;
    while i < |s| && s[i] != c
      invariant start <= i <= |s|
      invariant start + Find(s[start..], c) == i + Find(s[i..], c)
    {
      assert s[i..][1..] == s[i + 1..];
      i := i + 1;
    }
  }

  lemma SplitStep(s: string, c: char, start: nat, comma: nat, parts: seq<string>)
    requires start <= comma < |s| && comma == start + Find(s[start..], c)
    ensures parts + SplitParts(s[start..], c) == (parts + [s[start..comma]]) + SplitParts(s[comma + 1..], c)
  {
    var rest := s[start..];
    assert rest[..comma - start] == s[start..comma];
    assert rest[comma - start + 1..] == s[comma + 1..];
    assert SplitParts(rest, c) == [s[start..comma]] + SplitParts(s[comma + 1..], c);
    Regroup(parts, s[start..comma], SplitParts(s[comma + 1..], c));
  }

  lemma SplitPartsCons(a: string, c: char, b: string)
    requires c !in a
    ensures SplitParts(a + [c] + b, c) == [a] + SplitParts(b, c)
  {
    var s := a + [c] + b;
    FindAt(a, c, b);
    assert s[..|a|] == a && s[|a| + 1..] == b;
  }

  lemma SplitLast(rest: string, c: char)
    requires Find(rest, c) == |rest|
    ensures SplitParts(rest, c) == if rest == "" then [] else [rest]
  {
  }

  /** What follows the first part. */
  function Behind(parts: seq<string>, c: char): string {
    if parts == [] then "" else [c] + parts[0] + Behind(parts[1..], c)
  }

  lemma {:induction false} JoinBehind(acc: string, parts: seq<string>, c: char)
    requires acc != ""
    ensures JoinOnto(acc, parts, c) == acc + Behind(parts, c)
    decreases |parts|
  {
    if parts == [] {
      assert acc + "" == acc;
    } else {
      JoinBehind(acc + [c] + parts[0], parts[1..], c);
      assert acc + [c] + parts[0] + Behind(parts[1..], c) == acc + ([c] + parts[0] + Behind(parts[1..], c));
    }
  }

  lemma {:induction false} SplitBehind(a: string, parts: seq<string>, c: char)
    requires c !in a && forall t :: t in parts ==> c !in t
    requires var last := if parts == [] then a else parts[|parts| - 1]; last != ""
    ensures SplitParts(a + Behind(parts, c), c) == [a] + parts
    decreases |parts|
  {
    if parts == [] {
      assert a + Behind(parts, c) == a;
      FindFirst(a, c);
    } else {
      assert parts[0] in parts;
      SplitBehind(parts[0], parts[1..], c);
      assert a + Behind(parts, c) == a + [c] + (parts[0] + Behind(parts[1..], c));
      SplitPartsCons(a, c, parts[0] + Behind(parts[1..], c));
      assert [parts[0]] + parts[1..] == parts;
    }
  }

  /** Splitting undoes joining, with empty parts inside, unless the first or the last part is
      empty. */
  lemma JoinThenSplit(parts: seq<string>, c: char)
    requires parts != [] && parts[0] != "" && parts[|parts| - 1] != ""
    requires forall t :: t in parts ==> c !in t
    ensures SplitParts(JoinOnto("", parts, c), c) == parts
  {
    assert "" + parts[0] == parts[0] && parts[0] in parts;
    JoinBehind(parts[0], parts[1..], c);
    SplitBehind(parts[0], parts[1..], c);
    assert [parts[0]] + parts[1..] == parts;
  }

  method SplitAll(s: string, c: char) returns (parts: seq<string>)
    ensures parts == SplitParts(s, c)
  {
    parts := [];
    var start := 0;
    var comma := FindFrom(s, c, 0);
    assert s[0..] == s;
    while comma < |s|
      invariant 0 <= start <= comma <= |s|
      invariant comma == start + Find(s[start..], c)
      invariant parts + SplitParts(s[start..], c) == SplitParts(s, c)
      decreases |s| - comma
    {
      SplitStep(s, c, start, comma, parts);
      parts := parts + [s[start..comma]];
      start := comma + 1;
      comma := FindFrom(s, c, start);
    }
    SplitLast(s[start..], c);
    if start < |s| {
      parts := parts + [s[start..]];
    }
  }

  method JoinAll(parts: seq<string>, c: char) returns (s: string)
    ensures s == JoinOnto("", parts, c)
  {
    s := "";
    var i := 0;
    while i < |parts|
      invariant 0 <= i <= |parts|
      invariant JoinOnto(s, parts[i..], c) == JoinOnto("", parts, c)
    {
      assert parts[i..][1..] == parts[i + 1..];
      if s != "" {
        s := s + [c];
      }
      s := s + parts[i];
      i := i + 1;
    }
  }

  /** Strings::Replace(s, [c], ""): find and erase until nothing is found. */
  function Without(s: string, c: char): (r: string)
    ensures c !in r
    ensures forall d :: d in r ==> d in s
  {
    if s == "" then "" else (if s[0] == c then "" else [s[0]]) + Without(s[1..], c)
  }

  lemma {:induction false} WithoutFixed(s: string, c: char)
    requires c !in s
    ensures Without(s, c) == s
  {
    if s != "" {
      WithoutFixed(s[1..], c);
      assert s == [s[0]] + s[1..];
    }
  }

  lemma {:induction false} WithoutSkip(a: string, c: char, b: string)
    requires c !in a
    ensures Without(a + b, c) == a + Without(b, c)
  {
    if a == "" {
      assert a + b == b;
    } else {
      assert (a + b)[0] == a[0] && (a + b)[1..] == a[1..] + b;
      WithoutSkip(a[1..], c, b);
    }
  }

  lemma EraseStep(s: string, c: char, pos: nat)
    requires pos < |s| && s[pos] == c && c !in s[..pos]
    ensures Without(s[..pos] + s[pos + 1..], c) == Without(s, c)
  {
    assert s == s[..pos] + s[pos..] && s[pos..][1..] == s[pos + 1..];
    WithoutSkip(s[..pos], c, s[pos..]);
    WithoutSkip(s[..pos], c, s[pos + 1..]);
  }

  lemma FoundAfter(s: string, c: char, pos: nat, next: nat)
    requires pos <= |s| && c !in s[..pos] && next == pos + Find(s[pos..], c)
    ensures next <= |s| && c !in s[..next] && (next < |s| ==> s[next] == c)
  {
    FindFirst(s[pos..], c);
    assert s[..next] == s[..pos] + s[pos..][..next - pos];
  }

  method EraseAll(text: string, c: char) returns (s: string)
    ensures s == Without(text, c)
  {
    s := text;
    var pos := FindFrom(s, c, 0);
    FoundAfter(s, c, 0, pos);
    while pos < |s|
      invariant 0 <= pos <= |s|
      invariant Without(s, c) == Without(text, c)
      invariant c !in s[..pos]
      invariant pos < |s| ==> s[pos] == c
      decreases |s|
    {
      EraseStep(s, c, pos);
      ghost var head := s[..pos];
      s := s[..pos] + s[pos + 1..];
      assert s[..pos] == head;
      var next := FindFrom(s, c, pos);
      FoundAfter(s, c, pos, next);
      pos := next;
    }
    assert s[..pos] == s;
    WithoutFixed(s, c);
  }

  predicate IsBlank(c: char) {
    c == ' ' || c == '\t' || c == '\r' || c == '\n'
  }

  lemma {:induction false} TrimLeftTo(s: string, b: nat)
    requires b <= |s| && forall i :: 0 <= i < b ==> IsBlank(s[i])
    requires b < |s| ==> !IsBlank(s[b])
    ensures TrimLeft(s, IsBlank) == s[b..]
  {
    if b > 0 {
      TrimLeftTo(s[1..], b - 1);
    }
  }

  lemma {:induction false} TrimRightTo(s: string, e: nat)
    requires e <= |s| && forall i :: e <= i < |s| ==> IsBlank(s[i])
    requires 0 < e ==> !IsBlank(s[e - 1])
    ensures TrimRight(s, IsBlank) == s[..e]
  {
    if e < |s| {
      TrimRightTo(s[..|s| - 1], e);
      assert s[..|s| - 1][..e] == s[..e];
    } else {
      assert s[..e] == s;
    }
  }

  /** Strings::Trim(s, " \t\r\n"): the substring from the first to the last non-blank. */
  method TrimBlanks(s: string) returns (r: string)
    ensures r == Trim(s, IsBlank)
  {
    var b := 0;
    while b < |s| && IsBlank(s[b])
      invariant 0 <= b <= |s|
      invariant forall i :: 0 <= i < b ==> IsBlank(s[i])
    {
      b := b + 1;
    }
    TrimLeftTo(s, b);
    if b == |s| {
      return "";
    }
    var e := |s|;
    while IsBlank(s[e - 1])
      invariant b < e <= |s|
      invariant forall i :: e <= i < |s| ==> IsBlank(s[i])
      decreases e
    {
      e := e - 1;
    }
    TrimRightTo(s[b..], e - b);
    assert s[b..][..e - b] == s[b..e];
    return s[b..e];
  }
}
