/**
 The command line of a game: escaping the game's path, splitting the launch command into
 arguments and joining them again for the shell.
 */
module CommandLine {
  import opened Text

  // ---- escaping a path -----------------------------------------------------------------------

  const SPECIALS := " '\"\\!$^&*(){}[]?;<>"

  predicate Special(c: char) {
    c in SPECIALS
  }

  /** A backslash in front of every special character. */
  function Escaped(path: string): string {
    if path == "" then ""
    else (if Special(path[0]) then "\\" + [path[0]] else [path[0]]) + Escaped(path[1..])
  }

  /** The characters that mean something to a shell, and the blank. */
  predicate ShellCharacter(c: char) {
    || c == ' ' || c == '\'' || c == '"' || c == '\\' || c == '!' || c == '$' || c == '^' || c == '&' || c == '*'
    || c == '(' || c == ')' || c == '{' || c == '}' || c == '[' || c == ']' || c == '?' || c == ';'
    || c == '<' || c == '>'
  }

  lemma SpecialsListed(c: char)
    ensures Special(c) <==> ShellCharacter(c)
  {
  }

  /** The character is preceded by a backslash that is not itself escaped. */
  predicate IsEscaped(e: string, i: nat)
    requires i < |e|
  {
    i > 0 && e[i - 1] == '\\' && !IsEscaped(e, i - 1)
  }

  /** Every shell character is escaped, but for the backslashes that do it, and nothing else is. */
  predicate Shielded(e: string) {
    forall i :: 0 <= i < |e| ==>
      if IsEscaped(e, i) then ShellCharacter(e[i])
      else ShellCharacter(e[i]) ==> e[i] == '\\' && i + 1 < |e|
  }

  function ShellCharacters(s: string): nat {
    if s == "" then 0 else (if ShellCharacter(s[0]) then 1 else 0) + ShellCharacters(s[1..])
  }

  lemma {:induction false} EscapedBehind(head: string, rest: string, i: nat)
    requires head != "" && i < |rest|
    requires head[|head| - 1] == '\\' ==> IsEscaped(head + rest, |head| - 1)
    ensures IsEscaped(head + rest, |head| + i) <==> IsEscaped(rest, i)
  {
    if i > 0 {
      EscapedBehind(head, rest, i - 1);
    }
  }

  lemma ShieldedPlain(c: char, rest: string)
    requires !ShellCharacter(c) && Shielded(rest)
    ensures Shielded([c] + rest)
  {
    var e := [c] + rest;
    forall i | 0 < i < |e|
      ensures IsEscaped(e, i) <==> IsEscaped(rest, i - 1)
    {
      EscapedBehind([c], rest, i - 1);
    }
  }

  lemma ShieldedPair(c: char, rest: string)
    requires ShellCharacter(c) && Shielded(rest)
    ensures Shielded("\\" + [c] + rest)
  {
    var head := "\\" + [c];
    var e := head + rest;
    assert !IsEscaped(e, 0) && IsEscaped(e, 1);
    forall i | 2 <= i < |e|
      ensures IsEscaped(e, i) <==> IsEscaped(rest, i - 2)
    {
      EscapedBehind(head, rest, i - 2);
    }
  }

  /** Escaping shields exactly the shell characters, with one backslash each. */
  lemma {:induction false} PathShielded(path: string)
    ensures Shielded(Escaped(path)) && |Escaped(path)| == |path| + ShellCharacters(path)
  {
    if path != "" {
      PathShielded(path[1..]);
      SpecialsListed(path[0]);
      if ShellCharacter(path[0]) {
        ShieldedPair(path[0], Escaped(path[1..]));
      } else {
        ShieldedPlain(path[0], Escaped(path[1..]));
      }
    }
  }

  /** A backslash stands for the character after it. */
  function Unescaped(s: string): string {
    if s == "" then ""
    else if s[0] == '\\' && |s| > 1 then [s[1]] + Unescaped(s[2..])
    else [s[0]] + Unescaped(s[1..])
  }

  lemma {:induction false} UnescapeEscape(path: string)
    ensures Unescaped(Escaped(path)) == path
  {
    if path != "" {
      var rest := Escaped(path[1..]);
      UnescapeEscape(path[1..]);
      if Special(path[0]) {
        assert Escaped(path)[2..] == rest;
      } else {
        assert path[0] != '\\' by {
          assert SPECIALS[3] == '\\';
        }
        assert Escaped(path)[1..] == rest;
      }
    }
  }

  /** The inner loop of PathMakeEscaped, from the last character of the list to the first. */
  method IsListed(c: char, list: string) returns (found: bool)
    ensures found <==> c in list
  {
    var j := |list|;
    found := false;
    while j > 0 && !found
      invariant 0 <= j <= |list|
      invariant found ==> c in list
      invariant !found ==> c !in list[j..]
      decreases j
    {
      j := j - 1;
      if c == list[j] {
        found := true;
      }
    }
  }

  /** Backslashes are inserted in place from the back, so the positions still to visit stay put. */
  method PathMakeEscaped(path: string) returns (escaped: string)
    ensures escaped == Escaped(path)
    ensures Shielded(escaped) && Unescaped(escaped) == path && |escaped| == |path| + ShellCharacters(path)
  {
    PathShielded(path);
    UnescapeEscape(path);
    escaped := path;
    var i := |path|;
    while i > 0
      invariant 0 <= i <= |path|
      invariant escaped == path[..i] + Escaped(path[i..])
    {
      i := i - 1;
      EscapedFrom(path, i);
      var c := escaped[i];
      var special := IsListed(c, SPECIALS);
      if special {
        InsertAt(path[..i], c, Escaped(path[i + 1..]));
        escaped := escaped[..i] + "\\" + escaped[i..];
      }
    }
    assert path[0..] == path;
  }

  lemma EscapedFrom(path: string, i: nat)
    requires i < |path|
    ensures path[..i + 1] + Escaped(path[i + 1..]) == path[..i] + [path[i]] + Escaped(path[i + 1..])
    ensures Escaped(path[i..]) ==
      (if Special(path[i]) then "\\" + [path[i]] else [path[i]]) + Escaped(path[i + 1..])
  {
    assert path[i..][1..] == path[i + 1..];
    assert path[..i + 1] == path[..i] + [path[i]];
  }

  lemma InsertAt(a: string, c: char, b: string)
    ensures var s := a + [c] + b; s[..|a|] + "\\" + s[|a|..] == a + ("\\" + [c] + b)
  {
    var s := a + [c] + b;
    assert s[..|a|] == a && s[|a|..] == [c] + b;
  }

  // ---- splitting a command -------------------------------------------------------------------

  predicate NonSpace(c: char) { !IsSpace(c) }
  predicate IsSingleQuote(c: char) { c == '\'' }
  predicate IsDoubleQuote(c: char) { c == '"' }
  predicate IsQuote(c: char) { IsSingleQuote(c) || IsDoubleQuote(c) }

  /** The first position whose character satisfies p, or the length. */
  function FindIf(s: string, p: char -> bool): (i: nat)
    ensures i <= |s|
  {
    if s == "" || p(s[0]) then 0 else 1 + FindIf(s[1..], p)
  }

  lemma {:induction false} FindIfFirst(s: string, p: char -> bool)
    ensures forall k :: 0 <= k < FindIf(s, p) ==> !p(s[k])
    ensures FindIf(s, p) < |s| ==> p(s[FindIf(s, p)])
  {
    if s != "" && !p(s[0]) {
      FindIfFirst(s[1..], p);
      assert forall k :: 0 < k < FindIf(s, p) ==> s[k] == s[1..][k - 1];
    }
  }

  lemma {:induction false} FindIfAt(a: string, c: char, b: string, p: char -> bool)
    requires p(c) && forall x :: x in a ==> !p(x)
    ensures FindIf(a + [c] + b, p) == |a|
  {
    if a != "" {
      assert a[0] in a;
      FindIfAt(a[1..], c, b, p);
      assert (a + [c] + b)[1..] == a[1..] + [c] + b;
    }
  }

  lemma {:induction false} FindIfNone(a: string, p: char -> bool)
    requires forall x :: x in a ==> !p(x)
    ensures FindIf(a, p) == |a|
  {
    if a != "" {
      assert a[0] in a;
      FindIfNone(a[1..], p);
    }
  }

  /** str_next_matching: -1 when nothing matches. */
  method NextMatching(s: string, from: nat, p: char -> bool) returns (off: int)
    requires from <= |s|
    ensures var i := from + FindIf(s[from..], p); off == if i < |s| then i else -1
  {
    var o := from;
    while o < |s|
      invariant from <= o <= |s|
      invariant from + FindIf(s[from..], p) == o + FindIf(s[o..], p)
    {
      if p(s[o]) {
        return o;
      }
      assert s[o..][1..] == s[o + 1..];
      o := o + 1;
    }
    off := -1;
  }

  /** The length of the argument at the front of s: up to the closing quote, or up to the next
      white space; an unclosed quote takes everything. */
  function SegmentLength(s: string): (n: nat)
    requires s != ""
    ensures 0 < n <= |s|
  {
    if IsSingleQuote(s[0]) then QuotedLength(s, IsSingleQuote)
    else if IsDoubleQuote(s[0]) then QuotedLength(s, IsDoubleQuote)
    else 1 + FindIf(s[1..], IsSpace)
  }

  function QuotedLength(s: string, quote: char -> bool): (n: nat)
    requires s != ""
    ensures 0 < n <= |s|
  {
    var i := FindIf(s[1..], quote);
    if i < |s| - 1 then i + 2 else |s|
  }

  /** The argument a segment stands for; its quotes are kept or taken off. */
  function Argument(segment: string, keepQuotes: bool): string
    requires segment != ""
  {
    var quoted := |segment| > 1 && IsQuote(segment[0]);
    var closed := quoted && segment[|segment| - 1] == segment[0];
    Trimmed(
      if keepQuotes || !quoted then segment
      else if closed then segment[1..|segment| - 1]
      else segment[1..])
  }

  function Arguments(s: string, keepQuotes: bool): seq<string>
    decreases |s|
  {
    var t := SkipSpace(s);
    if t == "" then []
    else
      var n := SegmentLength(t);
      [Argument(t[..n], keepQuotes)] + Arguments(t[n..], keepQuotes)
  }

  function SkipSpace(s: string): (t: string)
    ensures |t| <= |s|
    ensures t != "" ==> !IsSpace(t[0])
  {
    if s != "" && IsSpace(s[0]) then SkipSpace(s[1..]) else s
  }

  lemma {:induction false} SkipIsFind(s: string)
    ensures SkipSpace(s) == s[FindIf(s, NonSpace)..]
  {
    if s != "" && IsSpace(s[0]) {
      SkipIsFind(s[1..]);
    }
  }

  /** The end of the segment at start, as the code computes it from str_next_matching's -1. */
  method SegmentEnd(s: string, start: nat) returns (end: nat)
    requires start < |s|
    ensures end == start + SegmentLength(s[start..])
  {
    var ch := s[start];
    var e: int;
    assert s[start..][1..] == s[start + 1..];
    if IsSingleQuote(ch) {
      e := NextMatching(s, start + 1, IsSingleQuote);
      e := e + 1;
    } else if IsDoubleQuote(ch) {
      e := NextMatching(s, start + 1, IsDoubleQuote);
      e := e + 1;
    } else {
      e := NextMatching(s, start + 1, IsSpace);
    }
    if e <= start {
      e := |s|;
    }
    end := e;
  }

  /** A segment that begins with a quote and is not closed by one runs to the end. */
  lemma OpenQuoteTakesAll(s: string)
    requires s != ""
    ensures var n := SegmentLength(s); IsQuote(s[0]) ==> n == |s| || (n > 1 && s[n - 1] == s[0])
  {
    FindIfFirst(s[1..], IsSingleQuote);
    FindIfFirst(s[1..], IsDoubleQuote);
  }

  lemma QuoteCloses(s: string, from: nat, end: nat)
    requires from < |s| && end == from + SegmentLength(s[from..])
    ensures IsQuote(s[from]) ==> end == |s| || (end - from > 1 && s[end - 1] == s[from])
  {
    OpenQuoteTakesAll(s[from..]);
  }

  lemma SliceOfSlice(s: string, a: nat, b: nat, c: nat, d: nat)
    requires a <= b <= |s| && c <= d <= b - a
    ensures s[a..b][c..d] == s[a + c..a + d]
  {
    var t := s[a..b];
    assert forall k :: 0 <= k < d - c ==> t[c..d][k] == t[c + k] == s[a + (c + k)];
  }

  lemma SameMiddle(s: string, from: nat, end: nat, takeQuote: bool)
    requires from < end <= |s|
    requires IsQuote(s[from]) ==> end == |s| || (end - from > 1 && s[end - 1] == s[from])
    ensures
      var len := end - from;
      var startsWithQuote := len > 1 && IsQuote(s[from]);
      var fullyQuoted := startsWithQuote && s[from] == s[end - 1];
      var midFrom := if startsWithQuote && !takeQuote then from + 1 else from;
      var midEnd := midFrom + if fullyQuoted && !takeQuote then len - 2 else len;
      Trimmed(s[midFrom..if midEnd <= |s| then midEnd else |s|]) == Argument(s[from..end], takeQuote)
  {
    var segment := s[from..end];
    if |segment| > 1 {
      SliceOfSlice(s, from, end, 1, |segment|);
      SliceOfSlice(s, from, end, 1, |segment| - 1);
      assert segment[1..] == segment[1..|segment|];
    }
  }

  /** The argument whose segment starts at from, and where the segment ends. */
  method ArgumentAt(s: string, from: nat, takeQuote: bool) returns (argument: string, end: nat)
    requires from < |s|
    ensures end == from + SegmentLength(s[from..])
    ensures argument == Argument(s[from..end], takeQuote)
  {
    end := SegmentEnd(s, from);
    var ch := s[from];
    var len := end - from;
    var startsWithQuote := len > 1 && (IsSingleQuote(ch) || IsDoubleQuote(ch));
    var fullyQuoted := startsWithQuote && ch == s[end - 1];
    var midFrom := if startsWithQuote && !takeQuote then from + 1 else from;
    var midLen := if fullyQuoted && !takeQuote then len - 2 else len;
    QuoteCloses(s, from, end);
    SameMiddle(s, from, end, takeQuote);
    // midRef stops at the end of the string
    argument := Trimmed(s[midFrom..if midFrom + midLen <= |s| then midFrom + midLen else |s|]);
  }

  /** tokenize_command. The offset moves forward in every round, whatever the command. */
  method TokenizeCommand(s: string, takeQuote: bool) returns (results: seq<string>)
    ensures results == Arguments(s, takeQuote)
  {
    results := [];
    var start := 0;
    assert s[0..] == s;
    while start < |s|
      invariant 0 <= start <= |s|
      invariant results + Arguments(s[start..], takeQuote) == Arguments(s, takeQuote)
      decreases |s| - start
    {
      var from := NextMatching(s, start, NonSpace);
      SkipIsFind(s[start..]);
      if from < 0 {
        assert SkipSpace(s[start..]) == "";
        break;
      }
      assert s[start..][from - start..] == s[from..];
      var argument, end := ArgumentAt(s, from, takeQuote);
      OneArgument(s, start, from, end, takeQuote);
      Advance(results, argument, Arguments(s[end..], takeQuote));
      results := results + [argument];
      start := end;
    }
  }

  lemma OneArgument(s: string, start: nat, from: nat, end: nat, takeQuote: bool)
    requires start <= from < end <= |s| && SkipSpace(s[start..]) == s[from..]
    requires end == from + SegmentLength(s[from..])
    ensures Arguments(s[start..], takeQuote) == [Argument(s[from..end], takeQuote)] + Arguments(s[end..], takeQuote)
  {
    var t := s[from..];
    assert t[..end - from] == s[from..end] && t[end - from..] == s[end..];
  }

  lemma Advance<T>(done: seq<T>, x: T, todo: seq<T>)
    ensures (done + [x]) + todo == done + ([x] + todo)
  {
  }

  // ---- nothing of a command is lost ------------------------------------------------------------

  /** The characters other than white space, in order. */
  function Solid(s: string): string {
    if s == "" then "" else (if IsSpace(s[0]) then "" else [s[0]]) + Solid(s[1..])
  }

  function Concat(parts: seq<string>): string {
    if parts == [] then "" else parts[0] + Concat(parts[1..])
  }

  lemma {:induction false} SolidConcat(a: string, b: string)
    ensures Solid(a + b) == Solid(a) + Solid(b)
  {
    if a == "" {
      assert a + b == b;
    } else {
      assert (a + b)[1..] == a[1..] + b;
      SolidConcat(a[1..], b);
    }
  }

  lemma {:induction false} SolidSpace(s: string)
    requires forall c :: c in s ==> IsSpace(c)
    ensures Solid(s) == ""
  {
    if s != "" {
      assert s[0] in s;
      SolidSpace(s[1..]);
    }
  }

  lemma SolidTrimmed(s: string)
    ensures Solid(Trimmed(s)) == Solid(s)
  {
    var left, right := TrimSplit(s, IsSpace);
    SolidSpace(left);
    SolidSpace(right);
    SolidConcat(left, Trimmed(s));
    SolidConcat(left + Trimmed(s), right);
  }

  lemma {:induction false} SolidSkip(s: string)
    ensures Solid(SkipSpace(s)) == Solid(s)
  {
    if s != "" && IsSpace(s[0]) {
      SolidSkip(s[1..]);
    }
  }

  /** With the quotes kept, splitting drops white space and nothing else. */
  lemma {:induction false} SplittingKeepsTheRest(s: string)
    ensures Solid(Concat(Arguments(s, true))) == Solid(s)
    decreases |s|
  {
    var t := SkipSpace(s);
    SolidSkip(s);
    if t != "" {
      var n := SegmentLength(t);
      var rest := Arguments(t[n..], true);
      SplittingKeepsTheRest(t[n..]);
      SolidTrimmed(t[..n]);
      SolidConcat(Trimmed(t[..n]), Concat(rest));
      SolidConcat(t[..n], t[n..]);
      assert t[..n] + t[n..] == t;
      assert Arguments(s, true)[1..] == rest;
    }
  }

  /** With the quotes kept, no argument is empty. */
  lemma {:induction false} NoEmptyArgument(s: string)
    ensures forall t :: t in Arguments(s, true) ==> t != ""
    decreases |s|
  {
    var t := SkipSpace(s);
    if t != "" {
      var n := SegmentLength(t);
      NoEmptyArgument(t[n..]);
      SolidTrimmed(t[..n]);
      assert Solid(t[..n]) != "";
    }
  }

  // ---- splitting and joining again -------------------------------------------------------------

  /** A quote comes right after a character that is not white space. */
  predicate Guarded(s: string) {
    forall i :: 0 <= i < |s| && IsQuote(s[i]) ==> i > 0 && !IsSpace(s[i - 1])
  }

  /** White space is single blanks between other characters. */
  predicate SingleSpaced(s: string) {
    forall i :: 0 <= i < |s| && IsSpace(s[i]) ==> s[i] == ' ' && 0 < i < |s| - 1 && !IsSpace(s[i + 1])
  }

  predicate IsWord(t: string) {
    t != "" && forall c :: c in t ==> !IsSpace(c)
  }

  lemma GuardedTail(s: string, n: nat)
    requires Guarded(s) && n <= |s| && (n < |s| ==> !IsQuote(s[n]))
    ensures Guarded(s[n..])
  {
    var t := s[n..];
    forall i | 0 <= i < |t| && IsQuote(t[i]) ensures i > 0 && !IsSpace(t[i - 1]) {
      assert t[i] == s[n + i] && (i > 0 ==> t[i - 1] == s[n + i - 1]);
    }
  }

  lemma {:induction false} GuardedSkip(s: string)
    requires Guarded(s)
    ensures Guarded(SkipSpace(s)) && (SkipSpace(s) != "" ==> !IsQuote(SkipSpace(s)[0]))
  {
    if s != "" && IsSpace(s[0]) {
      GuardedTail(s, 1);
      GuardedSkip(s[1..]);
    }
  }

  /** The first argument is the first word, quotes or no quotes. */
  lemma GuardedSegment(t: string, keepQuotes: bool)
    requires Guarded(t) && t != "" && !IsSpace(t[0])
    ensures var n := SegmentLength(t);
      && IsWord(t[..n]) && Argument(t[..n], keepQuotes) == t[..n]
      && Guarded(t[n..]) && (n < |t| ==> IsSpace(t[n]))
  {
    var n := SegmentLength(t);
    FindIfFirst(t[1..], IsSpace);
    assert forall k :: 0 < k < n ==> t[k] == t[1..][k - 1];
    assert IsWord(t[..n]);
    TrimFixed(t[..n], IsSpace);
    if n < |t| {
      assert t[n] == t[1..][n - 1];
    }
    GuardedTail(t, n);
  }

  lemma {:induction false} GuardedArgumentsAreWords(s: string, keepQuotes: bool)
    requires Guarded(s)
    ensures forall t :: t in Arguments(s, keepQuotes) ==> IsWord(t)
    decreases |s|
  {
    var t := SkipSpace(s);
    GuardedSkip(s);
    if t != "" {
      GuardedSegment(t, keepQuotes);
      GuardedArgumentsAreWords(t[SegmentLength(t)..], keepQuotes);
    }
  }

  lemma {:induction false} WordsJoinSingleSpaced(words: seq<string>)
    requires forall t :: t in words ==> IsWord(t)
    ensures SingleSpaced(Join(words, ' '))
    ensures words != [] ==> Join(words, ' ') != "" && !IsSpace(Join(words, ' ')[0])
  {
    if words != [] {
      var w := words[0];
      assert w in words && w[0] in w;
      if |words| > 1 {
        WordsJoinSingleSpaced(words[1..]);
        SpacedCons(w, Join(words[1..], ' '));
      } else {
        assert forall i :: 0 <= i < |w| ==> w[i] in w;
      }
    }
  }

  lemma SpacedCons(w: string, s: string)
    requires IsWord(w) && s != "" && !IsSpace(s[0]) && SingleSpaced(s)
    ensures SingleSpaced(w + " " + s)
  {
    var r := w + " " + s;
    var n := |w| + 1;
    assert forall i :: 0 <= i < |w| ==> r[i] == w[i] && w[i] in w;
    forall i | 0 <= i < |r| && IsSpace(r[i])
      ensures r[i] == ' ' && 0 < i < |r| - 1 && !IsSpace(r[i + 1])
    {
      if i == |w| {
        assert r[i + 1] == s[0];
      } else {
        assert r[i] == s[i - n];
        assert r[i + 1] == s[i - n + 1];
      }
    }
  }

  lemma SingleSpacedTail(s: string, n: nat)
    requires SingleSpaced(s) && n < |s| && IsSpace(s[n])
    ensures s[n] == ' ' && n + 1 < |s| && !IsSpace(s[n + 1]) && SingleSpaced(s[n + 1..])
  {
    var t := s[n + 1..];
    forall i | 0 <= i < |t| && IsSpace(t[i])
      ensures t[i] == ' ' && 0 < i < |t| - 1 && !IsSpace(t[i + 1])
    {
      assert t[i] == s[n + 1 + i];
      assert n + 1 + i < |s| - 1;
      assert t[i + 1] == s[n + 1 + i + 1];
    }
  }

  lemma FirstWord(s: string, keepQuotes: bool)
    requires Guarded(s) && s != "" && !IsSpace(s[0])
    ensures Arguments(s, keepQuotes) == [s[..SegmentLength(s)]] + Arguments(s[SegmentLength(s)..], keepQuotes)
  {
    GuardedSegment(s, keepQuotes);
  }

  lemma SkipOne(s: string, keepQuotes: bool)
    requires s != "" && IsSpace(s[0])
    ensures Arguments(s, keepQuotes) == Arguments(s[1..], keepQuotes)
  {
  }

  lemma {:induction false} SingleSpacedRejoins(s: string, keepQuotes: bool)
    requires Guarded(s) && SingleSpaced(s)
    ensures Join(Arguments(s, keepQuotes), ' ') == s
    ensures s != "" ==> Arguments(s, keepQuotes) != []
    decreases |s|
  {
    if s != "" {
      var n := SegmentLength(s);
      GuardedSegment(s, keepQuotes);
      if n < |s| {
        SingleSpacedTail(s, n);
        RejoinTail(s, n, keepQuotes);
        SingleSpacedRejoins(s[n + 1..], keepQuotes);
      }
      RejoinStep(s, keepQuotes);
    }
  }

  lemma RejoinStep(s: string, keepQuotes: bool)
    requires Guarded(s) && s != "" && !IsSpace(s[0])
    requires var n := SegmentLength(s);
      n < |s| ==>
        && s[n] == ' ' && Arguments(s[n..], keepQuotes) != []
        && Join(Arguments(s[n..], keepQuotes), ' ') == s[n + 1..]
    ensures Arguments(s, keepQuotes) != [] && Join(Arguments(s, keepQuotes), ' ') == s
  {
    var n := SegmentLength(s);
    FirstWord(s, keepQuotes);
    if n == |s| {
      assert s[..n] == s && s[n..] == "";
    } else {
      JoinCons(s[..n], Arguments(s[n..], keepQuotes));
      assert s == s[..n] + [' '] + s[n + 1..];
    }
  }

  lemma RejoinTail(s: string, n: nat, keepQuotes: bool)
    requires n + 1 < |s| && IsSpace(s[n]) && Guarded(s[n..])
    ensures Guarded(s[n + 1..])
    ensures Arguments(s[n..], keepQuotes) == Arguments(s[n + 1..], keepQuotes)
  {
    assert s[n..][1..] == s[n + 1..];
    GuardedTail(s[n..], 1);
    SkipOne(s[n..], keepQuotes);
  }

  lemma JoinCons(w: string, words: seq<string>)
    requires words != []
    ensures Join([w] + words, ' ') == w + [' '] + Join(words, ' ')
  {
  }

  /** A command whose quotes are guarded comes back from splitting and joining exactly when its
      white space is single blanks inside. */
  lemma RejoinExactly(s: string, keepQuotes: bool)
    requires Guarded(s)
    ensures Join(Arguments(s, keepQuotes), ' ') == s <==> SingleSpaced(s)
  {
    GuardedArgumentsAreWords(s, keepQuotes);
    WordsJoinSingleSpaced(Arguments(s, keepQuotes));
    if SingleSpaced(s) {
      SingleSpacedRejoins(s, keepQuotes);
    }
  }

  /** The segments, quoted or not, have single blanks between them and no white space around
      them, which includes the end of a quote left open. */
  predicate WellSpaced(s: string)
    decreases |s|
  {
    s == "" ||
    (&& !IsSpace(s[0])
     && var n := SegmentLength(s);
        if n == |s| then !IsSpace(s[n - 1])
        else s[n] == ' ' && n + 1 < |s| && WellSpaced(s[n + 1..]))
  }

  /** With the quotes kept, an argument is its segment; the last one might lose white space. */
  lemma SegmentStands(s: string)
    requires s != "" && !IsSpace(s[0])
    ensures var n := SegmentLength(s);
      && (Argument(s[..n], true) == s[..n] <==> !IsSpace(s[n - 1]))
      && (n < |s| ==> !IsSpace(s[n - 1]))
  {
    var n := SegmentLength(s);
    TrimmedIff(s[..n]);
    OpenQuoteTakesAll(s);
    FindIfFirst(s[1..], IsSpace);
    if n > 1 {
      assert s[n - 1] == s[1..][n - 2];
    }
  }

  /** What splitting and joining gives does not begin with white space. */
  lemma RejoinedStart(s: string)
    ensures var r := Join(Arguments(s, true), ' ');
      && (SkipSpace(s) != "" <==> r != "")
      && (r != "" ==> !IsSpace(r[0]))
  {
    var t := SkipSpace(s);
    if t != "" {
      var args := Arguments(s, true);
      NoEmptyArgument(s);
      assert args[0] in args && args[0] == Trimmed(t[..SegmentLength(t)]);
      var left, right := TrimSplit(t[..SegmentLength(t)], IsSpace);
    }
  }

  lemma FirstSegment(s: string)
    requires s != "" && !IsSpace(s[0]) && SegmentLength(s) < |s|
    ensures var n := SegmentLength(s); Arguments(s, true) == [s[..n]] + Arguments(s[n..], true)
  {
    SegmentStands(s);
  }

  lemma AfterBlank(s: string, n: nat)
    requires n < |s| && IsSpace(s[n])
    ensures Arguments(s[n..], true) == Arguments(s[n + 1..], true)
  {
    assert s[n..][1..] == s[n + 1..];
    SkipOne(s[n..], true);
  }

  /** One argument and the blank after it. */
  lemma RejoinedStep(s: string)
    requires s != "" && !IsSpace(s[0]) && SegmentLength(s) < |s|
    ensures var n := SegmentLength(s);
      Join(Arguments(s, true), ' ') == s <==>
        s[n] == ' ' && n + 1 < |s| && Join(Arguments(s[n + 1..], true), ' ') == s[n + 1..]
  {
    var n := SegmentLength(s);
    FirstSegment(s);
    if s[n] == ' ' {
      AfterBlank(s, n);
    }
    JoinedTail(s, n, Arguments(s[n..], true));
  }

  lemma JoinedTail(s: string, n: nat, rest: seq<string>)
    requires n < |s|
    ensures Join([s[..n]] + rest, ' ') == s <==>
      rest != [] && s[n] == ' ' && Join(rest, ' ') == s[n + 1..]
  {
    if rest == [] {
      assert [s[..n]] + rest == [s[..n]];
    } else {
      JoinCons(s[..n], rest);
      SameTail(s, n, Join(rest, ' '));
    }
  }

  lemma SameTail(s: string, n: nat, rest: string)
    requires n < |s|
    ensures s[..n] + [' '] + rest == s <==> s[n] == ' ' && rest == s[n + 1..]
  {
    var r := s[..n] + [' '] + rest;
    assert r[n] == ' ' && r[n + 1..] == rest;
    assert s == s[..n] + [s[n]] + s[n + 1..];
  }

  /** With the quotes kept, any command comes back from splitting and joining exactly when it is
      well spaced. */
  lemma {:induction false} RejoinKeptExactly(s: string)
    ensures Join(Arguments(s, true), ' ') == s <==> WellSpaced(s)
    decreases |s|
  {
    RejoinedStart(s);
    if s != "" && !IsSpace(s[0]) {
      var n := SegmentLength(s);
      if n == |s| {
        SegmentStands(s);
        assert s[..n] == s && s[n..] == "";
      } else {
        RejoinedStep(s);
        if n + 1 < |s| {
          RejoinKeptExactly(s[n + 1..]);
        }
      }
    }
  }

  // ---- an escaped path in a command --------------------------------------------------------------

  predicate Backslashed(e: string) {
    forall i :: 0 <= i < |e| && (IsQuote(e[i]) || e[i] == ' ') ==> i > 0 && e[i - 1] == '\\'
  }

  predicate OnlyBlanks(path: string) {
    forall c :: c in path && IsSpace(c) ==> c == ' '
  }

  predicate EndsInBlank(path: string) {
    path != "" && path[|path| - 1] == ' '
  }

  lemma SpecialsCover(c: char)
    requires IsQuote(c) || c == ' '
    ensures Special(c)
  {
    assert SPECIALS[0] == ' ' && SPECIALS[1] == '\'' && SPECIALS[2] == '"';
  }

  lemma {:induction false} EscapedBackslashed(path: string)
    ensures Backslashed(Escaped(path))
  {
    if path != "" {
      EscapedBackslashed(path[1..]);
      var c := path[0];
      if IsQuote(c) || c == ' ' {
        SpecialsCover(c);
      }
      BackslashedCons(if Special(c) then "\\" + [c] else [c], Escaped(path[1..]));
    }
  }

  lemma {:induction false} EscapedBlanks(path: string)
    ensures OnlyBlanks(Escaped(path)) <==> OnlyBlanks(path)
  {
    if path != "" {
      EscapedBlanks(path[1..]);
      var head := if Special(path[0]) then "\\" + [path[0]] else [path[0]];
      assert forall x :: x in path <==> x == path[0] || x in path[1..];
      assert forall x :: x in head ==> x == path[0] || x == '\\';
      assert path[0] in head;
      assert forall x :: x in head + Escaped(path[1..]) <==> x in head || x in Escaped(path[1..]);
    }
  }

  lemma {:induction false} EscapedEnd(path: string)
    requires path != ""
    ensures Escaped(path) != "" && Escaped(path)[|Escaped(path)| - 1] == path[|path| - 1]
  {
    if |path| > 1 {
      EscapedEnd(path[1..]);
    } else {
      assert Escaped(path[1..]) == "";
    }
  }

  lemma BackslashedCons(head: string, rest: string)
    requires Backslashed(head) && Backslashed(rest)
    ensures Backslashed(head + rest)
  {
    var r := head + rest;
    forall i | 0 <= i < |r| && (IsQuote(r[i]) || r[i] == ' ')
      ensures i > 0 && r[i - 1] == '\\'
    {
      if i >= |head| {
        assert r[i] == rest[i - |head|];
        assert r[i - 1] == rest[i - |head| - 1];
      }
    }
  }

  lemma BackslashedSpacing(e: string)
    requires Backslashed(e)
    ensures Guarded(e)
    ensures SingleSpaced(e) <==> OnlyBlanks(e) && !EndsInBlank(e)
  {
    if SingleSpaced(e) {
      forall c | c in e && IsSpace(c) ensures c == ' ' {
        var i :| 0 <= i < |e| && e[i] == c;
      }
    }
    if OnlyBlanks(e) && !EndsInBlank(e) {
      forall i | 0 <= i < |e| && IsSpace(e[i])
        ensures e[i] == ' ' && 0 < i < |e| - 1 && !IsSpace(e[i + 1])
      {
        assert e[i] in e && e[i] == ' ';
        assert e[i + 1] in e;
      }
    }
  }

  /** An escaped path comes back from tokenize_command and serialize_command exactly when its
      white space is blanks and it does not end in one; unescaping it then gives the path. */
  lemma EscapedPathSurvives(path: string, keepQuotes: bool)
    ensures Join(Arguments(Escaped(path), keepQuotes), ' ') == Escaped(path) <==>
      OnlyBlanks(path) && !EndsInBlank(path)
    ensures OnlyBlanks(path) && !EndsInBlank(path) ==>
      Unescaped(Join(Arguments(Escaped(path), keepQuotes), ' ')) == path
  {
    EscapedBackslashed(path);
    EscapedBlanks(path);
    if path != "" {
      EscapedEnd(path);
    }
    BackslashedSpacing(Escaped(path));
    RejoinExactly(Escaped(path), keepQuotes);
    UnescapeEscape(path);
  }

  // ---- escape_command ----------------------------------------------------------------------------

  /** escape_command: quotes around a text with blanks, if one kind of quote is free. */
  function EscapeCommand(s: string): string {
    if ' ' !in s then s
    else if '\'' !in s then "'" + s + "'"
    else if '"' !in s then "\"" + s + "\""
    else s
  }

  lemma QuotedIsOne(s: string, q: char)
    requires IsQuote(q) && q !in s
    ensures Arguments([q] + s + [q], false) == [Trimmed(s)]
  {
    QuotedFirst(q, s, "", false);
    assert [q] + s + [q] + "" == [q] + s + [q];
  }

  // ---- the arguments of a command, read off its beginning -----------------------------------------

  /** Up to the next quote of the same kind, whatever stands between and behind. */
  lemma QuotedFirst(q: char, s: string, rest: string, keepQuotes: bool)
    requires IsQuote(q) && q !in s
    ensures Arguments([q] + s + [q] + rest, keepQuotes) ==
      [if keepQuotes then [q] + s + [q] else Trimmed(s)] + Arguments(rest, keepQuotes)
  {
    var t := [q] + s + [q] + rest;
    var n := |s| + 2;
    QuotedSegment(q, s, rest);
    assert t[..n] == [q] + s + [q] && t[n..] == rest;
    QuotedArgument(q, s, keepQuotes);
  }

  lemma QuotedSegment(q: char, s: string, rest: string)
    requires IsQuote(q) && q !in s
    ensures SegmentLength([q] + s + [q] + rest) == |s| + 2 && !IsSpace(q)
  {
    var t := [q] + s + [q] + rest;
    assert t[1..] == s + [q] + rest;
    if IsSingleQuote(q) {
      FindIfAt(s, q, rest, IsSingleQuote);
    } else {
      FindIfAt(s, q, rest, IsDoubleQuote);
    }
  }

  lemma QuotedArgument(q: char, s: string, keepQuotes: bool)
    requires IsQuote(q)
    ensures Argument([q] + s + [q], keepQuotes) == if keepQuotes then [q] + s + [q] else Trimmed(s)
  {
    var t := [q] + s + [q];
    assert t[1..|t| - 1] == s;
    TrimFixed(t, IsSpace);
  }

  /** A quote that is not closed takes everything. */
  lemma OpenQuoteFirst(q: char, s: string, keepQuotes: bool)
    requires IsQuote(q) && q !in s && s != ""
    ensures Arguments([q] + s, keepQuotes) == [Trimmed(if keepQuotes then [q] + s else s)]
  {
    var t := [q] + s;
    assert t[1..] == s && s[|s| - 1] in s;
    if IsSingleQuote(q) {
      FindIfNone(s, IsSingleQuote);
    } else {
      FindIfNone(s, IsDoubleQuote);
    }
    assert SegmentLength(t) == |t|;
    assert t[..|t|] == t && t[|t|..] == "";
  }

  /** A word, which may hold quotes but does not begin with one, up to the next white space. */
  lemma WordFirst(w: string, rest: string, keepQuotes: bool)
    requires IsWord(w) && !IsQuote(w[0]) && (rest != "" ==> IsSpace(rest[0]))
    ensures Arguments(w + rest, keepQuotes) == [w] + Arguments(rest, keepQuotes)
  {
    var t := w + rest;
    assert t[0] == w[0] && w[0] in w && w[|w| - 1] in w;
    assert forall x :: x in w[1..] ==> x in w;
    assert t[1..] == w[1..] + rest;
    if rest == "" {
      assert t[1..] == w[1..];
      FindIfNone(w[1..], IsSpace);
    } else {
      assert w[1..] + rest == w[1..] + [rest[0]] + rest[1..];
      FindIfAt(w[1..], rest[0], rest[1..], IsSpace);
    }
    assert SegmentLength(t) == |w|;
    assert t[..|w|] == w && t[|w|..] == rest;
    TrimFixed(w, IsSpace);
  }

  /** A text that is not put in quotes comes back whole exactly when it is a word that does not
      begin with a quote, or a lone quote. */
  lemma BareIsOne(s: string)
    ensures Arguments(s, false) == [s] <==> IsWord(s) && (IsQuote(s[0]) ==> |s| == 1)
  {
    if IsWord(s) && (IsQuote(s[0]) ==> |s| == 1) {
      BareWord(s);
    } else if Arguments(s, false) == [s] {
      BareOnlyWord(s);
    }
  }

  lemma BareWord(s: string)
    requires IsWord(s) && (IsQuote(s[0]) ==> |s| == 1)
    ensures Arguments(s, false) == [s]
  {
    assert s[0] in s && s[|s| - 1] in s;
    assert forall x :: x in s[1..] ==> x in s;
    FindIfNone(s[1..], IsSpace);
    assert SegmentLength(s) == |s|;
    assert s[..|s|] == s && s[|s|..] == "";
    TrimFixed(s, IsSpace);
  }

  lemma TrimmedShorter(s: string)
    ensures |Trimmed(s)| <= |s|
  {
    var left, right := TrimSplit(s, IsSpace);
  }

  /** The argument is never longer than its segment, and shorter if a quote came off. */
  lemma ArgumentLength(segment: string)
    requires segment != ""
    ensures |Argument(segment, false)| <= |segment|
    ensures |segment| > 1 && IsQuote(segment[0]) ==> |Argument(segment, false)| < |segment|
  {
    TrimmedShorter(segment);
    TrimmedShorter(segment[1..]);
    if |segment| > 1 {
      TrimmedShorter(segment[1..|segment| - 1]);
    }
  }

  lemma FirstArgument(s: string, keepQuotes: bool)
    requires Arguments(s, keepQuotes) != []
    ensures var t := SkipSpace(s);
      t != "" && Arguments(s, keepQuotes)[0] == Argument(t[..SegmentLength(t)], keepQuotes)
  {
  }

  lemma BareOnlyWord(s: string)
    requires Arguments(s, false) == [s]
    ensures IsWord(s) && (IsQuote(s[0]) ==> |s| == 1)
  {
    FirstArgument(s, false);
    BareOneSegment(s, SkipSpace(s));
    if !IsQuote(s[0]) {
      FindIfFirst(s[1..], IsSpace);
      assert forall k :: 0 < k < |s| ==> s[k] == s[1..][k - 1];
    }
  }

  /** If the first argument is the whole text, it is one segment that lost no quote. */
  lemma BareOneSegment(s: string, t: string)
    requires t == SkipSpace(s) && t != ""
    requires Argument(t[..SegmentLength(t)], false) == s
    ensures t == s && !IsSpace(s[0]) && SegmentLength(s) == |s|
    ensures IsQuote(s[0]) ==> |s| == 1
  {
    var n := SegmentLength(t);
    ArgumentLength(t[..n]);
    SkipSame(s);
    assert n == |s| && t[..n] == s;
  }

  lemma SkipSame(s: string)
    ensures |SkipSpace(s)| == |s| ==> SkipSpace(s) == s
  {
  }

  /** tokenize_command undoes escape_command exactly when the text has no blank and is a bare
      word, or has blanks, only one kind of quote at most, and no white space at its ends. */
  lemma EscapeCommandExactly(s: string)
    ensures Arguments(EscapeCommand(s), false) == [s] <==>
      if ' ' in s then ('\'' !in s || '"' !in s) && IsTrim(s, IsSpace)
      else IsWord(s) && (IsQuote(s[0]) ==> |s| == 1)
    ensures '"' in EscapeCommand(s) && '"' !in s ==> '\'' in s
  {
    BareIsOne(s);
    if ' ' in s {
      TrimmedIff(s);
      if '\'' !in s {
        QuotedIsOne(s, '\'');
      } else if '"' !in s {
        QuotedIsOne(s, '"');
      }
    }
  }

  lemma TrimmedIff(s: string)
    ensures Trimmed(s) == s <==> IsTrim(s, IsSpace)
  {
    var left, right := TrimSplit(s, IsSpace);
    if IsTrim(s, IsSpace) {
      TrimFixed(s, IsSpace);
    }
  }

  // ---- the launch command ------------------------------------------------------------------------

  const REDIRECT := "> /recalbox/share/system/logs/lastgamelaunch.log 2>&1"

  datatype Launch = NoCommand | Run(command: string, args: seq<string>)

  /** serialize_command. */
  function Serialized(command: string, args: seq<string>): string {
    Join([command] + args, ' ')
  }

  function Extras(debug: bool): seq<string> {
    (if debug then ["-verbose"] else []) + [REDIRECT]
  }

  /** The first argument is the command; without one, or with an empty one, there is no launch. */
  method TakeCommand(args: seq<string>) returns (launch: Launch)
    ensures launch.NoCommand? <==> args == [] || args[0] == ""
    ensures launch.Run? ==> [launch.command] + launch.args == args
  {
    var command, rest := "", args;
    if args != [] {
      command, rest := args[0], args[1..];
    }
    if command == "" {
      return NoCommand;
    }
    launch := Run(command, rest);
  }

  lemma ExtrasNotEmpty(raw: string, debug: bool)
    ensures var args := Arguments(raw, true) + Extras(debug); args != [] && args[0] != ""
  {
    NoEmptyArgument(raw);
    var args := Arguments(raw, true);
    if args != [] {
      assert args[0] in args;
    }
  }

  lemma {:induction false} JoinBoth(a: seq<string>, b: seq<string>)
    requires a != [] && b != []
    ensures Join(a + b, ' ') == Join(a, ' ') + " " + Join(b, ' ')
  {
    assert (a + b)[1..] == a[1..] + b;
    if |a| > 1 {
      JoinBoth(a[1..], b);
    } else {
      assert a[1..] == [];
    }
  }

  lemma LaunchJoin(raw: string, extras: seq<string>)
    requires WellSpaced(raw) && extras != []
    ensures Join(Arguments(raw, true) + extras, ' ') == (if raw == "" then "" else raw + " ") + Join(extras, ' ')
  {
    RejoinKeptExactly(raw);
    RejoinedStart(raw);
    var args := Arguments(raw, true);
    if args == [] {
      assert args + extras == extras;
    } else {
      JoinBoth(args, extras);
    }
  }

  /** The line given to the shell: a well-spaced launch command word for word, and behind it what
      the program adds. */
  lemma LaunchLine(raw: string, debug: bool)
    requires WellSpaced(raw)
    ensures Join(Arguments(raw, true) + Extras(debug), ' ') ==
      (if raw == "" then "" else raw + " ") +
      ((if debug then "-verbose " else "") + "> /recalbox/share/system/logs/lastgamelaunch.log 2>&1")
  {
    ExtrasLine(debug);
    LaunchJoin(raw, Extras(debug));
  }

  lemma ExtrasLine(debug: bool)
    ensures Extras(debug) != []
    ensures Join(Extras(debug), ' ') ==
      (if debug then "-verbose " else "") + "> /recalbox/share/system/logs/lastgamelaunch.log 2>&1"
  {
    if debug {
      assert Extras(true) == ["-verbose", REDIRECT];
      JoinBoth(["-verbose"], [REDIRECT]);
      assert ["-verbose"] + [REDIRECT] == ["-verbose", REDIRECT];
    } else {
      assert [] + [REDIRECT] == [REDIRECT];
    }
  }

  /** The part of onLaunchRequested that takes the command apart. Because of the redirection
      there is always a first argument, and it is never empty: the branch for a missing launch
      command is not reached. */
  method PrepareLaunch(raw: string, debug: bool) returns (launch: Launch)
    ensures launch.Run? && launch.command != ""
    ensures Serialized(launch.command, launch.args) == Join(Arguments(raw, true) + Extras(debug), ' ')
    ensures WellSpaced(raw) ==>
      Serialized(launch.command, launch.args) ==
        (if raw == "" then "" else raw + " ") +
        ((if debug then "-verbose " else "") + "> /recalbox/share/system/logs/lastgamelaunch.log 2>&1")
  {
    if WellSpaced(raw) {
      LaunchLine(raw, debug);
    }
    var args := TokenizeCommand(raw, true);
    if debug {
      args := args + ["-verbose"];
    }
    args := args + [REDIRECT];
    assert args == Arguments(raw, true) + Extras(debug);
    ExtrasNotEmpty(raw, debug);
    launch := TakeCommand(args);
  }
}
