/** The line-oriented attribute reader, and the entry printer its files come from. */
module MetaFile {
  import opened StringOps
  import opened Text

  /** What the two callbacks of read_stream are called with. A null value is the empty string:
      the reader stores no other empty value. */
  datatype Event =
    | Attribute(key: string, values: seq<string>)
    | MissingValue(key: string)
    | NoAttribute
    | InvalidLine

  /** The open entry, and the callbacks made so far. */
  datatype Reader = Reader(key: string, values: seq<string>, out: seq<Event>)

  const START := Reader("", [], [])
  const EMPTY_LINE_MARK := "."

  /** The callback that closing an entry makes, if any. */
  function CloseCurrent(key: string, values: seq<string>): seq<Event> {
    if key == "" then [] else if values == [] then [MissingValue(key)] else [Attribute(key, values)]
  }

  /** close_current_attrib. */
  function Close(st: Reader): Reader {
    Reader("", [], st.out + CloseCurrent(st.key, st.values))
  }

  /** A line that is neither blank, nor a comment, nor a continuation. */
  function OpenEntry(st: Reader, trimmed: string): Reader {
    var i := Find(trimmed, ':');
    if 0 < i < |trimmed| then
      var value := Trimmed(trimmed[i + 1..]);
      Reader(ToLower(Trimmed(trimmed[..i])), if value == "" then [] else [value], st.out)
    else
      st.(out := st.out + [InvalidLine])
  }

  function Feed(st: Reader, line: string): Reader {
    var trimmed := Trimmed(line);
    if line != "" && line[0] == '#' then st
    else if trimmed == "" then Close(st)
    else if line != "" && IsSpace(line[0]) then
      if st.key == "" then st.(out := st.out + [NoAttribute])
      else if trimmed == EMPTY_LINE_MARK then st.(values := st.values + [""])
      else st.(values := st.values + [trimmed])
    else OpenEntry(Close(st), trimmed)
  }

  function FeedAll(st: Reader, lines: seq<string>): Reader
    decreases |lines|
  {
    if lines == [] then st else FeedAll(Feed(st, lines[0]), lines[1..])
  }

  /** Everything reported while reading a text. */
  function ReadText(text: string): seq<Event> {
    Close(FeedAll(START, Lines(text))).out
  }

  /** Everything reported while reading a file, which is opened in text mode: carriage returns
      are dropped on the way. */
  function ReadFile(text: string): seq<Event> {
    ReadText(Without(text, '\r'))
  }

  lemma {:induction false} FeedAppend(st: Reader, a: seq<string>, b: seq<string>)
    ensures FeedAll(st, a + b) == FeedAll(FeedAll(st, a), b)
    decreases |a|
  {
    if a == [] {
      assert a + b == b;
    } else {
      assert (a + b)[1..] == a[1..] + b;
      FeedAppend(Feed(st, a[0]), a[1..], b);
    }
  }

  /** A comment line anywhere changes nothing, not even inside an entry. */
  lemma CommentSkipped(st: Reader, a: seq<string>, comment: string, b: seq<string>)
    requires comment != "" && comment[0] == '#'
    ensures FeedAll(st, a + [comment] + b) == FeedAll(st, a + b)
  {
    FeedAppend(st, a + [comment], b);
    FeedAppend(st, a, [comment]);
    FeedAppend(st, a, b);
    assert FeedAll(FeedAll(st, a), [comment]) == Feed(FeedAll(st, a), comment);
  }

  /** Any white space at its beginning makes a line continue the open entry; without one it is
      reported. */
  lemma ContinuationLine(st: Reader, indent: string, text: string, after: string)
    requires indent != "" && forall c :: c in indent + after ==> IsSpace(c)
    requires text != "" && IsTrim(text, IsSpace)
    ensures Feed(st, indent + text + after) ==
      if st.key == "" then st.(out := st.out + [NoAttribute])
      else st.(values := st.values + [if text == "." then "" else text])
  {
    TrimPadded(indent, text, after, IsSpace);
    TrimFixed(text, IsSpace);
    assert indent[0] in indent + after;
    var line := indent + text + after;
    assert line[0] == indent[0];
  }

  /** A line that is no key and value closes the entry and is reported. */
  lemma LineWithoutKey(st: Reader, line: string)
    requires line != "" && line[0] != '#' && IsTrim(line, IsSpace) && (':' !in line || line[0] == ':')
    ensures Feed(st, line) == Reader("", [], st.out + CloseCurrent(st.key, st.values) + [InvalidLine])
  {
    TrimFixed(line, IsSpace);
    FindFirst(line, ':');
  }

  /** The body of the reading loop. */
  method FeedLine(st: Reader, line: string) returns (r: Reader)
    ensures r == Feed(st, line)
  {
    r := st;
    if line != "" && line[0] == '#' {
      return;
    }
    var trimmed := Trimmed(line);
    if trimmed == "" {
      r := Close(r);
      return;
    }
    if IsSpace(line[0]) {
      if r.key == "" {
        r := r.(out := r.out + [NoAttribute]);
      } else if trimmed == EMPTY_LINE_MARK {
        r := r.(values := r.values + [""]);
      } else {
        r := r.(values := r.values + [trimmed]);
      }
      return;
    }
    r := Close(r);
    var colon := Find(trimmed, ':');
    if 0 < colon < |trimmed| {
      r := r.(key := ToLower(Trimmed(trimmed[..colon])));
      var value := Trimmed(trimmed[colon + 1..]);
      if value != "" {
        r := r.(values := [value]);
      }
    } else {
      r := r.(out := r.out + [InvalidLine]);
    }
  }

  /** read_stream. */
  method ReadStream(text: string) returns (events: seq<Event>)
    ensures events == ReadText(text)
  {
    var st, rest := START, text;
    while rest != ""
      invariant FeedAll(START, Lines(text)) == FeedAll(st, Lines(rest))
      decreases |rest|
    {
      assert Lines(rest)[1..] == Lines(AfterLine(rest));
      st := FeedLine(st, FirstLine(rest));
      rest := AfterLine(rest);
    }
    events := Close(st).out;
  }

  /** read_file, on a file that could be opened. */
  method ReadWholeFile(content: string) returns (events: seq<Event>)
    ensures events == ReadFile(content)
  {
    var text := EraseAll(content, '\r');
    events := ReadStream(text);
  }

  /** One round of the loop of merge_lines. */
  function MergeLine(out: string, line: string): string {
    if line == "" then out + "\n\n"
    else if out != "" && out[|out| - 1] == '\n' then out + line
    else out + " " + line
  }

  function MergeInto(out: string, lines: seq<string>): string
    decreases |lines|
  {
    if lines == [] then out else MergeInto(MergeLine(out, lines[0]), lines[1..])
  }

  function MergeLines(lines: seq<string>): string {
    Trimmed(MergeInto("", lines))
  }

  lemma {:induction false} MergeAppend(out: string, a: seq<string>, b: seq<string>)
    ensures MergeInto(out, a + b) == MergeInto(MergeInto(out, a), b)
    decreases |a|
  {
    if a == [] {
      assert a + b == b;
    } else {
      assert (a + b)[1..] == a[1..] + b;
      MergeAppend(MergeLine(out, a[0]), a[1..], b);
    }
  }

  function Breaks(n: nat): seq<string> {
    if n == 0 then [] else Breaks(n - 1) + [""]
  }

  function BlankLines(n: nat): string {
    if n == 0 then "" else BlankLines(n - 1) + "\n\n"
  }

  lemma {:induction false} MergeBreaks(out: string, n: nat)
    ensures MergeInto(out, Breaks(n)) == out + BlankLines(n)
    ensures n > 0 ==> BlankLines(n) != "" && BlankLines(n)[|BlankLines(n)| - 1] == '\n'
    ensures forall c :: c in BlankLines(n) ==> IsSpace(c)
  {
    if n == 0 {
      assert out + "" == out;
    } else {
      MergeBreaks(out, n - 1);
      MergeAppend(out, Breaks(n - 1), [""]);
      assert MergeInto(out + BlankLines(n - 1), [""]) == out + BlankLines(n - 1) + "\n\n";
    }
  }

  lemma {:induction false} TrimLeftMore(s: string, more: string)
    requires s != "" && !IsSpace(s[|s| - 1])
    ensures TrimLeft(s, IsSpace) != "" && TrimLeft(s + more, IsSpace) == TrimLeft(s, IsSpace) + more
    ensures TrimLeft(s, IsSpace)[|TrimLeft(s, IsSpace)| - 1] == s[|s| - 1]
  {
    if IsSpace(s[0]) {
      assert (s + more)[1..] == s[1..] + more;
      TrimLeftMore(s[1..], more);
    }
  }

  /** The text so far ends like its last line. */
  lemma MergedEnd(ls: seq<string>, v: string)
    requires v != "" && IsTrim(v, IsSpace)
    ensures var m := MergeInto("", ls + [v]);
      m != "" && m[|m| - 1] == v[|v| - 1] && !IsSpace(m[|m| - 1])
  {
    MergeAppend("", ls, [v]);
  }

  lemma TrimmedMore(m: string, more: string)
    requires m != "" && !IsSpace(m[|m| - 1]) && more != "" && !IsSpace(more[|more| - 1])
    ensures Trimmed(m + more) == Trimmed(m) + more
  {
    TrimLeftMore(m, more);
  }

  lemma NothingInFront(s: string)
    ensures "" + s == s
  {
  }

  /** A blank, or an empty line for each break. */
  function Gap(n: nat): string {
    if n == 0 then " " else BlankLines(n)
  }

  lemma Reassociate(a: string, b: string, c: string)
    ensures (a + b) + c == a + (b + c)
  {
  }

  lemma MergeLast(out: string, ls: seq<string>, v: string)
    ensures MergeInto(out, ls + [v]) == MergeLine(MergeInto(out, ls), v)
  {
    MergeAppend(out, ls, [v]);
    assert [v][1..] == [];
  }

  lemma LineBehindText(m: string, v: string)
    requires v != "" && (m == "" || m[|m| - 1] != '\n')
    ensures MergeLine(m, v) == m + (" " + v)
  {
    Reassociate(m, " ", v);
  }

  lemma LineBehindBreak(m: string, b: string, v: string)
    requires v != "" && b != "" && b[|b| - 1] == '\n'
    ensures MergeLine(m + b, v) == m + (b + v)
  {
    Reassociate(m, b, v);
  }

  lemma MergedGap(m: string, n: nat, v: string)
    requires v != "" && (m == "" || m[|m| - 1] != '\n')
    ensures MergeLine(MergeInto(m, Breaks(n)), v) == m + (Gap(n) + v)
  {
    if n == 0 {
      LineBehindText(m, v);
    } else {
      MergeBreaks(m, n);
      LineBehindBreak(m, BlankLines(n), v);
    }
  }

  /** The text in front of the gap, and what follows it. */
  lemma MergedBoth(ls: seq<string>, n: nat, v: string)
    requires v != "" && (MergeInto("", ls) == "" || MergeInto("", ls)[|MergeInto("", ls)| - 1] != '\n')
    ensures MergeInto("", ls + Breaks(n) + [v]) == MergeInto("", ls) + (Gap(n) + v)
  {
    MergeLast("", ls + Breaks(n), v);
    MergeAppend("", ls, Breaks(n));
    MergedGap(MergeInto("", ls), n, v);
  }

  /** merge_lines, line by line: the next line comes behind a blank, or behind an empty line for
      each paragraph break before it; breaks at either end are lost. */
  lemma MergeMore(ls: seq<string>, u: string, n: nat, v: string)
    requires u != "" && IsTrim(u, IsSpace) && v != "" && IsTrim(v, IsSpace)
    ensures MergeLines(ls + [u] + Breaks(n) + [v]) == MergeLines(ls + [u]) + (Gap(n) + v)
  {
    MergedEnd(ls, u);
    MergedBoth(ls + [u], n, v);
    MergedTrim(MergeInto("", ls + [u]), n, v);
  }

  lemma MergedTrim(m: string, n: nat, v: string)
    requires m != "" && !IsSpace(m[|m| - 1]) && v != "" && IsTrim(v, IsSpace)
    ensures Trimmed(m + (Gap(n) + v)) == Trimmed(m) + (Gap(n) + v)
  {
    var more := Gap(n) + v;
    assert more[|more| - 1] == v[|v| - 1];
    TrimmedMore(m, more);
  }

  lemma BreaksAtEnd(ls: seq<string>, n: nat)
    ensures MergeLines(ls + Breaks(n)) == MergeLines(ls)
  {
    var m, b := MergeInto("", ls), BlankLines(n);
    MergeAppend("", ls, Breaks(n));
    MergeBreaks(m, n);
    assert forall c :: c in b ==> IsSpace(c);
    TrimLeftBefore(m, b, IsSpace);
  }

  lemma GapTrimmed(n: nat, v: string)
    requires v != "" && IsTrim(v, IsSpace)
    ensures Trimmed(Gap(n) + v) == v
  {
    MergeBreaks("", n);
    TrimLeftPad(Gap(n), v, IsSpace);
    TrimFixed(v, IsSpace);
  }

  lemma MergeFirst(n: nat, v: string)
    requires v != "" && IsTrim(v, IsSpace)
    ensures MergeLines(Breaks(n) + [v]) == v
  {
    MergedBoth([], n, v);
    assert [] + Breaks(n) + [v] == Breaks(n) + [v];
    NothingInFront(Gap(n) + v);
    GapTrimmed(n, v);
  }

  lemma MergeOne(v: string)
    requires v != "" && IsTrim(v, IsSpace)
    ensures MergeLines([v]) == v
  {
    assert MergeInto("", [v]) == MergeInto("" + " " + v, []);
    assert "" + " " + v == " " + v;
    TrimLeftPad(" ", v, IsSpace);
    TrimFixed(v, IsSpace);
  }
}
