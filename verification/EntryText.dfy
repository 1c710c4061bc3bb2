/** Printed entries and what the attribute reader makes of them. */
module EntryText {
  import opened Text
  import opened MetaFile
  import opened StringOps

  /** One key with its values, as the settings printer lays it out: a single value on the line
      of the key, any other number of values on indented lines of their own. */
  datatype Item = Item(key: string, values: seq<string>)

  function Indented(values: seq<string>): seq<string> {
    if values == [] then [] else ["  " + values[0]] + Indented(values[1..])
  }

  function ItemLines(e: Item): seq<string> {
    if |e.values| == 1 then [e.key + ": " + e.values[0]]
    else [e.key + ":"] + Indented(e.values)
  }

  function AllLines(es: seq<Item>): seq<string> {
    if es == [] then [] else ItemLines(es[0]) + AllLines(es[1..])
  }

  function Reported(e: Item): Event {
    Attribute(e.key, e.values)
  }

  function AllReported(es: seq<Item>): seq<Event> {
    if es == [] then [] else [Reported(es[0])] + AllReported(es[1..])
  }

  /** A key as the reader reports it. */
  predicate PlainKey(k: string) {
    k != "" && IsTrim(k, IsSpace) && ToLower(k) == k && ':' !in k && OneLine(k)
  }

  predicate GoodKey(k: string) {
    PlainKey(k) && k[0] != '#'
  }

  /** A key that opens an entry; what is read of it has no white space at the end. */
  predicate OpeningKey(k: string) {
    k != "" && k[0] != '#' && !IsSpace(k[0]) && ToLower(k) == k && ':' !in k && OneLine(k)
  }

  /** A value the reader can hand back: it lost no white space and no line end. */
  predicate Clean(v: string) {
    v != "" && IsTrim(v, IsSpace) && OneLine(v)
  }

  predicate GoodValues(vs: seq<string>) {
    && vs != []
    && (forall v :: v in vs ==> Clean(v))
    && (|vs| > 1 ==> EMPTY_LINE_MARK !in vs)
  }

  predicate GoodItem(e: Item) {
    GoodKey(e.key) && GoodValues(e.values)
  }

  // ---- reading back one entry ------------------------------------------------------------

  lemma {:induction false} LowerChars(s: string)
    ensures ToLower(s) == s <==> forall c :: c in s ==> ToLowerChar(c) == c
  {
    if s != "" {
      LowerChars(s[1..]);
      assert s == [s[0]] + s[1..];
      assert ToLower(s)[0] == ToLowerChar(s[0]) && ToLower(s)[1..] == ToLower(s[1..]);
    }
  }

  /** What is read of an opening key: the white space at its end is lost. */
  lemma OpeningTrimmed(k: string)
    requires OpeningKey(k)
    ensures GoodKey(Trimmed(k)) && Trimmed(k) <= k
    ensures GoodKey(k) ==> Trimmed(k) == k
  {
    var left, right := TrimSplit(k, IsSpace);
    assert TrimLeft(k, IsSpace) == k;
    var pad := TrimRightPrefix(k, IsSpace);
    var t := Trimmed(k);
    assert k == t + pad;
    assert k[0] !in pad;
    LowerChars(k);
    LowerChars(t);
    assert forall c :: c in t ==> c in k;
    assert t[0] == k[0];
    if GoodKey(k) {
      TrimFixed(k, IsSpace);
    }
  }

  lemma FeedValueLine(st: Reader, k: string, v: string)
    requires OpeningKey(k) && Clean(v)
    ensures Feed(st, k + ": " + v) == Reader(Trimmed(k), [v], Close(st).out)
  {
    var line := k + ": " + v;
    assert line[0] == k[0] && line[|line| - 1] == v[|v| - 1];
    TrimFixed(line, IsSpace);
    assert line == k + [':'] + (" " + v);
    FindAt(k, ':', " " + v);
    assert line[..|k|] == k && line[|k| + 1..] == " " + v;
    OpeningTrimmed(k);
    TrimLeftPad(" ", v, IsSpace);
    TrimFixed(v, IsSpace);
  }

  lemma FeedKeyLine(st: Reader, k: string, pad: string)
    requires OpeningKey(k) && (pad == "" || pad == " ")
    ensures Feed(st, k + ":" + pad) == Reader(Trimmed(k), [], Close(st).out)
  {
    var line := k + ":" + pad;
    assert line[0] == k[0];
    var bare := k + ":";
    TrimFixed(bare, IsSpace);
    assert Trimmed(line) == bare by {
      assert line[|line| - 1] == if pad == "" then ':' else ' ';
      if pad == " " { assert line[..|line| - 1] == bare; }
      else { assert line == bare; }
    }
    assert bare == k + [':'] + "";
    FindAt(k, ':', "");
    assert bare[..|k|] == k && bare[|k| + 1..] == "";
    OpeningTrimmed(k);
  }

  /** What an indented line adds to the open entry; a lone mark stands for a paragraph break. */
  function Marked(v: string): string {
    if v == EMPTY_LINE_MARK then "" else v
  }

  lemma FeedIndentedLine(st: Reader, v: string)
    requires st.key != "" && Clean(v)
    ensures Feed(st, "  " + v) == st.(values := st.values + [Marked(v)])
  {
    TrimLeftPad("  ", v, IsSpace);
    TrimFixed(v, IsSpace);
  }

  function MarkedAll(vs: seq<string>): seq<string> {
    if vs == [] then [] else [Marked(vs[0])] + MarkedAll(vs[1..])
  }

  lemma {:induction false} MarkedSame(vs: seq<string>)
    ensures MarkedAll(vs) == vs <==> EMPTY_LINE_MARK !in vs
  {
    if vs != [] {
      MarkedSame(vs[1..]);
      assert vs == [vs[0]] + vs[1..];
      assert MarkedAll(vs)[0] == Marked(vs[0]) && MarkedAll(vs)[1..] == MarkedAll(vs[1..]);
    }
  }

  lemma {:induction false} FeedIndented(st: Reader, vs: seq<string>)
    requires st.key != "" && forall v :: v in vs ==> Clean(v)
    ensures FeedAll(st, Indented(vs)) == Reader(st.key, st.values + MarkedAll(vs), st.out)
    decreases |vs|
  {
    if vs == [] {
      assert st.values + [] == st.values;
    } else {
      var v, rest := vs[0], vs[1..];
      assert Clean(v);
      FeedIndentedLine(st, v);
      var st' := Reader(st.key, st.values + [Marked(v)], st.out);
      FeedIndented(st', rest);
      Regroup(st.values, Marked(v), MarkedAll(rest));
      FeedCons(st, "  " + v, Indented(rest));
    }
  }

  lemma FeedCons(st: Reader, line: string, rest: seq<string>)
    ensures FeedAll(st, [line] + rest) == FeedAll(Feed(st, line), rest)
  {
    assert ([line] + rest)[1..] == rest;
  }

  lemma FeedItem(st: Reader, e: Item)
    requires GoodItem(e)
    ensures FeedAll(st, ItemLines(e)) == Reader(e.key, e.values, Close(st).out)
  {
    OpeningTrimmed(e.key);
    if |e.values| == 1 {
      assert Clean(e.values[0]);
      FeedValueLine(st, e.key, e.values[0]);
      assert ItemLines(e)[1..] == [];
      assert FeedAll(Feed(st, ItemLines(e)[0]), []) == Feed(st, ItemLines(e)[0]);
    } else {
      FeedKeyLine(st, e.key, "");
      assert e.key + ":" + "" == e.key + ":";
      assert ItemLines(e)[0] == e.key + ":" && ItemLines(e)[1..] == Indented(e.values);
      FeedIndented(Reader(e.key, [], Close(st).out), e.values);
      MarkedSame(e.values);
      assert [] + e.values == e.values;
    }
  }

  lemma {:induction false} FeedItems(st: Reader, es: seq<Item>)
    requires forall e :: e in es ==> GoodItem(e)
    ensures Close(FeedAll(st, AllLines(es))).out == Close(st).out + AllReported(es)
    decreases |es|
  {
    if es == [] {
      assert Close(st).out + [] == Close(st).out;
    } else {
      assert GoodItem(es[0]);
      FeedItem(st, es[0]);
      var st' := Reader(es[0].key, es[0].values, Close(st).out);
      FeedAppend(st, ItemLines(es[0]), AllLines(es[1..]));
      FeedItems(st', es[1..]);
    }
  }

  lemma PaddedIsLine(pad: string, v: string)
    requires v == "" || Clean(v)
    requires OneLine(pad)
    ensures OneLine(pad + v)
  {
  }

  lemma {:induction false} IndentedAreLines(vs: seq<string>)
    requires forall v :: v in vs ==> v == "" || Clean(v)
    ensures forall l :: l in Indented(vs) ==> OneLine(l)
  {
    if vs != [] {
      PaddedIsLine("  ", vs[0]);
      IndentedAreLines(vs[1..]);
    }
  }

  lemma ItemIsLines(e: Item)
    requires OneLine(e.key) && forall v :: v in e.values ==> v == "" || Clean(v)
    ensures forall l :: l in ItemLines(e) ==> OneLine(l)
  {
    if |e.values| == 1 {
      PaddedIsLine(e.key + ": ", e.values[0]);
    } else {
      IndentedAreLines(e.values);
    }
  }

  lemma {:induction false} ItemsAreLines(es: seq<Item>)
    requires forall e :: e in es ==> GoodItem(e)
    ensures forall l :: l in AllLines(es) ==> OneLine(l)
  {
    if es != [] {
      assert GoodItem(es[0]);
      ItemIsLines(es[0]);
      ItemsAreLines(es[1..]);
    }
  }

  lemma ReadPrinted(ls: seq<string>)
    requires forall l :: l in ls ==> OneLine(l)
    ensures ReadFile(Unlines(ls)) == Close(FeedAll(START, ls)).out
  {
    UnlinesHasNoReturn(ls);
    WithoutFixed(Unlines(ls), '\r');
    forall l | l in ls ensures IsLine(l) {
      assert OneLine(l);
    }
    LinesUnlines(ls);
  }

  /** Reading a printed file reports exactly the printed entries, in order. */
  lemma ItemsRoundTrip(es: seq<Item>)
    requires forall e :: e in es ==> GoodItem(e)
    ensures ReadFile(Unlines(AllLines(es))) == AllReported(es)
  {
    ItemsAreLines(es);
    ReadPrinted(AllLines(es));
    FeedItems(START, es);
    assert Close(START).out == [] && [] + AllReported(es) == AllReported(es);
  }

  // ---- what the reader can report at all --------------------------------------------------

  predicate MaybeClean(v: string) {
    v == "" || Clean(v)
  }

  /** The key of an attribute is in lower case, without colon, line end or stray blanks, and never
      empty; it has values, and they carry no stray blanks either. */
  predicate GoodEvent(ev: Event) {
    ev.Attribute? ==> PlainKey(ev.key) && ev.values != [] && forall v :: v in ev.values ==> MaybeClean(v)
  }

  ghost predicate GoodReader(st: Reader) {
    && (st.key != "" ==> PlainKey(st.key))
    && (forall v :: v in st.values ==> MaybeClean(v))
    && (forall ev :: ev in st.out ==> GoodEvent(ev))
  }

  lemma TrimmedIsClean(s: string)
    requires OneLine(s)
    ensures MaybeClean(Trimmed(s))
    ensures s != "" && !IsSpace(s[0]) ==> Trimmed(s) != "" && Trimmed(s)[0] == s[0]
  {
    var left, right := TrimSplit(s, IsSpace);
    var t := Trimmed(s);
    forall i | 0 <= i < |t| ensures t[i] != '\n' && t[i] != '\r' {
      assert t[i] == s[|left| + i];
    }
    if s != "" && !IsSpace(s[0]) {
      assert TrimLeft(s, IsSpace) == s;
      var pad := TrimRightPrefix(s, IsSpace);
      assert s[0] !in pad && s[0] in s;
      assert s == t + pad;
    }
  }

  lemma CloseKeepsGood(st: Reader)
    requires GoodReader(st)
    ensures GoodReader(Close(st))
  {
  }

  lemma {:induction false} LowerAt(s: string, i: nat)
    requires i < |s|
    ensures ToLower(s)[i] == ToLowerChar(s[i])
  {
    if i > 0 {
      LowerAt(s[1..], i - 1);
    }
  }

  lemma LoweredKey(k: string)
    requires k != "" && !IsSpace(k[0]) && ':' !in k && OneLine(k)
    ensures PlainKey(ToLower(Trimmed(k)))
  {
    TrimmedIsClean(k);
    var left, right := TrimSplit(k, IsSpace);
    var t := Trimmed(k);
    var l := ToLower(t);
    forall i | 0 <= i < |t|
      ensures t[i] in k && l[i] == ToLowerChar(t[i]) && ToLowerChar(l[i]) == l[i]
      ensures l[i] != ':' && l[i] != '\n' && l[i] != '\r' && (IsSpace(l[i]) <==> IsSpace(t[i]))
    {
      LowerAt(t, i);
      assert t[i] == k[|left| + i];
    }
    LowerChars(l);
  }

  /** The comment in the source holds: a matching line always yields a key. */
  lemma OpenKeepsGood(st: Reader, line: string)
    requires GoodReader(st) && OneLine(line) && IsTrim(line, IsSpace)
    ensures GoodReader(OpenEntry(st, line))
    ensures 0 < Find(line, ':') < |line| ==> OpenEntry(st, line).key != ""
  {
    if 0 < Find(line, ':') < |line| {
      OpenedParts(line);
    }
  }

  lemma OpenedParts(line: string)
    requires OneLine(line) && IsTrim(line, IsSpace) && 0 < Find(line, ':') < |line|
    ensures PlainKey(ToLower(Trimmed(line[..Find(line, ':')])))
    ensures MaybeClean(Trimmed(line[Find(line, ':') + 1..]))
  {
    FindFirst(line, ':');
    TrimmedIsClean(line[Find(line, ':') + 1..]);
    LoweredKey(line[..Find(line, ':')]);
  }

  lemma FeedKeepsGood(st: Reader, line: string)
    requires GoodReader(st) && OneLine(line)
    ensures GoodReader(Feed(st, line))
  {
    TrimmedIsClean(line);
    CloseKeepsGood(st);
    OpenKeepsGood(Close(st), Trimmed(line));
  }

  lemma {:induction false} FeedAllKeepsGood(st: Reader, lines: seq<string>)
    requires GoodReader(st) && forall l :: l in lines ==> OneLine(l)
    ensures GoodReader(FeedAll(st, lines))
    decreases |lines|
  {
    if lines != [] {
      FeedKeepsGood(st, lines[0]);
      FeedAllKeepsGood(Feed(st, lines[0]), lines[1..]);
    }
  }

  lemma FirstLineIsOne(text: string)
    requires '\r' !in text
    ensures OneLine(FirstLine(text))
  {
    FindFirst(text, '\n');
  }

  lemma {:induction false} LinesAreSingle(text: string)
    requires '\r' !in text
    ensures forall l :: l in Lines(text) ==> OneLine(l)
    decreases |text|
  {
    if text != "" {
      FirstLineIsOne(text);
      LinesAreSingle(AfterLine(text));
    }
  }

  /** Whatever the file holds, every attribute reported has a key and values, each value
      either a paragraph break or trimmed text on one line. */
  lemma ReportedIsGood(text: string, ev: Event)
    requires ev in ReadFile(text)
    ensures GoodEvent(ev)
  {
    var lines := Lines(Without(text, '\r'));
    LinesAreSingle(Without(text, '\r'));
    FeedAllKeepsGood(START, lines);
    CloseKeepsGood(FeedAll(START, lines));
  }

  // ---- exactly which values survive -------------------------------------------------------

  lemma {:induction false} OutOnlyGrows(st: Reader, lines: seq<string>)
    ensures st.out <= FeedAll(st, lines).out
    decreases |lines|
  {
    if lines != [] {
      OutOnlyGrows(Feed(st, lines[0]), lines[1..]);
    }
  }

  /** Without an open entry, indented lines report no attribute. */
  lemma {:induction false} KeylessReportsNone(st: Reader, vs: seq<string>)
    requires st.key == ""
    ensures var r := FeedAll(st, Indented(vs));
            r.key == "" && forall ev :: ev in r.out && ev.Attribute? ==> ev in st.out
    decreases |vs|
  {
    if vs != [] {
      var st' := Feed(st, "  " + vs[0]);
      FeedCons(st, "  " + vs[0], Indented(vs[1..]));
      KeylessReportsNone(st', vs[1..]);
    }
  }

  /** A blank value line ends the entry early: what is reported first, and any attribute at all,
      has fewer values. */
  lemma {:induction false} BlankCutsShort(st: Reader, vs: seq<string>)
    requires st.key != "" && st.out == []
    requires (forall v :: v in vs ==> MaybeClean(v)) && "" in vs
    ensures var out := Close(FeedAll(st, Indented(vs))).out;
            out != [] && (out[0].Attribute? ==> |out[0].values| < |st.values| + |vs|)
    ensures forall ev :: ev in Close(FeedAll(st, Indented(vs))).out && ev.Attribute? ==>
              ev.key == st.key && |ev.values| < |st.values| + |vs|
    decreases |vs|
  {
    var v, rest := vs[0], vs[1..];
    assert vs == [v] + rest;
    var st' := Feed(st, "  " + v);
    FeedCons(st, "  " + v, Indented(rest));
    if v == "" {
      assert Trimmed("  " + v) == "" by {
        TrimLeftPad("  ", v, IsSpace);
      }
      assert st' == Close(st);
      OutOnlyGrows(st', Indented(rest));
      assert st'.out[0] == FeedAll(st', Indented(rest)).out[0];
      KeylessReportsNone(st', rest);
    } else {
      assert v in vs;
      FeedIndentedLine(st, v);
      BlankCutsShort(st', rest);
    }
  }

  /** One option survives printing and reading if and only if its values are good: there is
      at least one, each is non-empty trimmed text on one line, and none of several is the
      paragraph mark. */
  lemma ItemRoundTripExactly(e: Item)
    requires GoodKey(e.key)
    ensures ReadFile(Unlines(ItemLines(e))) == [Reported(e)] <==> GoodValues(e.values)
  {
    assert AllLines([e]) == ItemLines(e) by { assert ItemLines(e) + [] == ItemLines(e); }
    if GoodValues(e.values) {
      ItemsRoundTrip([e]);
    }
    var text := Unlines(ItemLines(e));
    if ReadFile(text) == [Reported(e)] {
      assert Reported(e) in ReadFile(text);
      ReportedIsGood(text, Reported(e));
      ItemIsLines(e);
      ReadPrinted(ItemLines(e));
      PrintedReports(e, Reported(e));
    }
  }

  lemma BlankSingle(e: Item)
    requires OpeningKey(e.key) && e.values == [""]
    ensures Close(FeedAll(START, ItemLines(e))).out == [MissingValue(Trimmed(e.key))]
  {
    var line := e.key + ": ";
    FeedKeyLine(START, e.key, " ");
    OpeningTrimmed(e.key);
    assert e.key + ":" + " " == line && line + "" == line;
    FeedCons(START, line, []);
    assert ItemLines(e) == [line] + [];
  }

  lemma SingleReported(e: Item)
    requires OpeningKey(e.key) && |e.values| == 1 && Clean(e.values[0])
    ensures Close(FeedAll(START, ItemLines(e))).out == [Attribute(Trimmed(e.key), e.values)]
  {
    FeedValueLine(START, e.key, e.values[0]);
    OpeningTrimmed(e.key);
    var line := e.key + ": " + e.values[0];
    FeedCons(START, line, []);
    assert ItemLines(e) == [line] + [] && e.values == [e.values[0]];
  }

  lemma OneReported(e: Item, ev: Event)
    requires OpeningKey(e.key) && |e.values| == 1 && MaybeClean(e.values[0])
    requires ev in Close(FeedAll(START, ItemLines(e))).out && ev.Attribute?
    ensures ev.key == Trimmed(e.key) && GoodValues(e.values)
  {
    if e.values[0] == "" {
      assert e.values == [""];
      BlankSingle(e);
    } else {
      SingleReported(e);
    }
  }

  lemma KeyLineOpens(e: Item)
    requires OpeningKey(e.key) && |e.values| > 1
    ensures Trimmed(e.key) != ""
    ensures FeedAll(START, ItemLines(e)) == FeedAll(Reader(Trimmed(e.key), [], []), Indented(e.values))
  {
    FeedKeyLine(START, e.key, "");
    OpeningTrimmed(e.key);
    assert e.key + ":" + "" == e.key + ":";
    assert Close(START).out == [];
    FeedCons(START, e.key + ":", Indented(e.values));
    assert ItemLines(e) == [e.key + ":"] + Indented(e.values);
  }

  lemma SeveralReported(e: Item, ev: Event)
    requires OpeningKey(e.key) && |e.values| > 1 && forall v :: v in e.values ==> MaybeClean(v)
    requires ev in Close(FeedAll(START, ItemLines(e))).out && ev.Attribute?
    ensures ev.key == Trimmed(e.key)
    ensures ev.values == e.values ==> GoodValues(e.values)
  {
    var st := Reader(Trimmed(e.key), [], []);
    KeyLineOpens(e);
    if "" in e.values {
      BlankCutsShort(st, e.values);
    } else {
      assert forall v :: v in e.values ==> Clean(v);
      FeedIndented(st, e.values);
      assert [] + MarkedAll(e.values) == MarkedAll(e.values) != [];
      MarkedSame(e.values);
    }
  }

  /** A printed entry reports no attribute but its own: under the key without the white space at
      its end, and with its own values only if they are good. */
  lemma PrintedReports(e: Item, ev: Event)
    requires OpeningKey(e.key) && e.values != [] && forall v :: v in e.values ==> MaybeClean(v)
    requires ev in Close(FeedAll(START, ItemLines(e))).out && ev.Attribute?
    ensures ev.key == Trimmed(e.key)
    ensures ev.values == e.values ==> GoodValues(e.values)
  {
    if |e.values| > 1 {
      SeveralReported(e, ev);
    } else {
      assert MaybeClean(e.values[0]);
      OneReported(e, ev);
    }
  }
}
