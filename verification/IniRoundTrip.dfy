/** What a save followed by a reload gives, exactly. */
module IniRoundTrip {
  import opened Text
  import opened StringOps
  import opened IniText
  import opened Wrappers

  // ---- the value of the saved key -------------------------------------------------------------

  /** The lines after the first one that sets k, commented out or not. */
  function AfterMatch(lines: seq<string>, k: string): seq<string> {
    if lines == [] then [] else if Matches(lines[0], k) then lines[1..] else AfterMatch(lines[1..], k)
  }

  /** The line sets k to v, no more and no less. */
  predicate SetsExactly(line: string, k: string, v: string) {
    Assigned(line) == Some((k, v))
  }

  /** Once Save is through with it, the line sets k to something else than v: it is rewritten
      under a key that has grown, or it is left as it is and sets another value. */
  predicate Spoils(line: string, g: string, k: string, v: string) {
    Matches(line, g) || (Assigns(line, k) && !SetsExactly(line, k, v))
  }

  /** Every line that spoils the value has a line after it that sets exactly v; g is the key
      variable of Save in front of these lines. */
  predicate Healed(lines: seq<string>, g: string, k: string, v: string) {
    forall i :: 0 <= i < |lines| && Spoils(lines[i], GrownKey(lines[..i], g, v), k, v) ==>
      SetLater(lines[i + 1..], k, v)
  }

  predicate SetLater(lines: seq<string>, k: string, v: string) {
    exists j :: 0 <= j < |lines| && SetsExactly(lines[j], k, v)
  }

  /** Nothing in these lines gives k a value other than v in the end. */
  predicate Agree(lines: seq<string>, k: string, v: string) {
    LastValue(lines, k) == None || LastValue(lines, k) == Some(v)
  }

  lemma SetLaterCons(lines: seq<string>, k: string, v: string)
    requires lines != []
    ensures SetLater(lines, k, v) <==> SetsExactly(lines[0], k, v) || SetLater(lines[1..], k, v)
  {
    if j :| 0 <= j < |lines[1..]| && SetsExactly(lines[1..][j], k, v) {
      assert SetsExactly(lines[j + 1], k, v);
    }
    if j :| 0 < j < |lines| && SetsExactly(lines[j], k, v) {
      assert SetsExactly(lines[1..][j - 1], k, v);
    }
  }

  function GrownBy(line: string, g: string, v: string): string {
    if Matches(line, g) then Setting(g, v) else g
  }

  lemma GrownKeyCons(lines: seq<string>, g: string, v: string, i: nat)
    requires 0 < i <= |lines|
    ensures GrownKey(lines[..i], g, v) == GrownKey(lines[1..][..i - 1], GrownBy(lines[0], g, v), v)
  {
    assert lines[..i][1..] == lines[1..][..i - 1];
  }

  /** Peeling the first line off. */
  lemma HealedCons(lines: seq<string>, g: string, k: string, v: string)
    requires lines != []
    ensures Healed(lines, g, k, v) <==>
      && (Spoils(lines[0], g, k, v) ==> SetLater(lines[1..], k, v))
      && Healed(lines[1..], GrownBy(lines[0], g, v), k, v)
  {
    var rest, g' := lines[1..], GrownBy(lines[0], g, v);
    assert lines[..0] == [];
    forall i | 0 <= i < |rest|
      ensures rest[i] == lines[i + 1] && rest[i + 1..] == lines[i + 2..]
      ensures GrownKey(rest[..i], g', v) == GrownKey(lines[..i + 1], g, v)
    {
      GrownKeyCons(lines, g, v, i + 1);
    }
    if Healed(lines, g, k, v) {
      assert Spoils(lines[0], GrownKey(lines[..0], g, v), k, v) ==> SetLater(lines[0 + 1..], k, v);
      forall i | 0 <= i < |rest| && Spoils(rest[i], GrownKey(rest[..i], g', v), k, v)
        ensures SetLater(rest[i + 1..], k, v)
      {
        assert Spoils(lines[i + 1], GrownKey(lines[..i + 1], g, v), k, v);
      }
    }
    if (Spoils(lines[0], g, k, v) ==> SetLater(rest, k, v)) && Healed(rest, g', k, v) {
      forall i | 0 <= i < |lines| && Spoils(lines[i], GrownKey(lines[..i], g, v), k, v)
        ensures SetLater(lines[i + 1..], k, v)
      {
        if i > 0 {
          assert Spoils(rest[i - 1], GrownKey(rest[..i - 1], g', v), k, v);
        }
      }
    }
  }

  /** g is the key variable of Save after at least one line was rewritten. */
  predicate GrownOnce(g: string, k: string, v: string) {
    g == Setting(k, v) || Setting(k, v) + "=" <= g
  }

  lemma GrownHead(g: string, k: string, v: string)
    requires GrownOnce(g, k, v)
    ensures Setting(k, v) + "=" <= g + "="
    ensures GrownOnce(Setting(g, v), k, v)
  {
  }

  /** A line rewritten a second time sets k to something that is not v, before and after. */
  lemma LongerSetting(line: string, k: string, v: string)
    requires AllowedKey(k) && Setting(k, v) + "=" <= line
    ensures Assigns(line, k) && Assigned(line).value.1 != v
  {
    var head := Setting(k, v) + "=";
    SettingAssigns(line, k);
    KeyHead(k);
    assert head[0] == (k + "=")[0];
    TrimKeepsHead(line, head);
    var t := Trim(line, IsBlank);
    assert k + "=" <= t;
    KeyOf(t, k);
    assert |t[|k| + 1..]| > |v|;
  }

  /** A rewritten line sets k to something that is not v, and did not set it to v before. */
  lemma RewrittenSpoils(line: string, g: string, k: string, v: string)
    requires AllowedKey(k) && GrownOnce(g, k, v) && Matches(line, g)
    ensures !SetsExactly(line, k, v)
    ensures Assigns(Setting(g, v), k) && Assigned(Setting(g, v)).value.1 != v
  {
    GrownHead(g, k, v);
    var head := Setting(k, v) + "=";
    assert head <= Setting(g, v);
    LongerSetting(Setting(g, v), k, v);
    if g + "=" <= line {
      assert head <= line;
      LongerSetting(line, k, v);
    } else {
      CommentAssignsNothing(line);
    }
  }

  lemma LastValueHead(x: string, rest: seq<string>, k: string)
    ensures LastValue([x] + rest, k) ==
      if LastValue(rest, k).Some? then LastValue(rest, k)
      else if Assigns(x, k) then Some(Assigned(x).value.1) else None
  {
  }

  /** After rewriting, the lines agree with v exactly if they were healed; they set k to v in the
      end only if some line did, and if some line did they set k to something. */
  lemma {:induction false} RewriteAgrees(lines: seq<string>, g: string, k: string, v: string)
    requires AllowedKey(k) && GrownOnce(g, k, v)
    ensures Agree(Rewrite(lines, g, v), k, v) <==> Healed(lines, g, k, v)
    ensures LastValue(Rewrite(lines, g, v), k) == Some(v) ==> SetLater(lines, k, v)
    ensures SetLater(lines, k, v) ==> LastValue(Rewrite(lines, g, v), k).Some?
    decreases |lines|
  {
    if lines != [] {
      var y := if Matches(lines[0], g) then Setting(g, v) else lines[0];
      var rest, g' := lines[1..], GrownBy(lines[0], g, v);
      GrownHead(g, k, v);
      HealedCons(lines, g, k, v);
      SetLaterCons(lines, k, v);
      RewriteAgrees(rest, g', k, v);
      SpoiledOrSame(lines[0], g, k, v);
      PeeledAgrees(y, Rewrite(rest, g', v), k, v,
                   Spoils(lines[0], g, k, v), SetsExactly(lines[0], k, v), SetLater(rest, k, v));
      assert Rewrite(lines, g, v) == [y] + Rewrite(rest, g', v);
    }
  }

  lemma SpoiledOrSame(x: string, g: string, k: string, v: string)
    requires AllowedKey(k) && GrownOnce(g, k, v)
    ensures var y := if Matches(x, g) then Setting(g, v) else x;
      if Spoils(x, g, k, v) then Assigns(y, k) && Assigned(y).value.1 != v && !SetsExactly(x, k, v)
      else y == x && (Assigns(x, k) ==> SetsExactly(x, k, v))
  {
    if Matches(x, g) {
      RewrittenSpoils(x, g, k, v);
    }
  }

  /** One line y in front of rewritten lines: spoils, exact and later say what was so before. */
  lemma PeeledAgrees(y: string, rest: seq<string>, k: string, v: string, spoils: bool, exact: bool, later: bool)
    requires if spoils then Assigns(y, k) && Assigned(y).value.1 != v && !exact
             else (exact <==> SetsExactly(y, k, v)) && (Assigns(y, k) ==> exact)
    requires LastValue(rest, k) == Some(v) ==> later
    requires later ==> LastValue(rest, k).Some?
    ensures Agree([y] + rest, k, v) <==> (spoils ==> later) && Agree(rest, k, v)
    ensures LastValue([y] + rest, k) == Some(v) ==> exact || later
    ensures exact || later ==> LastValue([y] + rest, k).Some?
  {
    LastValueHead(y, rest, k);
  }

  lemma {:induction false} RewriteFound(lines: seq<string>, k: string, v: string)
    requires AllowedKey(k) && GoodValue(v) && Found(lines, k)
    ensures LastValue(Rewrite(lines, k, v), k) == Some(v) <==> Healed(AfterMatch(lines, k), Setting(k, v), k, v)
    ensures LastValue(Rewrite(lines, k, v), k).Some?
  {
    var x, rest := lines[0], lines[1..];
    if Matches(x, k) {
      RewriteAgrees(rest, Setting(k, v), k, v);
      SettingValue(k, v);
      assert Rewrite(lines, k, v)[1..] == Rewrite(rest, Setting(k, v), v);
    } else {
      FoundCons(lines, k);
      RewriteFound(rest, k, v);
      assert Rewrite(lines, k, v)[1..] == Rewrite(rest, k, v);
    }
  }

  lemma {:induction false} LastValueAppend(lines: seq<string>, l: string, k: string)
    ensures LastValue(lines + [l], k) == if Assigns(l, k) then Some(Assigned(l).value.1) else LastValue(lines, k)
  {
    if lines == [] {
      assert lines + [l] == [l];
    } else {
      assert (lines + [l])[0] == lines[0] && (lines + [l])[1..] == lines[1..] + [l];
      LastValueAppend(lines[1..], l, k);
    }
  }

  /** The value read back for a saved key is the saved one exactly when no line sets the key
      yet, or every line after the first such one that spoils the value is followed by one that
      sets exactly that value. */
  lemma WrittenValueExactly(lines: seq<string>, k: string, v: string)
    requires AllowedKey(k) && GoodValue(v)
    ensures LastValue(Write(lines, k, v), k) == Some(v) <==>
      !Found(lines, k) || Healed(AfterMatch(lines, k), Setting(k, v), k, v)
  {
    if Found(lines, k) {
      RewriteFound(lines, k, v);
    } else {
      SettingValue(k, v);
      LastValueAppend(lines, Setting(k, v), k);
    }
  }

  lemma WrittenOnce(lines: seq<string>, k: string, v: string)
    requires AllowedKey(k) && GoodValue(v) && |lines| <= 1
    ensures LastValue(Write(lines, k, v), k) == Some(v)
  {
    WrittenValueExactly(lines, k, v);
  }

  // ---- from lines to text and back ---------------------------------------------------------------

  predicate PlainLine(l: string) {
    '\n' !in l && '\r' !in l
  }

  ghost predicate PlainLines(lines: seq<string>) {
    forall l :: l in lines ==> PlainLine(l)
  }

  /** The lines Load and Save see in a text. */
  function TextLines(text: string): seq<string> {
    SplitParts(Without(text, '\r'), '\n')
  }

  /** Each line preceded by a line end. */
  function Tail(lines: seq<string>): string {
    if lines == [] then "" else "\n" + lines[0] + Tail(lines[1..])
  }

  lemma {:induction false} JoinTail(acc: string, lines: seq<string>)
    requires acc != ""
    ensures JoinOnto(acc, lines, '\n') == acc + Tail(lines)
    decreases |lines|
  {
    if lines == [] {
      assert acc + "" == acc;
    } else {
      JoinTail(acc + ['\n'] + lines[0], lines[1..]);
      assert acc + ['\n'] + lines[0] + Tail(lines[1..]) == acc + ("\n" + lines[0] + Tail(lines[1..]));
    }
  }

  lemma {:induction false} SplitTail(a: string, lines: seq<string>, k: string)
    requires '\n' !in a && PlainLines(lines)
    ensures LastValue(SplitParts(a + Tail(lines), '\n'), k) == LastValue([a] + lines, k)
    decreases |lines|
  {
    if lines == [] {
      assert a + Tail(lines) == a && [a] + lines == [a];
      FindFirst(a, '\n');
      if a == "" { BlankAssignsNothing(); }
    } else {
      var b, rest := lines[0], lines[1..];
      assert PlainLine(b);
      SplitTail(b, rest, k);
      assert [b] + rest == lines;
      assert a + Tail(lines) == a + ['\n'] + (b + Tail(rest));
      SplitPartsCons(a, '\n', b + Tail(rest));
      LastValueCons(a, SplitParts(b + Tail(rest), '\n'), k);
      LastValueCons(a, lines, k);
    }
  }

  lemma LastValueCons(a: string, rest: seq<string>, k: string)
    ensures LastValue([a] + rest, k) == if LastValue(rest, k).Some? then LastValue(rest, k)
                                        else if Assigns(a, k) then Some(Assigned(a).value.1) else None
  {
    assert ([a] + rest)[1..] == rest;
  }

  lemma BlankAssignsNothing()
    ensures Assigned("") == None
  {
  }

  /** Joining and splitting may lose empty lines at either end, but nothing that is assigned. */
  lemma {:induction false} JoinSplit(lines: seq<string>, k: string)
    requires PlainLines(lines)
    ensures LastValue(SplitParts(JoinOnto("", lines, '\n'), '\n'), k) == LastValue(lines, k)
  {
    if lines != [] {
      var a, rest := lines[0], lines[1..];
      if a == "" {
        BlankAssignsNothing();
        JoinSplit(rest, k);
      } else {
        assert PlainLine(a);
        assert "" + a == a;
        JoinTail(a, rest);
        SplitTail(a, rest, k);
        assert [a] + rest == lines;
      }
    }
  }

  lemma {:induction false} JoinHasNoReturn(acc: string, lines: seq<string>)
    requires PlainLines(lines) && '\r' !in acc
    ensures '\r' !in JoinOnto(acc, lines, '\n')
    decreases |lines|
  {
    if lines != [] {
      assert PlainLine(lines[0]);
      JoinHasNoReturn((if acc == "" then "" else acc + ['\n']) + lines[0], lines[1..]);
    }
  }

  lemma SavedTextReads(lines: seq<string>, k: string)
    requires PlainLines(lines)
    ensures LastValue(TextLines(JoinOnto("", lines, '\n')), k) == LastValue(lines, k)
  {
    JoinHasNoReturn("", lines);
    WithoutFixed(JoinOnto("", lines, '\n'), '\r');
    JoinSplit(lines, k);
  }

  lemma {:induction false} PartsArePlain(s: string)
    requires '\r' !in s
    ensures PlainLines(SplitParts(s, '\n'))
    decreases |s|
  {
    var i := Find(s, '\n');
    FindFirst(s, '\n');
    if i < |s| {
      PartsArePlain(s[i + 1..]);
    }
  }

  lemma {:induction false} RewriteIsPlain(lines: seq<string>, g: string, v: string)
    requires PlainLines(lines) && PlainLine(g) && PlainLine(v)
    ensures PlainLines(Rewrite(lines, g, v))
    decreases |lines|
  {
    if lines != [] {
      assert PlainLine(lines[0]);
      RewriteIsPlain(lines[1..], if Matches(lines[0], g) then Setting(g, v) else g, v);
    }
  }

  lemma {:induction false} WriteAllIsPlain(lines: seq<string>, pending: Config, order: seq<string>)
    requires PlainLines(lines) && forall k :: k in order ==> k in pending
    requires forall k :: k in pending ==> AllowedKey(k) && GoodValue(pending[k])
    ensures PlainLines(WriteAll(lines, pending, order))
  {
    if order != [] {
      var n := |order| - 1;
      WriteAllIsPlain(lines, pending, order[..n]);
      var k := order[n];
      assert AllowedKey(k) && GoodValue(pending[k]);
      assert PlainLine(k);
      RewriteIsPlain(WriteAll(lines, pending, order[..n]), k, pending[k]);
    }
  }

  // ---- the two main results -------------------------------------------------------------------------

  /** The text Save writes. */
  function SavedText(text: string, pending: Config, order: seq<string>): string
    requires forall k :: k in order ==> k in pending
  {
    JoinOnto("", WriteAll(TextLines(text), pending, order), '\n')
  }

  ghost predicate Savable(pending: Config) {
    forall k :: k in pending ==> AllowedKey(k) && GoodValue(pending[k])
  }

  /** What the file gives key k, before anything is saved. */
  function FileValue(text: string, k: string): Option<string> {
    LastValue(TextLines(text), k)
  }

  function FileLines(text: string, k: string): seq<string> {
    RelevantLines(TextLines(text), k)
  }

  lemma SavedFileValue(text: string, pending: Config, order: seq<string>, k: string)
    requires Savable(pending) && AllowedKey(k) && Unique(order) && forall q :: q in order <==> q in pending
    ensures k in pending ==> FileValue(SavedText(text, pending, order), k)
                             == LastValue(Write(FileLines(text, k), k, pending[k]), k)
    ensures k !in pending ==> FileValue(SavedText(text, pending, order), k) == FileValue(text, k)
  {
    var lines := TextLines(text);
    PartsArePlain(Without(text, '\r'));
    WriteAllIsPlain(lines, pending, order);
    var written := WriteAll(lines, pending, order);
    SavedTextReads(written, k);
    RelevantDecide(written, k);
    WriteAllRelevant(lines, pending, order, k);
    RelevantDecide(lines, k);
  }

  /** Saving then loading gives a pending key its pending value if and only if the file had no
      line for it, or every line after the first one that spoils the value is followed by one
      that sets exactly that value. */
  lemma SaveLoadExactly(text: string, pending: Config, order: seq<string>, k: string)
    requires Savable(pending) && k in pending && Unique(order) && forall q :: q in order <==> q in pending
    ensures FileValue(SavedText(text, pending, order), k) == Some(pending[k]) <==>
      || !Found(FileLines(text, k), k)
      || Healed(AfterMatch(FileLines(text, k), k), Setting(k, pending[k]), k, pending[k])
  {
    SavedFileValue(text, pending, order, k);
    WrittenValueExactly(FileLines(text, k), k, pending[k]);
  }

  /** With at most one line for each pending key, every pending value is read back and every
      other key keeps the value the file gave it. */
  lemma SaveLoad(text: string, pending: Config, order: seq<string>, k: string)
    requires Savable(pending) && Unique(order) && forall q :: q in order <==> q in pending
    requires forall q :: q in pending ==> |FileLines(text, q)| <= 1
    requires AllowedKey(k)
    ensures FileValue(SavedText(text, pending, order), k)
            == if k in pending then Some(pending[k]) else FileValue(text, k)
  {
    SavedFileValue(text, pending, order, k);
    if k in pending {
      WrittenOnce(FileLines(text, k), k, pending[k]);
    }
  }

  /** Keys outside the alphabet are never read from any file. */
  lemma {:induction false} OnlyAllowedKeys(lines: seq<string>, k: string)
    requires LastValue(lines, k).Some?
    ensures AllowedKey(k)
  {
    if !LastValue(lines[1..], k).Some? {
      assert Assigns(lines[0], k);
    } else {
      OnlyAllowedKeys(lines[1..], k);
    }
  }

  // ---- which lines assign, and which are left alone ---------------------------------------------------

  const KEY_CHARACTERS := SMALL + CAPITALS + "0123456789_.-"

  lemma SmallLetters(c: char)
    ensures c in SMALL <==> 'a' <= c <= 'z'
  {
    if 'a' <= c <= 'z' {
      assert SMALL[c as int - 97] == c;
    }
  }

  lemma CapitalLetters(c: char)
    ensures c in CAPITALS <==> 'A' <= c <= 'Z'
  {
    if 'A' <= c <= 'Z' {
      assert CAPITALS[c as int - 65] == c;
    }
  }

  lemma OtherCharacters(c: char)
    ensures c in "0123456789_.-" <==> '0' <= c <= '9' || c == '_' || c == '.' || c == '-'
  {
    if '0' <= c <= '9' {
      assert "0123456789_.-"[c as int - 48] == c;
    }
  }

  lemma AllowedAreListed(c: char)
    ensures IsAllowed(c) <==> c in KEY_CHARACTERS
  {
    SmallLetters(c);
    CapitalLetters(c);
    OtherCharacters(c);
    assert c in KEY_CHARACTERS <==> c in SMALL || c in CAPITALS || c in "0123456789_.-";
  }

  /** A setting of k is read as one exactly when k is made of the listed characters. */
  lemma AssignsExactly(k: string, v: string)
    requires GoodValue(v)
    ensures Assigned(k + "=" + v) == Some((k, v)) <==> forall c :: c in k ==> c in KEY_CHARACTERS
  {
    forall c ensures IsAllowed(c) <==> c in KEY_CHARACTERS {
      AllowedAreListed(c);
    }
    if AllowedKey(k) {
      SettingValue(k, v);
    }
  }

  /** Blanks and tabs around a line do not matter. */
  lemma IndentedLine(before: string, line: string, after: string)
    requires forall c :: c in before + after ==> c == ' ' || c == '\t'
    ensures Assigned(before + line + after) == Assigned(line)
  {
    TrimPadded(before, line, after, IsBlank);
  }

  lemma {:induction false} RewriteSpares(lines: seq<string>, g: string, v: string, k: string, i: nat)
    requires Grown(g, k) && i < |lines| && !Matches(lines[i], k)
    ensures |Rewrite(lines, g, v)| == |lines| && Rewrite(lines, g, v)[i] == lines[i]
    decreases |lines|
  {
    if Matches(lines[0], g) {
      GrownMatches(lines[0], g, k);
      SettingMatches(g, v, k);
      RewriteSpares(lines[1..], Setting(g, v), v, k, i - 1);
    } else if i > 0 {
      RewriteSpares(lines[1..], g, v, k, i - 1);
    } else {
      RewriteLength(lines[1..], g, v);
    }
  }

  lemma {:induction false} RewriteLength(lines: seq<string>, g: string, v: string)
    ensures |Rewrite(lines, g, v)| == |lines|
    decreases |lines|
  {
    if lines != [] {
      RewriteLength(lines[1..], if Matches(lines[0], g) then Setting(g, v) else g, v);
    }
  }

  /** A line that neither sets a pending key nor is its commented-out setting, any comment or blank
      line in particular, stays what and where it is; lines are only added at the end, one at most
      for each pending key. */
  lemma {:induction false} OtherLinesStay(lines: seq<string>, pending: Config, order: seq<string>, i: nat)
    requires i < |lines| && forall k :: k in order ==> k in pending && !Matches(lines[i], k)
    ensures var written := WriteAll(lines, pending, order);
      |lines| <= |written| <= |lines| + |order| && written[i] == lines[i]
  {
    if order != [] {
      var n := |order| - 1;
      var k := order[n];
      assert k in order && forall q :: q in order[..n] ==> q in order;
      OtherLinesStay(lines, pending, order[..n], i);
      var before := WriteAll(lines, pending, order[..n]);
      if Found(before, k) {
        RewriteSpares(before, k, pending[k], k, i);
      }
    }
  }

  /** The failing family, in the smallest files: with two lines for a key the second one wins
      over the saved value, and a commented line of the saved setting comes alive. */
  lemma StaleValueExample()
    ensures LastValue(Write(["k=a", "k=b"], "k", "c"), "k") == Some("b")
    ensures LastValue(Write(["k=a", ";k=c=d"], "k", "c"), "k") == Some("c=c")
  {
    LaterLineWins();
    CommentRevived();
  }

  lemma LaterLineWins()
    ensures LastValue(Write(["k=a", "k=b"], "k", "c"), "k") == Some("b")
  {
    var two := ["k=a", "k=b"];
    assert two[0][..2] == "k=" && two[1][..2] == "k=";
    assert Matches(two[0], "k");
    assert Setting("k", "c") == "k=c";
    assert !Matches(two[1], "k=c") by { assert two[1][2] != "k=c="[2]; }
    assert Rewrite(two[1..], "k=c", "c") == [two[1]] + Rewrite(two[1..][1..], "k=c", "c");
    assert Write(two, "k", "c") == ["k=c", "k=b"];
    SettingValue("k", "b");
    assert Setting("k", "b") == "k=b";
  }

  lemma CommentRevived()
    ensures LastValue(Write(["k=a", ";k=c=d"], "k", "c"), "k") == Some("c=c")
  {
    assert Setting("k", "c") == "k=c";
    var revived := ["k=a", ";k=c=d"];
    assert revived[0][..2] == "k=";
    assert Matches(revived[0], "k");
    assert revived[1][..5] == ";k=c=" == ";" + "k=c" + "=";
    assert Setting("k=c", "c") == "k=c=c" == Setting("k", "c=c");
    assert Rewrite(revived[1..], "k=c", "c") == ["k=c=c"];
    assert Write(revived, "k", "c") == ["k=c", "k=c=c"];
    SettingValue("k", "c=c");
  }
}
