/** How the key sequences of one event are written on a settings line, and read back. */
module KeyText {
  import opened StdHelpers
  import opened Text
  import opened KeyMap

  const COMMA_NAME := "Comma"

  const BUTTON_NAMES: seq<string> :=
    ["A", "B", "X", "Y", "L1", "L2", "L3", "R1", "R2", "R3", "Select", "Start", "Guide"]

  /** AppSettings::gamepadButtonNames, with "" for a sequence that is no single button. */
  function ButtonName(k: KeySeq): string {
    if |k| == 1 && GAMEPAD_A <= k[0] < GAMEPAD_A + |BUTTON_NAMES| then BUTTON_NAMES[k[0] - GAMEPAD_A] else ""
  }

  /** LoadContext::reverse_gamepadButtonNames, with [] for a text that names no button. */
  function ButtonFor(str: string, from: nat := 0): KeySeq
    requires from <= |BUTTON_NAMES|
    decreases |BUTTON_NAMES| - from
  {
    if from == |BUTTON_NAMES| then []
    else if str == "Gamepad" + BUTTON_NAMES[from] then [GAMEPAD_A + from]
    else ButtonFor(str, from + 1)
  }

  lemma ButtonNamesDiffer(i: nat, j: nat)
    requires i < j < |BUTTON_NAMES|
    ensures "Gamepad" + BUTTON_NAMES[i] != "Gamepad" + BUTTON_NAMES[j]
  {
    var a, b := "Gamepad" + BUTTON_NAMES[i], "Gamepad" + BUTTON_NAMES[j];
    assert a[7..] == BUTTON_NAMES[i] && b[7..] == BUTTON_NAMES[j];
    assert BUTTON_NAMES[i][0] != BUTTON_NAMES[j][0] || |BUTTON_NAMES[i]| != |BUTTON_NAMES[j]|
        || BUTTON_NAMES[i][1] != BUTTON_NAMES[j][1];
  }

  lemma ButtonIsClean(i: nat)
    requires i < |BUTTON_NAMES|
    ensures BUTTON_NAMES[i] != "" && IsTrim("Gamepad" + BUTTON_NAMES[i], IsSpace)
    ensures forall c :: c in "Gamepad" + BUTTON_NAMES[i] ==> c != ',' && c != '\n' && c != '\r' && c != 'C'
  {
  }

  lemma {:induction false} ButtonBack(i: nat, from: nat)
    requires from <= i < |BUTTON_NAMES|
    ensures ButtonFor("Gamepad" + BUTTON_NAMES[i], from) == [GAMEPAD_A + i]
    decreases i - from
  {
    if from < i {
      ButtonNamesDiffer(from, i);
      ButtonBack(i, from + 1);
    }
  }

  // ---- commas -----------------------------------------------------------------------------

  /** replace(',', "Comma"). */
  function Escape(t: string): string {
    if t == "" then "" else (if t[0] == ',' then COMMA_NAME else [t[0]]) + Escape(t[1..])
  }

  /** replace("Comma", ","): the occurrences found scanning from the left. */
  function Unescape(t: string): string {
    if t == "" then ""
    else if COMMA_NAME <= t then "," + Unescape(t[|COMMA_NAME|..])
    else [t[0]] + Unescape(t[1..])
  }

  /** t spells out "Comma" nowhere. */
  predicate NoCommaName(t: string) {
    t != "" ==> !(COMMA_NAME <= t) && NoCommaName(t[1..])
  }

  /** What a prefix of the escaped text says about the text itself, as long as no comma can
      be behind it. */
  lemma {:induction false} EscapedPrefix(p: string, t: string)
    requires p <= Escape(t) && 'C' !in p
    ensures p <= t
  {
    if p != "" {
      assert t != "";
      assert p[0] == Escape(t)[0] && p[0] in p;
      assert t[0] != ',';
      assert Escape(t)[1..] == Escape(t[1..]);
      assert p[1..] <= Escape(t[1..]);
      assert p == [p[0]] + p[1..];
      EscapedPrefix(p[1..], t[1..]);
      assert p == [p[0]] + p[1..] && t == [t[0]] + t[1..];
    }
  }

  lemma EscapedName(t: string)
    requires t != "" && t[0] != ',' && COMMA_NAME <= Escape(t)
    ensures COMMA_NAME <= t
  {
    var e := Escape(t);
    assert e[1..] == Escape(t[1..]);
    assert e[0] == t[0] == COMMA_NAME[0];
    assert COMMA_NAME[1..] == "omma";
    assert "omma" <= e[1..];
    EscapedPrefix("omma", t[1..]);
    assert t == [t[0]] + t[1..];
  }

  lemma {:induction false} UnescapeEscape(t: string)
    requires NoCommaName(t)
    ensures Unescape(Escape(t)) == t
  {
    if t != "" {
      UnescapeEscape(t[1..]);
      var e, rest := Escape(t), Escape(t[1..]);
      if t[0] == ',' {
        assert COMMA_NAME <= e && e[|COMMA_NAME|..] == rest;
      } else {
        assert e[1..] == rest;
        if COMMA_NAME <= e {
          EscapedName(t);
        }
      }
      assert t == [t[0]] + t[1..];
    }
  }

  lemma {:induction false} EscapeChars(t: string)
    ensures ',' !in Escape(t)
    ensures OneLine(t) ==> OneLine(Escape(t))
  {
    if t != "" {
      EscapeChars(t[1..]);
    }
  }

  lemma {:induction false} EscapeEnds(t: string)
    requires t != ""
    ensures Escape(t) != ""
    ensures Escape(t)[0] == if t[0] == ',' then 'C' else t[0]
    ensures Escape(t)[|Escape(t)| - 1] == if t[|t| - 1] == ',' then 'a' else t[|t| - 1]
  {
    if |t| > 1 {
      EscapeEnds(t[1..]);
    } else {
      assert Escape(t[1..]) == "";
    }
  }

  // ---- one key sequence -------------------------------------------------------------------

  /** QKeySequence::toString and the constructor from a string ([] for what it cannot read). */
  datatype Conversion = Conversion(toText: KeySeq -> string, fromText: string -> KeySeq)

  function Label(cv: Conversion, k: KeySeq): string {
    if ButtonName(k) != "" then "Gamepad" + ButtonName(k) else Escape(cv.toText(k))
  }

  function ReadLabel(cv: Conversion, part: string): KeySeq {
    var str := Unescape(Trimmed(part));
    if ButtonFor(str) != [] then ButtonFor(str) else cv.fromText(str)
  }

  /** The text of a key sequence: one trimmed line that says "Comma" nowhere, is not the name
      of a gamepad button, and does not read as "none". */
  predicate PlainKeyText(t: string) {
    && t != "" && IsTrim(t, IsSpace) && OneLine(t)
    && NoCommaName(t) && ButtonFor(t) == [] && ToLower(Escape(t)) != "none"
  }

  /** The conversion brings this key sequence back, through an ordinary text; gamepad buttons have
      names of their own. */
  predicate FaithfulAt(cv: Conversion, k: KeySeq) {
    k != [] && ButtonName(k) == "" ==> PlainKeyText(cv.toText(k)) && cv.fromText(cv.toText(k)) == k
  }

  /** It does so for each of these. */
  predicate Faithful(cv: Conversion, ks: seq<KeySeq>) {
    forall k :: k in ks ==> FaithfulAt(cv, k)
  }

  predicate GoodLabel(l: string) {
    l != "" && IsTrim(l, IsSpace) && ',' !in l && OneLine(l) && ToLower(l) != "none"
  }

  lemma {:induction false} UnescapePlain(t: string)
    requires 'C' !in t
    ensures Unescape(t) == t
  {
    if t != "" {
      assert t[0] in t && COMMA_NAME[0] == 'C';
      UnescapePlain(t[1..]);
      assert t == [t[0]] + t[1..];
    }
  }

  lemma ButtonLabelGood(i: nat)
    requires i < |BUTTON_NAMES|
    ensures GoodLabel("Gamepad" + BUTTON_NAMES[i])
  {
    ButtonIsClean(i);
    assert |ToLower("Gamepad" + BUTTON_NAMES[i])| > 4;
  }

  lemma ButtonTextRead(i: nat)
    requires i < |BUTTON_NAMES|
    ensures var l := "Gamepad" + BUTTON_NAMES[i];
      Unescape(Trimmed(l)) == l && ButtonFor(l) == [GAMEPAD_A + i]
  {
    var l := "Gamepad" + BUTTON_NAMES[i];
    ButtonIsClean(i);
    TrimFixed(l, IsSpace);
    UnescapePlain(l);
    ButtonBack(i, 0);
  }

  lemma ButtonRoundTrip(cv: Conversion, k: KeySeq)
    requires ButtonName(k) != ""
    ensures GoodLabel(Label(cv, k)) && ReadLabel(cv, Label(cv, k)) == k
  {
    var i := k[0] - GAMEPAD_A;
    ButtonLabelGood(i);
    ButtonTextRead(i);
  }

  /** The buttons as they are written: by their names, behind one word. */
  lemma ButtonsAsWritten(cv: Conversion)
    ensures Label(cv, [0x100000]) == "GamepadA" && Label(cv, [0x100001]) == "GamepadB"
    ensures Label(cv, [0x100002]) == "GamepadX" && Label(cv, [0x100003]) == "GamepadY"
    ensures Label(cv, [0x100004]) == "GamepadL1" && Label(cv, [0x100007]) == "GamepadR1"
    ensures Label(cv, [0x100005]) == "GamepadL2" && Label(cv, [0x100008]) == "GamepadR2"
    ensures Label(cv, [0x100006]) == "GamepadL3" && Label(cv, [0x100009]) == "GamepadR3"
    ensures Label(cv, [0x10000A]) == "GamepadSelect" && Label(cv, [0x10000B]) == "GamepadStart"
    ensures Label(cv, [0x10000C]) == "GamepadGuide"
  {
  }

  lemma LabelRoundTrip(cv: Conversion, k: KeySeq)
    requires FaithfulAt(cv, k) && k != []
    ensures GoodLabel(Label(cv, k)) && ReadLabel(cv, Label(cv, k)) == k
  {
    var l := Label(cv, k);
    if ButtonName(k) != "" {
      ButtonRoundTrip(cv, k);
    } else {
      var t := cv.toText(k);
      EscapeChars(t);
      EscapeEnds(t);
      TrimFixed(l, IsSpace);
      UnescapeEscape(t);
    }
  }

  // ---- all key sequences of an event ------------------------------------------------------

  const NO_KEYS := "none"

  function Labels(cv: Conversion, ks: seq<KeySeq>): seq<string> {
    if ks == [] then [] else [Label(cv, ks[0])] + Labels(cv, ks[1..])
  }

  /** The value print_keys writes for an event bound to ks. */
  function KeyValue(cv: Conversion, ks: seq<KeySeq>): string {
    if ks == [] then NO_KEYS else Join(Labels(cv, ks), ',')
  }

  function ReadParts(cv: Conversion, parts: seq<string>): seq<KeySeq> {
    if parts == [] then []
    else
      var k := ReadLabel(cv, parts[0]);
      (if parts[0] == "" || k == [] then [] else [k]) + ReadParts(cv, parts[1..])
  }

  /** The key sequences handle_key_attrib finds in a value. */
  function ReadKeys(cv: Conversion, val: string): seq<KeySeq> {
    if ToLower(val) == NO_KEYS then [] else ReadParts(cv, Split(val, ','))
  }

  lemma {:induction false} LabelsGood(cv: Conversion, ks: seq<KeySeq>)
    requires Faithful(cv, ks) && [] !in ks
    ensures |Labels(cv, ks)| == |ks|
    ensures forall l :: l in Labels(cv, ks) ==> GoodLabel(l)
  {
    if ks != [] {
      assert ks[0] in ks;
      LabelRoundTrip(cv, ks[0]);
      LabelsGood(cv, ks[1..]);
    }
  }

  lemma {:induction false} LabelsRead(cv: Conversion, ks: seq<KeySeq>)
    requires Faithful(cv, ks) && [] !in ks
    ensures ReadParts(cv, Labels(cv, ks)) == ks
  {
    if ks != [] {
      var k, rest := ks[0], ks[1..];
      assert ks == [k] + rest;
      LabelRoundTrip(cv, k);
      LabelsRead(cv, rest);
      assert Labels(cv, ks)[1..] == Labels(cv, rest);
    }
  }

  lemma {:induction false} JoinGood(ls: seq<string>)
    requires ls != [] && forall l :: l in ls ==> GoodLabel(l)
    ensures Join(ls, ',') != "" && IsTrim(Join(ls, ','), IsSpace) && OneLine(Join(ls, ','))
    ensures |ls| > 1 ==> ',' in Join(ls, ',')
  {
    assert GoodLabel(ls[0]);
    if |ls| > 1 {
      JoinGood(ls[1..]);
      var rest := Join(ls[1..], ',');
      var j := ls[0] + [','] + rest;
      assert j[|ls[0]|] == ',' && j[|j| - 1] == rest[|rest| - 1];
    }
  }

  lemma {:induction false} LowerKeepsComma(s: string)
    requires ',' in s
    ensures ',' in ToLower(s)
  {
    if s[0] != ',' {
      assert s == [s[0]] + s[1..];
      LowerKeepsComma(s[1..]);
    }
  }

  lemma JoinNotNone(ls: seq<string>)
    requires ls != [] && forall l :: l in ls ==> GoodLabel(l)
    ensures ToLower(Join(ls, ',')) != NO_KEYS
  {
    if |ls| > 1 {
      JoinGood(ls);
      LowerKeepsComma(Join(ls, ','));
    } else {
      assert GoodLabel(ls[0]);
    }
  }

  lemma SplitLabels(ls: seq<string>)
    requires ls != [] && forall l :: l in ls ==> GoodLabel(l)
    ensures Split(Join(ls, ','), ',') == ls
  {
    SplitJoin(ls, ',');
  }

  /** A written value reads back as the same key sequences, in order. */
  lemma KeysRoundTrip(cv: Conversion, ks: seq<KeySeq>)
    requires Faithful(cv, ks) && [] !in ks
    ensures ReadKeys(cv, KeyValue(cv, ks)) == ks
    ensures KeyValue(cv, ks) != "" && IsTrim(KeyValue(cv, ks), IsSpace) && OneLine(KeyValue(cv, ks))
  {
    var ls := Labels(cv, ks);
    LabelsGood(cv, ks);
    LabelsRead(cv, ks);
    if ls != [] {
      JoinGood(ls);
      JoinNotNone(ls);
      SplitLabels(ls);
    }
  }

  /** White space around a label, and empty parts between commas, do not matter; "none" may be
      written in any letters. */
  lemma LooseSyntax(cv: Conversion, before: string, part: string, after: string)
    requires forall c :: c in before + after ==> IsSpace(c)
    ensures ReadLabel(cv, before + part + after) == ReadLabel(cv, part)
    ensures ReadKeys(cv, "None") == ReadKeys(cv, "NONE") == ReadKeys(cv, "none") == []
  {
    TrimPadded(before, part, after, IsSpace);
    assert ToLower("None") == "none" && ToLower("NONE") == "none" && ToLower("none") == "none";
  }

  lemma {:induction false} EmptyPartSkipped(cv: Conversion, a: seq<string>, b: seq<string>)
    ensures ReadParts(cv, a + [""] + b) == ReadParts(cv, a + b)
  {
    if a == [] {
      assert (a + [""] + b)[1..] == b && a + b == b;
    } else {
      assert (a + [""] + b)[1..] == a[1..] + [""] + b && (a + b)[1..] == a[1..] + b;
      EmptyPartSkipped(cv, a[1..], b);
    }
  }

  lemma {:induction false} ReadPartsNotEmpty(cv: Conversion, parts: seq<string>)
    ensures [] !in ReadParts(cv, parts)
  {
    if parts != [] {
      ReadPartsNotEmpty(cv, parts[1..]);
    }
  }

  /** The empty key sequence is the only thing the text cannot carry. */
  lemma KeysRoundTripExactly(cv: Conversion, ks: seq<KeySeq>)
    requires Faithful(cv, ks)
    ensures ReadKeys(cv, KeyValue(cv, ks)) == ks <==> [] !in ks
  {
    if [] !in ks {
      KeysRoundTrip(cv, ks);
    }
    ReadPartsNotEmpty(cv, Split(KeyValue(cv, ks), ','));
  }
}
