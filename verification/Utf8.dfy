/** The UTF-8 codec of Strings.cpp and its cursors. */
module Utf8 {

  type Bytes = seq<bv8>

  const MAX_CODE: bv32 := 0x1FFFFF
  const QUESTION: bv32 := 0x3F

  function Low8(x: bv32): bv8 {
    (x & 0xFF) as bv8
  }

  function Lead2(u: bv32): bv8 { Low8(((u >> 6) & 0xFF) | 0xC0) }
  function Lead3(u: bv32): bv8 { Low8(((u >> 12) & 0xFF) | 0xE0) }
  function Lead4(u: bv32): bv8 { Low8(((u >> 18) & 0xFF) | 0xF0) }
  /** The continuation byte of the six lowest bits. */
  function Cont(u: bv32): bv8 { Low8((u & 0x3F) | 0x80) }

  /** unicode2Chars. 0xFFFF takes four bytes here, not three. */
  function EncodeOne(u: bv32): Bytes {
    if u < 0x80 then [Low8(u)]
    else if u < 0x800 then [Lead2(u), Cont(u)]
    else if u < 0xFFFF then [Lead3(u), Cont(u >> 6), Cont(u)]
    else if u <= MAX_CODE then [Lead4(u), Cont(u >> 12), Cont(u >> 6), Cont(u)]
    else [Low8(QUESTION)]
  }

  function Encode(us: seq<bv32>): Bytes {
    if us == [] then [] else Encode(us[..|us| - 1]) + EncodeOne(us[|us| - 1])
  }

  /** A string read at an index; one past its end it holds the terminating zero. */
  function At(s: Bytes, i: nat): bv8 {
    if i < |s| then s[i] else 0
  }

  /** How many bytes the first byte announces; 0 for an invalid one. */
  function Width(c: bv8): nat {
    if c & 0x80 == 0 then 1
    else if c & 0xE0 == 0xC0 then 2
    else if c & 0xF0 == 0xE0 then 3
    else if c & 0xF8 == 0xF0 then 4
    else 0
  }

  function Join2(b: bv8, c: bv8): bv32 {
    ((b & 0x1F) as bv32 << 6) | (c & 0x3F) as bv32
  }

  function Join3(b: bv8, c: bv8, d: bv8): bv32 {
    ((b & 0x0F) as bv32 << 12) | ((c & 0x3F) as bv32 << 6) | (d & 0x3F) as bv32
  }

  function Join4(b: bv8, c: bv8, d: bv8, e: bv8): bv32 {
    ((b & 0x07) as bv32 << 18) | ((c & 0x3F) as bv32 << 12) | ((d & 0x3F) as bv32 << 6) | (e & 0x3F) as bv32
  }

  /** chars2Unicode: the code point at the cursor, and the cursor after it. */
  function DecodeOne(s: Bytes, i: nat): (bv32, nat) {
    var c := At(s, i);
    match Width(c)
    case 1 => (c as bv32, i + 1)
    case 2 => (Join2(c, At(s, i + 1)), i + 2)
    case 3 => (Join3(c, At(s, i + 1), At(s, i + 2)), i + 3)
    case 4 => (Join4(c, At(s, i + 1), At(s, i + 2), At(s, i + 3)), i + 4)
    case _ => (QUESTION, i + 1)
  }

  function DecodeFrom(s: Bytes, i: nat): seq<bv32>
    decreases |s| - i
  {
    if i >= |s| then [] else [DecodeOne(s, i).0] + DecodeFrom(s, DecodeOne(s, i).1)
  }

  function IsContinuation(b: bv8): bool {
    b & 0xC0 == 0x80
  }

  /** What a code point comes back as. */
  function Clipped(u: bv32): bv32 {
    if u <= MAX_CODE then u else QUESTION
  }

  lemma OneByte(u: bv32)
    requires u < 0x80
    ensures Width(Low8(u)) == 1 && Low8(u) as bv32 == u && !IsContinuation(Low8(u))
  {
  }

  lemma ContIsContinuation(u: bv32)
    ensures IsContinuation(Cont(u))
  {
  }

  lemma LeadWidths(u: bv32)
    ensures u < 0x800 ==> Width(Lead2(u)) == 2 && !IsContinuation(Lead2(u))
    ensures u < 0x10000 ==> Width(Lead3(u)) == 3 && !IsContinuation(Lead3(u))
    ensures u <= MAX_CODE ==> Width(Lead4(u)) == 4 && !IsContinuation(Lead4(u))
  {
  }

  lemma Joined2(u: bv32)
    requires u < 0x800
    ensures Join2(Lead2(u), Cont(u)) == u
  {
  }

  lemma Joined3(u: bv32)
    requires u < 0x10000
    ensures Join3(Lead3(u), Cont(u >> 6), Cont(u)) == u
  {
  }

  lemma Joined4(u: bv32)
    requires u <= MAX_CODE
    ensures Join4(Lead4(u), Cont(u >> 12), Cont(u >> 6), Cont(u)) == u
  {
  }

  // ---- one code point ------------------------------------------------------------------------

  /** The bytes of u stand in s at i. */
  predicate Stands(s: Bytes, i: nat, u: bv32) {
    i + |EncodeOne(u)| <= |s| && forall j :: 0 <= j < |EncodeOne(u)| ==> At(s, i + j) == EncodeOne(u)[j]
  }

  /** Decoded wherever it stands, a code point comes back and the cursor moves past it; only
      its first byte is no continuation byte. */
  lemma DecodeEncodeOne(s: Bytes, i: nat, u: bv32)
    requires Stands(s, i, u)
    ensures DecodeOne(s, i) == (Clipped(u), i + |EncodeOne(u)|)
    ensures !IsContinuation(At(s, i))
    ensures forall j :: i < j < i + |EncodeOne(u)| ==> IsContinuation(At(s, j))
  {
    var e := EncodeOne(u);
    assert At(s, i + 0) == e[0];
    if u < 0x80 {
      OneByte(u);
    } else if u <= MAX_CODE {
      LeadWidths(u);
      ContIsContinuation(u);
      ContIsContinuation(u >> 6);
      ContIsContinuation(u >> 12);
      assert At(s, i + 1) == e[1];
      if u < 0x800 {
        Joined2(u);
      } else if u < 0xFFFF {
        Joined3(u);
        assert At(s, i + 2) == e[2];
      } else {
        Joined4(u);
        assert At(s, i + 2) == e[2] && At(s, i + 3) == e[3];
      }
    } else {
      OneByte(QUESTION);
    }
  }

  // ---- whole texts -----------------------------------------------------------------------------

  /** Where the bytes of the i-th code point start. */
  function Offset(us: seq<bv32>, i: nat): nat
    requires i <= |us|
  {
    |Encode(us[..i])|
  }

  lemma StandsInLonger(s: Bytes, t: Bytes, i: nat, u: bv32)
    requires Stands(s, i, u)
    ensures Stands(s + t, i, u)
  {
    forall j | 0 <= j < |EncodeOne(u)| ensures At(s + t, i + j) == EncodeOne(u)[j] {
      assert At(s, i + j) == EncodeOne(u)[j];
    }
  }

  lemma StandsAtEnd(s: Bytes, u: bv32)
    ensures Stands(s + EncodeOne(u), |s|, u)
  {
  }

  lemma {:induction false} EncodeAt(us: seq<bv32>, i: nat)
    requires i < |us|
    ensures Offset(us, i + 1) == Offset(us, i) + |EncodeOne(us[i])| <= |Encode(us)|
    ensures Stands(Encode(us), Offset(us, i), us[i])
  {
    assert us[..i + 1][..i] == us[..i];
    var init := us[..|us| - 1];
    if i < |us| - 1 {
      EncodeAt(init, i);
      assert init[..i] == us[..i] && init[..i + 1] == us[..i + 1];
      StandsInLonger(Encode(init), EncodeOne(us[|us| - 1]), Offset(us, i), us[i]);
    } else {
      assert us[..i + 1] == us;
      StandsAtEnd(Encode(init), us[i]);
    }
  }

  function ClippedAll(us: seq<bv32>): seq<bv32> {
    if us == [] then [] else [Clipped(us[0])] + ClippedAll(us[1..])
  }

  lemma DecodeStep(s: Bytes, i: nat, u: bv32, next: nat)
    requires Stands(s, i, u) && next == i + |EncodeOne(u)|
    ensures DecodeFrom(s, i) == [Clipped(u)] + DecodeFrom(s, next)
  {
    DecodeEncodeOne(s, i, u);
  }

  lemma ClippedTail(us: seq<bv32>, i: nat)
    requires i < |us|
    ensures ClippedAll(us[i..]) == [Clipped(us[i])] + ClippedAll(us[i + 1..])
  {
    assert us[i..][1..] == us[i + 1..];
  }

  lemma {:induction false} DecodeFromBoundary(us: seq<bv32>, i: nat)
    requires i <= |us|
    ensures DecodeFrom(Encode(us), Offset(us, i)) == ClippedAll(us[i..])
    decreases |us| - i
  {
    if i == |us| {
      assert us[..i] == us;
    } else {
      EncodeAt(us, i);
      DecodeStep(Encode(us), Offset(us, i), us[i], Offset(us, i + 1));
      DecodeFromBoundary(us, i + 1);
      ClippedTail(us, i);
    }
  }

  /** Decoding an encoded text gives it back, with '?' for every number that is too large. */
  lemma DecodeEncode(us: seq<bv32>)
    ensures DecodeFrom(Encode(us), 0) == ClippedAll(us)
  {
    DecodeFromBoundary(us, 0);
    assert us[..0] == [] && us[0..] == us;
  }

  lemma {:induction false} ClippedSame(us: seq<bv32>)
    ensures ClippedAll(us) == us <==> forall u :: u in us ==> u <= MAX_CODE
  {
    if us != [] {
      ClippedSame(us[1..]);
      assert us == [us[0]] + us[1..];
      assert us[0] in us && forall u :: u in us[1..] ==> u in us;
      assert Clipped(us[0]) == us[0] <==> us[0] <= MAX_CODE;
      assert ClippedAll(us)[0] == Clipped(us[0]) && ClippedAll(us)[1..] == ClippedAll(us[1..]);
    }
  }

  /** The round trip is exact for a text if and only if all its code points fit 21 bits. */
  lemma RoundTripExactly(us: seq<bv32>)
    ensures DecodeFrom(Encode(us), 0) == us <==> forall u :: u in us ==> u <= MAX_CODE
  {
    DecodeEncode(us);
    ClippedSame(us);
  }

  // ---- from bytes to code points and back --------------------------------------------------------

  /** The bytes at i are one complete group in the form EncodeOne gives it: the shortest, but for
      0xFFFF, which takes four bytes. */
  predicate Shortest(s: Bytes, i: nat)
    requires i < |s|
  {
    match Width(s[i])
    case 1 => true
    case 2 => i + 2 <= |s| && IsContinuation(s[i + 1]) && s[i] >= 0xC2
    case 3 =>
      && i + 3 <= |s| && IsContinuation(s[i + 1]) && IsContinuation(s[i + 2])
      && (s[i] == 0xE0 ==> s[i + 1] >= 0xA0)
      && !(s[i] == 0xEF && s[i + 1] == 0xBF && s[i + 2] == 0xBF)
    case 4 =>
      && i + 4 <= |s| && IsContinuation(s[i + 1]) && IsContinuation(s[i + 2]) && IsContinuation(s[i + 3])
      && (s[i] == 0xF0 && s[i + 1] < 0x90 ==> s[i + 1] == 0x8F && s[i + 2] == 0xBF && s[i + 3] == 0xBF)
    case _ => false
  }

  /** From i on, one such group after the other. */
  predicate WellFormed(s: Bytes, i: nat)
    decreases |s| - i
  {
    i >= |s| || (Shortest(s, i) && WellFormed(s, i + Width(s[i])))
  }

  function Low6(c: bv8): bv8 { (c & 0x3F) | 0x80 }

  lemma SixBits(c: bv8)
    ensures IsContinuation(c) <==> c == Low6(c)
  {
  }

  lemma Parts2(b: bv8, c: bv8)
    requires Width(b) == 2
    ensures var u := Join2(b, c); u < 0x800 && Lead2(u) == b && Cont(u) == Low6(c) && (u >= 0x80 <==> b >= 0xC2)
  {
  }

  lemma Long3(b: bv8, c: bv8, d: bv8)
    requires Width(b) == 3 && IsContinuation(c) && IsContinuation(d)
    ensures Join3(b, c, d) >= 0x800 <==> (b == 0xE0 ==> c >= 0xA0)
    ensures Join3(b, c, d) < 0xFFFF <==> !(b == 0xEF && c == 0xBF && d == 0xBF)
  {
  }

  lemma Long4(b: bv8, c: bv8, d: bv8, e: bv8)
    requires Width(b) == 4 && IsContinuation(c) && IsContinuation(d) && IsContinuation(e)
    ensures Join4(b, c, d, e) >= 0xFFFF <==> (b == 0xF0 && c < 0x90 ==> c == 0x8F && d == 0xBF && e == 0xBF)
  {
  }

  lemma Written3(u: bv32, b: bv8, c: bv8, d: bv8, c': bv8, d': bv8)
    requires u <= 0xFFFF && Lead3(u) == b && Cont(u >> 6) == c' && Cont(u) == d'
    ensures EncodeOne(u) == [b, c, d] <==> 0x800 <= u < 0xFFFF && c == c' && d == d'
  {
    if 0x800 <= u < 0xFFFF {
      assert EncodeOne(u) == [b, c', d'];
      assert [b, c, d][1] == c && [b, c, d][2] == d;
    } else {
      assert |EncodeOne(u)| != 3;
    }
  }

  lemma Written4(u: bv32, b: bv8, c: bv8, d: bv8, e: bv8, c': bv8, d': bv8, e': bv8)
    requires u <= MAX_CODE && Lead4(u) == b && Cont(u >> 12) == c' && Cont(u >> 6) == d' && Cont(u) == e'
    ensures EncodeOne(u) == [b, c, d, e] <==> 0xFFFF <= u && c == c' && d == d' && e == e'
  {
    if 0xFFFF <= u {
      assert EncodeOne(u) == [b, c', d', e'];
      assert [b, c, d, e][1] == c && [b, c, d, e][2] == d && [b, c, d, e][3] == e;
    } else {
      assert |EncodeOne(u)| < 4;
    }
  }

  lemma Back1(b: bv8)
    requires Width(b) == 1
    ensures EncodeOne(b as bv32) == [b]
  {
  }

  lemma Back2(b: bv8, c: bv8)
    requires Width(b) == 2
    ensures EncodeOne(Join2(b, c)) == [b, c] <==> c == Low6(c) && b >= 0xC2
  {
    Parts2(b, c);
  }

  /** What Join3 makes of three bytes, and what is written of that in three bytes. */
  lemma Rewritten3(b: bv8, c: bv8, d: bv8) returns (u: bv32, c': bv8, d': bv8)
    requires Width(b) == 3
    ensures u == Join3(b, c, d) && c' == Low6(c) && d' == Low6(d)
    ensures u <= 0xFFFF && Lead3(u) == b && Cont(u >> 6) == c' && Cont(u) == d'
  {
    u, c', d' := Join3(b, c, d), Low6(c), Low6(d);
  }

  lemma Back3(b: bv8, c: bv8, d: bv8)
    requires Width(b) == 3
    ensures EncodeOne(Join3(b, c, d)) == [b, c, d] <==>
      c == Low6(c) && d == Low6(d) && 0x800 <= Join3(b, c, d) < 0xFFFF
  {
    var u, c', d' := Rewritten3(b, c, d);
    Written3(u, b, c, d, c', d');
  }

  lemma Rewritten4(b: bv8, c: bv8, d: bv8, e: bv8) returns (u: bv32, c': bv8, d': bv8, e': bv8)
    requires Width(b) == 4
    ensures u == Join4(b, c, d, e) && c' == Low6(c) && d' == Low6(d) && e' == Low6(e)
    ensures u <= MAX_CODE && Lead4(u) == b && Cont(u >> 12) == c' && Cont(u >> 6) == d' && Cont(u) == e'
  {
    u, c', d', e' := Join4(b, c, d, e), Low6(c), Low6(d), Low6(e);
  }

  lemma Back4(b: bv8, c: bv8, d: bv8, e: bv8)
    requires Width(b) == 4
    ensures EncodeOne(Join4(b, c, d, e)) == [b, c, d, e] <==>
      c == Low6(c) && d == Low6(d) && e == Low6(e) && Join4(b, c, d, e) >= 0xFFFF
  {
    var u, c', d', e' := Rewritten4(b, c, d, e);
    Written4(u, b, c, d, e, c', d', e');
  }

  lemma Group2(b: bv8, c: bv8)
    requires Width(b) == 2
    ensures EncodeOne(Join2(b, c)) == [b, c] <==> IsContinuation(c) && b >= 0xC2
  {
    Back2(b, c);
    SixBits(c);
  }

  lemma Group3(b: bv8, c: bv8, d: bv8)
    requires Width(b) == 3
    ensures EncodeOne(Join3(b, c, d)) == [b, c, d] <==>
      && IsContinuation(c) && IsContinuation(d)
      && (b == 0xE0 ==> c >= 0xA0)
      && !(b == 0xEF && c == 0xBF && d == 0xBF)
  {
    Back3(b, c, d);
    SixBits(c);
    SixBits(d);
    if IsContinuation(c) && IsContinuation(d) {
      Long3(b, c, d);
    }
  }

  lemma Group4(b: bv8, c: bv8, d: bv8, e: bv8)
    requires Width(b) == 4
    ensures EncodeOne(Join4(b, c, d, e)) == [b, c, d, e] <==>
      && IsContinuation(c) && IsContinuation(d) && IsContinuation(e)
      && (b == 0xF0 && c < 0x90 ==> c == 0x8F && d == 0xBF && e == 0xBF)
  {
    Back4(b, c, d, e);
    SixBits(c);
    SixBits(d);
    SixBits(e);
    if IsContinuation(c) && IsContinuation(d) && IsContinuation(e) {
      Long4(b, c, d, e);
    }
  }

  /** The first byte of a code point's bytes announces how many there are. */
  lemma EncodedWidth(u: bv32)
    ensures EncodeOne(u) != [] && Width(EncodeOne(u)[0]) == |EncodeOne(u)|
  {
    if u < 0x80 {
      OneByte(u);
    } else if u <= MAX_CODE {
      LeadWidths(u);
    }
  }

  /** A group e that announces its own length begins t exactly when it is the first group of t. */
  lemma FirstGroup(t: Bytes, e: Bytes)
    requires t != [] && e != [] && Width(e[0]) == |e|
    ensures e <= t <==> Width(t[0]) != 0 && Width(t[0]) <= |t| && e == t[..Width(t[0])]
  {
    if e <= t {
      assert e[0] == t[0] && e == t[..|e|];
    }
  }

  lemma GroupBack1(s: Bytes, i: nat)
    requires i < |s| && Width(s[i]) == 1
    ensures EncodeOne(DecodeOne(s, i).0) == s[i..i + 1] <==> Shortest(s, i)
  {
    Back1(s[i]);
    assert s[i..i + 1] == [s[i]];
  }

  lemma GroupBack2(s: Bytes, i: nat)
    requires i + 2 <= |s| && Width(s[i]) == 2
    ensures EncodeOne(DecodeOne(s, i).0) == s[i..i + 2] <==> Shortest(s, i)
  {
    Group2(s[i], s[i + 1]);
    assert s[i..i + 2] == [s[i], s[i + 1]];
  }

  lemma GroupBack3(s: Bytes, i: nat)
    requires i + 3 <= |s| && Width(s[i]) == 3
    ensures EncodeOne(DecodeOne(s, i).0) == s[i..i + 3] <==> Shortest(s, i)
  {
    Group3(s[i], s[i + 1], s[i + 2]);
    assert s[i..i + 3] == [s[i], s[i + 1], s[i + 2]];
  }

  lemma GroupBack4(s: Bytes, i: nat)
    requires i + 4 <= |s| && Width(s[i]) == 4
    ensures EncodeOne(DecodeOne(s, i).0) == s[i..i + 4] <==> Shortest(s, i)
  {
    Group4(s[i], s[i + 1], s[i + 2], s[i + 3]);
    assert s[i..i + 4] == [s[i], s[i + 1], s[i + 2], s[i + 3]];
  }

  /** A complete group comes back exactly when it is in its shortest form. */
  lemma GroupBack(s: Bytes, i: nat)
    requires i < |s| && Width(s[i]) != 0 && i + Width(s[i]) <= |s|
    ensures EncodeOne(DecodeOne(s, i).0) == s[i..i + Width(s[i])] <==> Shortest(s, i)
  {
    match Width(s[i])
    case 1 => GroupBack1(s, i);
    case 2 => GroupBack2(s, i);
    case 3 => GroupBack3(s, i);
    case 4 => GroupBack4(s, i);
  }

  lemma ShortestFits(s: Bytes, i: nat)
    requires i < |s| && Shortest(s, i)
    ensures Width(s[i]) != 0 && i + Width(s[i]) <= |s|
    ensures DecodeOne(s, i).1 == i + Width(s[i])
  {
  }

  lemma FirstBack(s: Bytes, i: nat)
    requires i < |s|
    ensures EncodeOne(DecodeOne(s, i).0) <= s[i..] <==> Shortest(s, i)
  {
    var e, t, w := EncodeOne(DecodeOne(s, i).0), s[i..], Width(s[i]);
    EncodedWidth(DecodeOne(s, i).0);
    FirstGroup(t, e);
    assert t[0] == s[i] && |t| == |s| - i;
    assert e <= t <==> w != 0 && w <= |t| && e == t[..w];
    if w != 0 && i + w <= |s| {
      GroupBack(s, i);
      assert t[..w] == s[i..i + w];
      assert e <= t <==> Shortest(s, i);
    } else {
      assert !(e <= t);
      if Shortest(s, i) {
        ShortestFits(s, i);
      }
    }
  }

  function Flat(us: seq<bv32>, f: bv32 -> Bytes): Bytes {
    if us == [] then [] else Flat(us[..|us| - 1], f) + f(us[|us| - 1])
  }

  lemma {:induction false} FlatCons(u: bv32, us: seq<bv32>, f: bv32 -> Bytes)
    ensures Flat([u] + us, f) == f(u) + Flat(us, f)
  {
    var all := [u] + us;
    if us == [] {
      assert all == [u] && all[..0] == [];
    } else {
      FlatCons(u, us[..|us| - 1], f);
      assert all[..|us|] == [u] + us[..|us| - 1];
      assert Flat(all, f) == Flat(all[..|us|], f) + f(us[|us| - 1]);
    }
  }

  lemma {:induction false} EncodeIsFlat(us: seq<bv32>)
    ensures Encode(us) == Flat(us, EncodeOne)
  {
    if us != [] {
      EncodeIsFlat(us[..|us| - 1]);
    }
  }

  lemma EncodeCons(u: bv32, us: seq<bv32>)
    ensures Encode([u] + us) == EncodeOne(u) + Encode(us)
  {
    EncodeIsFlat([u] + us);
    EncodeIsFlat(us);
    FlatCons(u, us, EncodeOne);
  }

  lemma FirstOff(e: Bytes, rest: Bytes, t: Bytes)
    ensures e + rest == t <==> e <= t && rest == t[|e|..]
  {
    assert (e + rest)[|e|..] == rest;
  }

  lemma {:induction false} EncodeDecodeFrom(s: Bytes, i: nat)
    requires i <= |s|
    ensures Encode(DecodeFrom(s, i)) == s[i..] <==> WellFormed(s, i)
    decreases |s| - i
  {
    if i < |s| {
      var (u, next) := DecodeOne(s, i);
      var e, rest := EncodeOne(u), Encode(DecodeFrom(s, next));
      EncodeCons(u, DecodeFrom(s, next));
      FirstBack(s, i);
      FirstOff(e, rest, s[i..]);
      if Shortest(s, i) {
        ShortestFits(s, i);
        EncodedWidth(u);
        EncodeDecodeFrom(s, next);
        assert s[i..][|e|..] == s[next..];
      }
    }
  }

  /** Bytes come back from decoding and encoding exactly when they are complete groups, each in
      its shortest form (0xFFFF in four bytes). */
  lemma BytesRoundTripExactly(s: Bytes)
    ensures Encode(DecodeFrom(s, 0)) == s <==> WellFormed(s, 0)
  {
    EncodeDecodeFrom(s, 0);
    assert s[0..] == s;
  }

  // ---- bytes that are no text ------------------------------------------------------------------------

  /** A byte that begins no group reads as a question mark and takes its own place only. */
  lemma StrayByte(b: bv8, s: Bytes)
    requires 0x80 <= b <= 0xBF || 0xF8 <= b
    ensures DecodeFrom([b] + s, 0) == [0x3F as bv32] + DecodeFrom(s, 0)
  {
    assert Width(b) == 0;
    assert ([b] + s)[0] == b;
    DecodeShift([b], s, 0);
  }

  lemma {:induction false} DecodeShift(a: Bytes, s: Bytes, i: nat)
    ensures DecodeFrom(a + s, |a| + i) == DecodeFrom(s, i)
    decreases |s| - i
  {
    if i < |s| {
      GroupShift(a, s, i);
      var u, next := DecodeOne(s, i).0, DecodeOne(s, i).1;
      DecodeShift(a, s, next);
      assert DecodeFrom(s, i) == [u] + DecodeFrom(s, next);
      assert DecodeFrom(a + s, |a| + i) == [u] + DecodeFrom(a + s, |a| + next);
    }
  }

  lemma AtShift(a: Bytes, s: Bytes, i: nat)
    ensures At(a + s, |a| + i) == At(s, i)
  {
  }

  lemma GroupShift(a: Bytes, s: Bytes, i: nat)
    ensures DecodeOne(a + s, |a| + i) == (DecodeOne(s, i).0, |a| + DecodeOne(s, i).1)
  {
    AtShift(a, s, i);
    AtShift(a, s, i + 1);
    AtShift(a, s, i + 2);
    AtShift(a, s, i + 3);
    SameGroup(a + s, |a| + i, s, i);
  }

  lemma SameGroup(t: Bytes, k: nat, s: Bytes, i: nat)
    requires At(t, k) == At(s, i) && At(t, k + 1) == At(s, i + 1)
    requires At(t, k + 2) == At(s, i + 2) && At(t, k + 3) == At(s, i + 3)
    ensures DecodeOne(t, k).0 == DecodeOne(s, i).0
    ensures DecodeOne(t, k).1 - k == DecodeOne(s, i).1 - i
  {
  }

  /** Whatever follows a first byte counts as a continuation byte: only its six lowest bits do. */
  lemma SixBitsCount(b: bv8, c: bv8, d: bv8, e: bv8)
    ensures Join2(b, c) == Join2(b, Low6(c))
    ensures Join3(b, c, d) == Join3(b, Low6(c), Low6(d))
    ensures Join4(b, c, d, e) == Join4(b, Low6(c), Low6(d), Low6(e))
  {
  }

  // ---- cursors -----------------------------------------------------------------------------------

  function NextCursor(s: Bytes, c: nat): nat
    decreases |s| - c
  {
    if c >= |s| then c else if IsContinuation(At(s, c + 1)) then NextCursor(s, c + 1) else c + 1
  }

  function PrevCursor(s: Bytes, c: nat): nat {
    if c == 0 then 0 else if IsContinuation(At(s, c - 1)) then PrevCursor(s, c - 1) else c - 1
  }

  function MoveCursor(s: Bytes, c: nat, amount: int): nat
    decreases if amount < 0 then -amount else amount
  {
    if amount > 0 then MoveCursor(s, NextCursor(s, c), amount - 1)
    else if amount < 0 then MoveCursor(s, PrevCursor(s, c), amount + 1)
    else c
  }

  /** On any bytes: the next cursor is the first place behind that holds no continuation byte; past
      the end there is the terminating zero. The previous one is the last such place in front. */
  lemma {:induction false} NextIsFirst(s: Bytes, c: nat)
    requires c < |s|
    ensures c < NextCursor(s, c) <= |s|
    ensures !IsContinuation(At(s, NextCursor(s, c)))
    ensures forall j :: c < j < NextCursor(s, c) ==> IsContinuation(At(s, j))
    decreases |s| - c
  {
    if IsContinuation(At(s, c + 1)) {
      NextIsFirst(s, c + 1);
    }
  }

  /** At the end and past it the cursor stays where it is; at the beginning too. */
  lemma CursorAtEnds(s: Bytes, c: nat)
    ensures c >= |s| ==> NextCursor(s, c) == c
    ensures PrevCursor(s, 0) == 0
  {
  }

  lemma {:induction false} PrevIsLast(s: Bytes, c: nat)
    requires c > 0
    ensures PrevCursor(s, c) < c
    ensures PrevCursor(s, c) == 0 || !IsContinuation(At(s, PrevCursor(s, c)))
    ensures forall j :: PrevCursor(s, c) < j < c ==> IsContinuation(At(s, j))
  {
    if IsContinuation(At(s, c - 1)) && c > 1 {
      PrevIsLast(s, c - 1);
    }
  }

  lemma {:induction false} NextOver(s: Bytes, c: nat, end: nat)
    requires c < end <= |s| && !IsContinuation(At(s, end))
    requires forall j :: c < j < end ==> IsContinuation(At(s, j))
    ensures NextCursor(s, c) == end
    decreases end - c
  {
    if c + 1 < end { NextOver(s, c + 1, end); }
  }

  lemma {:induction false} PrevOver(s: Bytes, start: nat, c: nat)
    requires start < c <= |s| && !IsContinuation(At(s, start))
    requires forall j :: start < j < c ==> IsContinuation(At(s, j))
    ensures PrevCursor(s, c) == start
  {
    if start < c - 1 { PrevOver(s, start, c - 1); }
  }

  /** No boundary holds a continuation byte. */
  lemma BoundaryByte(us: seq<bv32>, i: nat)
    requires i <= |us|
    ensures Offset(us, i) <= |Encode(us)| && !IsContinuation(At(Encode(us), Offset(us, i)))
  {
    if i < |us| {
      EncodeAt(us, i);
      DecodeEncodeOne(Encode(us), Offset(us, i), us[i]);
    } else {
      assert us[..i] == us;
    }
  }

  lemma StepNext(us: seq<bv32>, i: nat)
    requires i < |us|
    ensures NextCursor(Encode(us), Offset(us, i)) == Offset(us, i + 1) == DecodeOne(Encode(us), Offset(us, i)).1
  {
    EncodeAt(us, i);
    DecodeEncodeOne(Encode(us), Offset(us, i), us[i]);
    BoundaryByte(us, i + 1);
    NextOver(Encode(us), Offset(us, i), Offset(us, i + 1));
  }

  lemma StepPrev(us: seq<bv32>, i: nat)
    requires 0 < i <= |us|
    ensures PrevCursor(Encode(us), Offset(us, i)) == Offset(us, i - 1)
  {
    EncodeAt(us, i - 1);
    DecodeEncodeOne(Encode(us), Offset(us, i - 1), us[i - 1]);
    PrevOver(Encode(us), Offset(us, i - 1), Offset(us, i));
  }

  function Clamp(x: int, n: nat): nat {
    if x < 0 then 0 else if x > n then n else x
  }

  /** From a boundary, the cursor steps to the neighbouring boundaries, as the decoder does,
      and stays where it is at either end. */
  lemma StepCursors(us: seq<bv32>, i: nat)
    requires i <= |us|
    ensures NextCursor(Encode(us), Offset(us, i)) == Offset(us, Clamp(i + 1, |us|))
    ensures PrevCursor(Encode(us), Offset(us, i)) == Offset(us, Clamp(i - 1, |us|))
    ensures i < |us| ==> DecodeOne(Encode(us), Offset(us, i)).1 == Offset(us, i + 1)
  {
    if i < |us| {
      StepNext(us, i);
    } else {
      assert us[..i] == us;
    }
    if i > 0 {
      StepPrev(us, i);
    } else {
      assert us[..0] == [];
    }
  }

  lemma {:induction false} MoveForward(us: seq<bv32>, i: nat, n: nat)
    requires i <= |us|
    ensures MoveCursor(Encode(us), Offset(us, i), n) == Offset(us, Clamp(i + n, |us|))
    decreases n
  {
    if n > 0 {
      var bytes, next := Encode(us), Clamp(i + 1, |us|);
      StepCursors(us, i);
      assert MoveCursor(bytes, Offset(us, i), n) == MoveCursor(bytes, Offset(us, next), n - 1);
      MoveForward(us, next, n - 1);
    }
  }

  lemma {:induction false} MoveBackward(us: seq<bv32>, i: nat, n: nat)
    requires i <= |us|
    ensures MoveCursor(Encode(us), Offset(us, i), 0 - n) == Offset(us, Clamp(i - n, |us|))
    decreases n
  {
    if n > 0 {
      StepCursors(us, i);
      MoveBackward(us, Clamp(i - 1, |us|), n - 1);
    }
  }

  /** Moving by an amount moves by that many code points, stopping at the ends. */
  lemma MoveLands(us: seq<bv32>, i: nat, amount: int)
    requires i <= |us|
    ensures MoveCursor(Encode(us), Offset(us, i), amount) == Offset(us, Clamp(i + amount, |us|))
  {
    if amount >= 0 { MoveForward(us, i, amount); } else { MoveBackward(us, i, -amount); }
  }

  lemma {:induction false} OffsetsAscend(us: seq<bv32>, i: nat, j: nat)
    requires i < j <= |us|
    ensures Offset(us, i) < Offset(us, j)
    decreases j - i
  {
    EncodeAt(us, j - 1);
    if i < j - 1 { OffsetsAscend(us, i, j - 1); }
  }

  /** Moving there and back returns to the start exactly when the first move hit no end, or
      started at the end it came back to. */
  lemma MoveThereAndBack(us: seq<bv32>, i: nat, amount: int)
    requires i <= |us|
    ensures MoveCursor(Encode(us), MoveCursor(Encode(us), Offset(us, i), amount), -amount) == Offset(us, i)
            <==> 0 <= i + amount <= |us| || (amount > 0 && i == 0) || (amount < 0 && i == |us|)
  {
    var k := Clamp(i + amount, |us|);
    MoveLands(us, i, amount);
    MoveLands(us, k, -amount);
    var back := Clamp(k - amount, |us|);
    if back < i { OffsetsAscend(us, back, i); }
    if back > i { OffsetsAscend(us, i, back); }
  }

  // ---- the loops -----------------------------------------------------------------------------------

  method UnicodeToUtf8(unicodes: seq<bv32>) returns (result: Bytes)
    ensures result == Encode(unicodes)
  {
    result := [];
    var i := 0;
    while i < |unicodes|
      invariant 0 <= i <= |unicodes|
      invariant result == Encode(unicodes[..i])
    {
      assert unicodes[..i + 1][..i] == unicodes[..i];
      result := result + EncodeOne(unicodes[i]);
      i := i + 1;
    }
    assert unicodes[..i] == unicodes;
  }

  /** On any bytes the cursor advances, so the loop ends. */
  method Utf8ToUnicode(utf8: Bytes) returns (result: seq<bv32>)
    ensures result == DecodeFrom(utf8, 0)
  {
    result := [];
    var position := 0;
    while position < |utf8|
      invariant 0 <= position
      invariant result + DecodeFrom(utf8, position) == DecodeFrom(utf8, 0)
      decreases |utf8| - position
    {
      var (u, next) := DecodeOne(utf8, position);
      result, position := result + [u], next;
    }
  }

  method FindNextCursor(s: Bytes, c: nat) returns (r: nat)
    ensures r == NextCursor(s, c)
  {
    r := c;
    while r < |s|
      invariant c <= r && NextCursor(s, r) == NextCursor(s, c)
      decreases |s| - r
    {
      r := r + 1;
      if !IsContinuation(At(s, r)) {
        return;
      }
    }
  }

  method FindPrevCursor(s: Bytes, c: nat) returns (r: nat)
    ensures r == PrevCursor(s, c)
  {
    r := c;
    while r > 0
      invariant 0 <= r <= c && PrevCursor(s, r) == PrevCursor(s, c)
    {
      r := r - 1;
      if !IsContinuation(At(s, r)) {
        return;
      }
    }
  }

  method Move(s: Bytes, c: nat, amount: int) returns (r: nat)
    ensures r == MoveCursor(s, c, amount)
  {
    r := c;
    if amount > 0 {
      var i := 0;
      while i < amount
        invariant 0 <= i <= amount && MoveCursor(s, r, amount - i) == MoveCursor(s, c, amount)
      {
        r := FindNextCursor(s, r);
        i := i + 1;
      }
    } else if amount < 0 {
      var i := amount;
      while i < 0
        invariant amount <= i <= 0 && MoveCursor(s, r, i) == MoveCursor(s, c, amount)
      {
        r := FindPrevCursor(s, r);
        i := i + 1;
      }
    }
  }
}
