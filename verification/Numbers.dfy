/** Integers and hexadecimal patterns to text and back (Strings.cpp). */
module Numbers {
  import opened Wrappers

  function Pow(b: nat, e: nat): nat {
    if e == 0 then 1 else b * Pow(b, e - 1)
  }

  const DIGITS := "0123456789ABCDEF"

  /** The digits of n in base b, most significant first, at least one. */
  function Digits(n: nat, b: nat): (r: string)
    requires 2 <= b <= 16
    ensures r != ""
  {
    if n < b then [DIGITS[n]]
    else
      DivideSmall(n, b);
      Digits(n / b, b) + [DIGITS[n % b]]
  }

  function Decimal(n: int): string {
    if n < 0 then "-" + Digits(-n, 10) else Digits(n, 10)
  }

  // ---- printing -------------------------------------------------------------------------------

  function LastDigit(m: nat, b: nat): char
    requires 2 <= b <= 16
  {
    DIGITS[m % b]
  }

  /** The digits still to be written. */
  function Remaining(m: nat, b: nat): string
    requires 2 <= b <= 16
  {
    if m == 0 then "" else Digits(m, b)
  }

  lemma DivideSmall(m: nat, b: nat)
    requires 2 <= b
    ensures m < b ==> m / b == 0 && m % b == m
    ensures m >= b ==> 1 <= m / b
    ensures m != 0 ==> 0 <= m / b < m
    ensures 0 <= m % b < b
  {
    if m < b {
      assert m == b * 0 + m;
    } else {
      assert m / b >= b / b;
    }
  }

  lemma LastDigitOf(m: nat, b: nat)
    requires 2 <= b <= 16
    ensures Digits(m, b) == Remaining(m / b, b) + [LastDigit(m, b)]
    ensures m != 0 ==> m / b < m
  {
    DivideSmall(m, b);
    if m < b {
      assert Remaining(0, b) + [DIGITS[m]] == [DIGITS[m]];
    }
  }

  method TakeDigit(m: nat, b: nat) returns (digit: char, rest: nat)
    requires 2 <= b <= 16
    ensures rest == 0 ==> Digits(m, b) == [digit]
    ensures rest != 0 ==> Digits(m, b) == Digits(rest, b) + [digit] && rest < m
  {
    LastDigitOf(m, b);
    digit, rest := DIGITS[m % b], m / b;
  }

  /** The backward-filling loop the printers share: with room for the digits of n before end,
      the index never leaves the buffer. */
  method FillBackward(buffer: array<char>, end: nat, n: nat, b: nat) returns (index: nat)
    requires 2 <= b <= 16 && |Digits(n, b)| <= end <= buffer.Length
    modifies buffer
    ensures index == end - |Digits(n, b)| && buffer[index..end] == Digits(n, b)
  {
    index := end;
    var m, more := n, true;
    while more
      invariant 0 <= index <= end
      invariant more ==> Digits(n, b) == Digits(m, b) + buffer[index..end]
      invariant !more ==> Digits(n, b) == buffer[index..end]
      decreases if more then m + 1 else 0
    {
      var digit, rest := TakeDigit(m, b);
      ghost var was := buffer[index..end];
      index := index - 1;
      buffer[index] := digit;
      assert buffer[index..end] == [digit] + was;
      assert rest != 0 ==> Digits(m, b) + was == Digits(rest, b) + ([digit] + was);
      m, more := rest, rest != 0;
    }
  }

  lemma {:induction false} DecimalFits(n: nat, room: nat)
    requires 1 <= room && n < Pow(10, room)
    ensures 1 <= |Digits(n, 10)| <= room
  {
    if n >= 10 {
      assert Pow(10, 1) == 10 * Pow(10, 0);
      DecimalFits(n / 10, room - 1);
    }
  }

  lemma {:induction false} HexFits(n: nat, room: nat)
    requires 1 <= room && n < Pow(16, room)
    ensures 1 <= |Digits(n, 16)| <= room
  {
    if n >= 16 {
      assert Pow(16, 1) == 16 * Pow(16, 0);
      HexFits(n / 16, room - 1);
    }
  }

  const MAX_INT32: int := 0x7FFF_FFFF
  const MAX_INT64: int := 0x7FFF_FFFF_FFFF_FFFF

  lemma PowersOfTen()
    ensures Pow(10, 10) == 10_000_000_000
    ensures Pow(10, 19) == 10_000_000_000_000_000_000
  {
    assert Pow(10, 5) == 100_000;
    assert Pow(10, 10) == 10_000_000_000;
    assert Pow(10, 15) == 1_000_000_000_000_000;
  }

  /** Strings::ToString for a signed integer: the sign in front of the digits of -n, which the
      most negative integer does not have. */
  method PrintSigned(n: int, size: nat) returns (s: string)
    requires 2 + |Digits(if n < 0 then -n else n, 10)| <= size
    ensures s == Decimal(n)
  {
    var buffer := new char[size];
    buffer[size - 1] := '\0';
    var sign := n < 0;
    var index := FillBackward(buffer, size - 1, if sign then -n else n, 10);
    ghost var digits := buffer[index..size - 1];
    if sign {
      index := index - 1;
      buffer[index] := '-';
      assert buffer[index..size - 1] == "-" + digits;
    }
    return buffer[index..size - 1];
  }

  method ToString32(n: int) returns (s: string)
    requires -MAX_INT32 <= n <= MAX_INT32
    ensures s == Decimal(n)
  {
    PowersOfTen();
    DecimalFits(if n < 0 then -n else n, 10);
    s := PrintSigned(n, 12);
  }

  method ToString64(n: int) returns (s: string)
    requires -MAX_INT64 <= n <= MAX_INT64
    ensures s == Decimal(n)
  {
    PowersOfTen();
    DecimalFits(if n < 0 then -n else n, 19);
    s := PrintSigned(n, 22);
  }

  /** Strings::ToHexa on the 32-bit pattern. */
  method ToHexa(pattern: nat) returns (s: string)
    requires pattern < 0x1_0000_0000
    ensures s == Digits(pattern, 16)
  {
    var buffer := new char[10];
    assert Pow(16, 4) == 0x1_0000 && Pow(16, 8) == 0x1_0000_0000;
    HexFits(pattern, 8);
    var index := FillBackward(buffer, 10, pattern, 16);
    return buffer[index..10];
  }

  // ---- reading --------------------------------------------------------------------------------

  /** c_str() read at an index: a zero follows the text. */
  function At(s: string, i: nat): char {
    if i < |s| then s[i] else '\0'
  }

  predicate IsDecimal(c: char) {
    '0' <= c <= '9'
  }

  /** v & 0xDF for one byte: clears the bit that tells small letters from capitals. */
  function Capital(v: nat): nat {
    if (v / 32) % 2 == 1 then v - 32 else v
  }

  predicate IsHex(c: char) {
    IsDecimal(c) || 0x41 <= Capital(c as int) <= 0x46
  }

  /** What a digit stands for, in either base. */
  function DigitValue(c: char): int {
    if IsDecimal(c) then c as int - 0x30 else Capital(c as int) - 0x37
  }

  /** The number a run of digits spells, read from the left. */
  function Value(t: string, b: nat): int {
    if t == "" then 0 else Value(t[..|t| - 1], b) * b + DigitValue(t[|t| - 1])
  }

  lemma ValueMore(s: string, start: nat, src: nat, b: nat)
    requires start <= src < |s|
    ensures Value(s[start..src + 1], b) == Value(s[start..src], b) * b + DigitValue(s[src])
  {
    assert s[start..src + 1][..src - start] == s[start..src];
  }

  /** The end of the run of digits from i. */
  function RunEnd(s: string, i: nat, digit: char -> bool): nat
    decreases |s| - i
  {
    if i < |s| && digit(s[i]) then RunEnd(s, i + 1, digit) else i
  }

  lemma {:induction false} RunEndAfter(s: string, i: nat, end: nat, digit: char -> bool)
    requires i <= end <= |s| && (forall j :: i <= j < end ==> digit(s[j]))
    requires end < |s| ==> !digit(s[end])
    ensures RunEnd(s, i, digit) == end
    decreases end - i
  {
    if i < end { RunEndAfter(s, i + 1, end, digit); }
  }

  lemma {:induction false} RunEndBounds(s: string, i: nat, digit: char -> bool)
    requires i <= |s|
    ensures i <= RunEnd(s, i, digit) <= |s|
    decreases |s| - i
  {
    if i < |s| && digit(s[i]) { RunEndBounds(s, i + 1, digit); }
  }

  /** What ToInt and ToLong read at index, up to the stop character. */
  function ReadSigned(s: string, index: nat, stop: char): Option<int> {
    if index >= |s| then None
    else
      var negative := s[index] == '-';
      var start := if negative then index + 1 else index;
      RunEndBounds(s, start, IsDecimal);
      var end := RunEnd(s, start, IsDecimal);
      if At(s, end) != stop then None
      else
        var v := Value(s[start..end], 10);
        Some(if negative then -v else v)
  }

  method ToInt(s: string, index: nat, stop: char) returns (r: Option<int>)
    ensures r == ReadSigned(s, index, stop)
  {
    if index >= |s| {
      return None;
    }
    var negative := s[index] == '-';
    var start := if negative then index + 1 else index;
    var src, result := start, 0;
    while IsDecimal(At(s, src))
      invariant start <= src <= |s|
      invariant result == Value(s[start..src], 10)
      invariant RunEnd(s, start, IsDecimal) == RunEnd(s, src, IsDecimal)
      decreases |s| - src
    {
      ValueMore(s, start, src, 10);
      result := result * 10 + (s[src] as int - 0x30);
      src := src + 1;
    }
    if At(s, src) != stop {
      return None;
    }
    return Some(if negative then -result else result);
  }

  /** The hexadecimal digits from start, kept to 32 bits. */
  function ReadHexRun(s: string, start: nat, stop: char): Option<nat>
    requires start <= |s|
  {
    RunEndBounds(s, start, IsHex);
    var end := RunEnd(s, start, IsHex);
    if At(s, end) != stop then None else Some(Value(s[start..end], 16) % 0x1_0000_0000)
  }

  predicate HexPrefix(s: string, index: nat) {
    At(s, index) == '0' && At(s, index + 1) == 'x'
  }

  /** What HexToInt reads: an optional "0x", then hexadecimal digits. */
  function ReadHex(s: string, index: nat, stop: char): Option<nat> {
    if index >= |s| then None else ReadHexRun(s, if HexPrefix(s, index) then index + 2 else index, stop)
  }

  method HexToInt(s: string, index: nat, stop: char) returns (r: Option<nat>)
    ensures r == ReadHex(s, index, stop)
  {
    if index >= |s| {
      return None;
    }
    var start := index;
    if s[index] != '\0' && At(s, index + 1) != '\0' {
      if s[index] == '0' && At(s, index + 1) == 'x' {
        start := index + 2;
      }
    }
    r := HexDigits(s, start, stop);
  }

  method HexDigits(s: string, start: nat, stop: char) returns (r: Option<nat>)
    requires start <= |s|
    ensures r == ReadHexRun(s, start, stop)
  {
    var src: nat, result: nat := start, 0;
    while IsHex(At(s, src))
      invariant start <= src <= |s|
      invariant result == Value(s[start..src], 16) % 0x1_0000_0000
      invariant RunEnd(s, start, IsHex) == RunEnd(s, src, IsHex)
      decreases |s| - src
    {
      ValueMore(s, start, src, 16);
      ShiftWraps(Value(s[start..src], 16), DigitValue(s[src]));
      result := (result * 16 + DigitValue(s[src])) % 0x1_0000_0000;
      src := src + 1;
    }
    r := if At(s, src) != stop then None else Some(result);
  }

  lemma ShiftWraps(v: int, d: int)
    ensures ((v % 0x1_0000_0000) * 16 + d) % 0x1_0000_0000 == (v * 16 + d) % 0x1_0000_0000
  {
    var q := v / 0x1_0000_0000;
    assert v * 16 + d == (v % 0x1_0000_0000) * 16 + d + 0x1_0000_0000 * (q * 16);
  }

  // ---- there and back -------------------------------------------------------------------------

  lemma DigitBack(d: nat)
    requires d < 16
    ensures IsHex(DIGITS[d]) && DigitValue(DIGITS[d]) == d
    ensures d < 10 ==> IsDecimal(DIGITS[d])
  {
  }

  lemma ValueSnoc(d: string, c: char, b: nat)
    ensures Value(d + [c], b) == Value(d, b) * b + DigitValue(c)
  {
    assert (d + [c])[..|d|] == d;
  }

  /** The last digit and those in front of it. */
  lemma LastDigitBack(m: nat, b: nat) returns (c: char)
    requires 2 <= b <= 16
    ensures Digits(m, b) == Remaining(m / b, b) + [c]
    ensures IsHex(c) && DigitValue(c) == m % b && (b <= 10 ==> IsDecimal(c))
  {
    DivideSmall(m, b);
    LastDigitOf(m, b);
    DigitBack(m % b);
    c := LastDigit(m, b);
  }

  lemma {:induction false} DigitsBack10(n: nat)
    ensures Value(Digits(n, 10), 10) == n
    ensures forall c :: c in Digits(n, 10) ==> IsDecimal(c)
  {
    var c := LastDigitBack(n, 10);
    ValueSnoc(Remaining(n / 10, 10), c, 10);
    if n >= 10 {
      DigitsBack10(n / 10);
    }
  }

  lemma {:induction false} DigitsBack16(n: nat)
    ensures Value(Digits(n, 16), 16) == n
    ensures forall c :: c in Digits(n, 16) ==> IsHex(c)
  {
    var c := LastDigitBack(n, 16);
    ValueSnoc(Remaining(n / 16, 16), c, 16);
    if n >= 16 {
      DigitsBack16(n / 16);
    }
  }

  /** What follows a printed number for its reader to stop there: the stop character, or the
      end of the text if that is what it stops at. */
  predicate StopsAt(rest: string, stop: char) {
    if rest == "" then stop == '\0' else rest[0] == stop
  }

  lemma RunOfDigits(pre: string, d: string, rest: string, digit: char -> bool)
    requires forall c :: c in d ==> digit(c)
    requires rest != "" ==> !digit(rest[0])
    ensures var s := pre + d + rest;
            && RunEnd(s, |pre|, digit) == |pre| + |d|
            && s[|pre|..|pre| + |d|] == d
  {
    var s := pre + d + rest;
    forall j | |pre| <= j < |pre| + |d| ensures digit(s[j]) {
      assert s[j] == d[j - |pre|];
    }
    assert |rest| > 0 ==> s[|pre| + |d|] == rest[0];
    RunEndAfter(s, |pre|, |pre| + |d|, digit);
  }

  lemma UnsignedRoundTrip(pre: string, n: nat, rest: string, stop: char)
    requires StopsAt(rest, stop) && !IsDecimal(stop)
    ensures ReadSigned(pre + Digits(n, 10) + rest, |pre|, stop) == Some(n)
  {
    var d := Digits(n, 10);
    var s := pre + d + rest;
    DigitsBack10(n);
    RunOfDigits(pre, d, rest, IsDecimal);
    assert s[|pre|] == d[0] && d[0] in d;
    assert At(s, |pre| + |d|) == stop;
  }

  lemma NegativeRoundTrip(pre: string, n: nat, rest: string, stop: char)
    requires StopsAt(rest, stop) && !IsDecimal(stop)
    ensures ReadSigned(pre + ("-" + Digits(n, 10)) + rest, |pre|, stop) == Some(0 - n)
  {
    var d := Digits(n, 10);
    var s := pre + ("-" + d) + rest;
    assert s == (pre + "-") + d + rest;
    DigitsBack10(n);
    RunOfDigits(pre + "-", d, rest, IsDecimal);
    assert s[|pre|] == '-';
    assert At(s, |pre| + 1 + |d|) == stop;
  }

  /** Reading inverts printing, wherever the number stands, for every integer. */
  lemma SignedRoundTrip(pre: string, n: int, rest: string, stop: char)
    requires StopsAt(rest, stop) && !IsDecimal(stop)
    ensures ReadSigned(pre + Decimal(n) + rest, |pre|, stop) == Some(n)
  {
    if n >= 0 {
      UnsignedRoundTrip(pre, n, rest, stop);
    } else {
      NegativeRoundTrip(pre, -n, rest, stop);
    }
  }

  /** A printed pattern does not look like the start of "0x". */
  lemma NoHexPrefix(pre: string, pattern: nat, rest: string, stop: char)
    requires StopsAt(rest, stop) && (pattern != 0 || stop != 'x')
    ensures var s := pre + Digits(pattern, 16) + rest;
            !HexPrefix(s, |pre|)
  {
    var d := Digits(pattern, 16);
    var s := pre + d + rest;
    FirstHexDigit(pattern);
    assert s[|pre|] == d[0];
    if pattern == 0 {
      assert At(s, |pre| + 1) == if rest == "" then '\0' else rest[0];
    }
  }

  lemma Fits32(n: nat)
    requires n < 0x1_0000_0000
    ensures n % 0x1_0000_0000 == n
  {
  }

  lemma HexRunValue(pre: string, d: string, rest: string, stop: char)
    requires StopsAt(rest, stop) && !IsHex(stop) && forall c :: c in d ==> IsHex(c)
    requires 0 <= Value(d, 16)
    ensures ReadHexRun(pre + d + rest, |pre|, stop) == Some(Value(d, 16) % 0x1_0000_0000)
  {
    RunOfDigits(pre, d, rest, IsHex);
    assert At(pre + d + rest, |pre| + |d|) == stop;
  }

  /** What follows a printed "0" that is read as "0x": hexadecimal digits that come to nothing
      in 32 bits, and another 'x' to stop at. */
  predicate ZeroAgain(rest: string) {
    rest != "" &&
    var end := RunEnd(rest, 1, IsHex);
    1 <= end < |rest| && rest[end] == 'x' && Value(rest[1..end], 16) % 0x1_0000_0000 == 0
  }

  /** The hexadecimal pattern comes back too, except that a lone "0" in front of a stop 'x' looks
      like the start of "0x": it comes back exactly when what follows reads as zero again. */
  lemma HexRoundTrip(pre: string, pattern: nat, rest: string, stop: char)
    requires pattern < 0x1_0000_0000 && StopsAt(rest, stop) && !IsHex(stop)
    ensures ReadHex(pre + Digits(pattern, 16) + rest, |pre|, stop) == Some(pattern) <==>
      pattern != 0 || stop != 'x' || ZeroAgain(rest)
  {
    if pattern != 0 || stop != 'x' {
      DigitsBack16(pattern);
      NoHexPrefix(pre, pattern, rest, stop);
      HexRunValue(pre, Digits(pattern, 16), rest, stop);
      Fits32(pattern);
    } else {
      PrefixedZero(pre, rest);
    }
  }

  lemma {:induction false} RunEndShift(a: string, b: string, i: nat, digit: char -> bool)
    requires i <= |b|
    ensures RunEnd(a + b, |a| + i, digit) == |a| + RunEnd(b, i, digit)
    decreases |b| - i
  {
    if i < |b| {
      RunEndShift(a, b, i + 1, digit);
    }
  }

  lemma PrefixedZero(pre: string, rest: string)
    requires StopsAt(rest, 'x')
    ensures ReadHex(pre + "0" + rest, |pre|, 'x') == Some(0) <==> ZeroAgain(rest)
  {
    var front := pre + "0";
    var s := front + rest;
    assert HexPrefix(s, |pre|);
    RunEndShift(front, rest, 1, IsHex);
    RunEndBounds(rest, 1, IsHex);
    var end := RunEnd(rest, 1, IsHex);
    assert s[|front| + 1..|front| + end] == rest[1..end];
    assert At(s, |front| + end) == if end < |rest| then rest[end] else '\0';
  }

  /** Behind the prefix "0x" every number reads back, kept to its 32 lowest bits. */
  lemma PrefixedHex(pre: string, n: nat, rest: string, stop: char)
    requires StopsAt(rest, stop) && !IsHex(stop)
    ensures ReadHex(pre + "0x" + Digits(n, 16) + rest, |pre|, stop) == Some(n % 0x1_0000_0000)
  {
    var s := pre + "0x" + Digits(n, 16) + rest;
    assert s[|pre|] == '0' && s[|pre| + 1] == 'x';
    DigitsBack16(n);
    HexRunValue(pre + "0x", Digits(n, 16), rest, stop);
  }

  /** The hexadecimal digits and their values: capitals are written, small letters read as well. */
  lemma HexLetters(c: char)
    ensures IsHex(c) <==> '0' <= c <= '9' || 'A' <= c <= 'F' || 'a' <= c <= 'f'
    ensures '0' <= c <= '9' ==> DigitValue(c) == c as int - '0' as int
    ensures 'A' <= c <= 'F' ==> DigitValue(c) == c as int - 'A' as int + 10
    ensures 'a' <= c <= 'f' ==> DigitValue(c) == c as int - 'a' as int + 10
  {
  }

  lemma {:induction false} CapitalsWritten(n: nat, b: nat)
    requires 2 <= b <= 16
    ensures forall c :: c in Digits(n, b) ==> '0' <= c <= '9' || 'A' <= c <= 'F'
  {
    DivideSmall(n, b);
    OneDigit(n % b);
    if n >= b {
      CapitalsWritten(n / b, b);
    }
  }

  lemma OneDigit(d: nat)
    requires d < 16
    ensures '0' <= DIGITS[d] <= '9' || 'A' <= DIGITS[d] <= 'F'
  {
  }

  /** t is s with some capitals turned into small letters. */
  ghost predicate SameLetters(s: string, t: string) {
    |s| == |t| && forall i :: 0 <= i < |s| ==>
      t[i] == s[i] || ('A' <= s[i] <= 'F' && t[i] as int == s[i] as int + 32)
  }

  lemma {:induction false} SameRun(s: string, t: string, i: nat)
    requires SameLetters(s, t)
    ensures RunEnd(s, i, IsHex) == RunEnd(t, i, IsHex)
    decreases |s| - i
  {
    if i < |s| {
      HexLetters(s[i]);
      HexLetters(t[i]);
      SameRun(s, t, i + 1);
    }
  }

  lemma {:induction false} SameValue(s: string, t: string)
    requires SameLetters(s, t)
    ensures Value(s, 16) == Value(t, 16)
  {
    if s != "" {
      var n := |s| - 1;
      HexLetters(s[n]);
      HexLetters(t[n]);
      SameValue(s[..n], t[..n]);
    }
  }

  /** The case of the letters does not matter in reading. */
  lemma SmallLettersRead(s: string, t: string, start: nat, stop: char)
    requires SameLetters(s, t) && start <= |s| && !IsHex(stop)
    ensures ReadHexRun(s, start, stop) == ReadHexRun(t, start, stop)
  {
    SameRun(s, t, start);
    RunEndBounds(s, start, IsHex);
    var end := RunEnd(s, start, IsHex);
    assert SameLetters(s[start..end], t[start..end]);
    SameValue(s[start..end], t[start..end]);
    RunEndIsEnd(s, start);
    RunEndIsEnd(t, start);
    if end < |s| {
      HexLetters(s[end]);
      HexLetters(t[end]);
    }
  }

  lemma {:induction false} RunEndIsEnd(s: string, i: nat)
    requires i <= |s|
    ensures RunEnd(s, i, IsHex) < |s| ==> !IsHex(s[RunEnd(s, i, IsHex)])
    decreases |s| - i
  {
    if i < |s| && IsHex(s[i]) {
      RunEndIsEnd(s, i + 1);
    }
  }

  /** Any run of decimal digits is read, an empty one as zero, with or without a minus sign; and
      nothing is read exactly when something else than the stop character follows. */
  lemma ReadsAnyRun(pre: string, minus: bool, d: string, rest: string, stop: char)
    requires forall c :: c in d ==> IsDecimal(c)
    requires rest != "" ==> !IsDecimal(rest[0])
    requires !minus && d == "" ==> rest != "" && rest[0] != '-'
    requires !IsDecimal(stop)
    ensures ReadSigned(pre + (if minus then "-" else "") + d + rest, |pre|, stop) ==
      if StopsAt(rest, stop) then Some(if minus then -Value(d, 10) else Value(d, 10))
      else None
  {
    var head := pre + if minus then "-" else "";
    var s := head + d + rest;
    RunOfDigits(head, d, rest, IsDecimal);
    assert s[|pre|] == if minus then '-' else if d != "" then d[0] else rest[0];
    if d != "" {
      assert d[0] in d;
    }
    assert At(s, |head| + |d|) == if rest == "" then '\0' else rest[0];
  }

  /** Zeros in front do not count. */
  lemma {:induction false} ZeroInFront(d: string, b: nat)
    ensures Value("0" + d, b) == Value(d, b)
  {
    if d == "" {
      assert "0" + d == "0" && "0"[..0] == "";
    } else {
      var n := |d| - 1;
      assert ("0" + d)[..|d|] == "0" + d[..n];
      ZeroInFront(d[..n], b);
    }
  }

  lemma {:induction false} FirstHexDigit(n: nat)
    ensures Digits(n, 16)[0] == '0' <==> n == 0
    ensures n == 0 ==> |Digits(n, 16)| == 1
  {
    DigitBack(n % 16);
    if n >= 16 {
      FirstHexDigit(n / 16);
      assert Digits(n, 16)[0] == Digits(n / 16, 16)[0];
    }
  }

  /** No number read on the way exceeds the one being read, so nothing overflows. */
  lemma {:induction false} PrefixValues(n: nat, k: nat)
    requires k <= |Digits(n, 10)|
    ensures 0 <= Value(Digits(n, 10)[..k], 10) <= n
  {
    var d := Digits(n, 10);
    if k == |d| {
      assert d[..k] == d;
      DigitsBack10(n);
    } else if n >= 10 {
      PrefixValues(n / 10, k);
      assert d[..k] == Digits(n / 10, 10)[..k];
    }
  }
}
