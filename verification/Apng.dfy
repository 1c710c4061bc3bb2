/**
 Composing the frames of an animated PNG on a canvas: copying, Porter-Duff blending, disposal.
 */
module Apng {

  type Byte = x: int | 0 <= x <= 255

  datatype Pixel = Pixel(blue: Byte, green: Byte, red: Byte, alpha: Byte)

  const TRANSPARENT := Pixel(0, 0, 0, 0)

  // ---- one pixel -----------------------------------------------------------------------------------

  function Min(a: int, b: int): int { if a < b then a else b }
  function Max(a: int, b: int): int { if a < b then b else a }

  /** A mean with integer weights lies between the two values, rounded down or not. */
  lemma MeanBetween(a: int, b: int, u: int, v: int)
    requires 0 <= u && 0 <= v && 0 < u + v
    ensures Min(a, b) <= (a * u + b * v) / (u + v) <= Max(a, b)
  {
    var lo, hi, n := Min(a, b), Max(a, b), u + v;
    MulBounds(a, lo, hi, u);
    MulBounds(b, lo, hi, v);
    assert lo * n == lo * u + lo * v;
    assert hi * n == hi * u + hi * v;
    DivBounds(a * u + b * v, lo, hi, n);
  }

  lemma MulBounds(a: int, lo: int, hi: int, u: int)
    requires lo <= a <= hi && 0 <= u
    ensures lo * u <= a * u <= hi * u
  {
  }

  lemma MulCancel(a: int, b: int, n: int)
    requires 0 < n && a * n < b * n
    ensures a < b
  {
    if b <= a {
      MulBounds(b, b, a, n);
    }
  }

  lemma DivBounds(m: int, lo: int, hi: int, n: int)
    requires 0 < n && lo * n <= m <= hi * n
    ensures lo <= m / n <= hi
  {
    var q := m / n;
    assert q * n <= m < (q + 1) * n;
    assert m < (hi + 1) * n;
    MulCancel(lo, q + 1, n);
    MulCancel(q, hi + 1, n);
  }

  /** The sum of the two weights. What it lacks to full opacity is the product of what the two
      pixels lack. */
  function Weight(s: Byte, d: Byte): (al: int)
  {
    s * 255 + (255 - s) * d
  }

  lemma WeightBounds(s: Byte, d: Byte)
    ensures 255 * 255 - Weight(s, d) == (255 - s) * (255 - d)
    ensures 255 * Max(s, d) <= Weight(s, d) <= 255 * 255
    ensures Max(s, d) <= Weight(s, d) / 255 <= 255
  {
    assert (255 - s) * (255 - d) == 255 * 255 - 255 * d - 255 * s + s * d;
    MulBounds(0, 0, 255 - s, d);
    MulBounds(d, 0, 255, 255 - s);
    MulBounds(255 - d, 0, 255 - d, s);
    assert Weight(s, d) == 255 * d + s * (255 - d);
    DivBounds(Weight(s, d), Max(s, d), 255, 255);
  }

  /** One colour channel, by the general formula. */
  function Mixed(s: Byte, d: Byte, sa: Byte, da: Byte): (c: int)
    requires Weight(sa, da) > 0
  {
    (s * (sa * 255) + d * ((255 - sa) * da)) / Weight(sa, da)
  }

  lemma MixedBetween(s: Byte, d: Byte, sa: Byte, da: Byte)
    requires Weight(sa, da) > 0
    ensures Min(s, d) <= Mixed(s, d, sa, da) <= Max(s, d)
  {
    MulBounds(0, 0, 255 - sa, da);
    MeanBetween(s, d, sa * 255, (255 - sa) * da);
  }

  /** The mean of the two colours, weighted by what is seen of each, rounded down. */
  lemma MixedRoundsDown(s: Byte, d: Byte, sa: Byte, da: Byte)
    requires sa != 0
    ensures var u, v := 255 * sa, (255 - sa) * da;
      0 < u + v && Mixed(s, d, sa, da) * (u + v) <= s * u + d * v < (Mixed(s, d, sa, da) + 1) * (u + v)
  {
    var u, v := 255 * sa, (255 - sa) * da;
    MulBounds(0, 0, 255 - sa, da);
    assert Weight(sa, da) == u + v;
    RoundedDown(s * u + d * v, u + v);
  }

  lemma RoundedDown(m: int, n: int)
    requires 0 < n
    ensures m / n * n <= m < (m / n + 1) * n
  {
    assert (m / n + 1) * n == m / n * n + n;
  }

  lemma SemiTransparent(sa: Byte, da: Byte)
    requires sa != 0
    ensures Weight(sa, da) > 0 && 0 <= Weight(sa, da) / 255 <= 255
  {
    WeightBounds(sa, da);
  }

  /** blendOver for one pixel: three short cuts, then the formula. */
  function Over(src: Pixel, dst: Pixel): Pixel {
    if src.alpha == 255 then src
    else if src.alpha == 0 then dst
    else if dst.alpha == 0 then src
    else
      SemiTransparent(src.alpha, dst.alpha);
      MixedBetween(src.blue, dst.blue, src.alpha, dst.alpha);
      MixedBetween(src.green, dst.green, src.alpha, dst.alpha);
      MixedBetween(src.red, dst.red, src.alpha, dst.alpha);
      Pixel(
        Mixed(src.blue, dst.blue, src.alpha, dst.alpha),
        Mixed(src.green, dst.green, src.alpha, dst.alpha),
        Mixed(src.red, dst.red, src.alpha, dst.alpha),
        Weight(src.alpha, dst.alpha) / 255)
  }

  lemma MixedShortCuts(s: Byte, d: Byte)
    ensures forall da: Byte :: Weight(255, da) > 0 && Mixed(s, d, 255, da) == s
    ensures forall da: Byte :: da > 0 ==> Weight(0, da) > 0 && Mixed(s, d, 0, da) == d
    ensures forall sa: Byte :: sa > 0 ==> Weight(sa, 0) > 0 && Mixed(s, d, sa, 0) == s
  {
    forall da: Byte ensures Weight(255, da) > 0 && Mixed(s, d, 255, da) == s {
      Exact(s, 255 * 255);
    }
    forall da: Byte | da > 0 ensures Weight(0, da) > 0 && Mixed(s, d, 0, da) == d {
      Exact(d, 255 * da);
    }
    forall sa: Byte | sa > 0 ensures Weight(sa, 0) > 0 && Mixed(s, d, sa, 0) == s {
      assert (255 - sa) * 0 == 0;
      Exact(s, sa * 255);
    }
  }

  lemma Exact(a: int, n: int)
    requires n > 0
    ensures (a * n) / n == a
  {
    DivBounds(a * n, a, a, n);
  }

  /** The short cuts are the formula: it holds for every pair of pixels, except that under a
      fully transparent pixel a fully transparent one stays as it is. */
  lemma OverIsTheFormula(src: Pixel, dst: Pixel)
    ensures Over(src, dst).alpha == Weight(src.alpha, dst.alpha) / 255
    ensures src.alpha == 0 && dst.alpha == 0 ==> Over(src, dst) == dst
    ensures src.alpha != 0 || dst.alpha != 0 ==>
      && Weight(src.alpha, dst.alpha) > 0
      && Over(src, dst).blue == Mixed(src.blue, dst.blue, src.alpha, dst.alpha)
      && Over(src, dst).green == Mixed(src.green, dst.green, src.alpha, dst.alpha)
      && Over(src, dst).red == Mixed(src.red, dst.red, src.alpha, dst.alpha)
  {
    MixedShortCuts(src.blue, dst.blue);
    MixedShortCuts(src.green, dst.green);
    MixedShortCuts(src.red, dst.red);
    WeightBounds(src.alpha, dst.alpha);
  }

  /** Blending never makes a pixel more transparent than either, and every colour stays between
      the two. */
  lemma OverBetween(src: Pixel, dst: Pixel)
    ensures Over(src, dst).alpha >= Max(src.alpha, dst.alpha)
    ensures Min(src.blue, dst.blue) <= Over(src, dst).blue <= Max(src.blue, dst.blue)
    ensures Min(src.green, dst.green) <= Over(src, dst).green <= Max(src.green, dst.green)
    ensures Min(src.red, dst.red) <= Over(src, dst).red <= Max(src.red, dst.red)
  {
    WeightBounds(src.alpha, dst.alpha);
    if src.alpha != 0 && dst.alpha != 0 {
      SemiTransparent(src.alpha, dst.alpha);
      MixedBetween(src.blue, dst.blue, src.alpha, dst.alpha);
      MixedBetween(src.green, dst.green, src.alpha, dst.alpha);
      MixedBetween(src.red, dst.red, src.alpha, dst.alpha);
    }
  }

  // ---- one frame -------------------------------------------------------------------------------------

  datatype DisposeOp = DisposeNone | Background | Previous
  datatype BlendOp = BlendSource | BlendOver

  /** The frame last read: its place, its rows of bytes in the order blue, green, red, alpha. */
  datatype Frame = Frame(x: nat, y: nat, width: nat, height: nat, rows: seq<seq<Byte>>,
                         dispose: DisposeOp, blend: BlendOp)

  /** Rows and columns of the canvas to their pixels. A QImage is copied on assignment, as a map is. */
  type Picture = map<(int, int), Pixel>

  ghost predicate IsCanvas(pic: Picture, width: nat, height: nat) {
    forall p :: p in pic <==> 0 <= p.0 < height && 0 <= p.1 < width
  }

  predicate HasRows(f: Frame) {
    |f.rows| >= f.height && forall y :: 0 <= y < f.height ==> |f.rows[y]| >= 4 * f.width
  }

  /** The frame has its bytes and lies on the canvas. */
  predicate Fits(f: Frame, width: nat, height: nat) {
    HasRows(f) && f.x + f.width <= width && f.y + f.height <= height
  }

  predicate Inside(f: Frame, p: (int, int)) {
    f.y <= p.0 < f.y + f.height && f.x <= p.1 < f.x + f.width
  }

  /** The frame's pixel at column x of its row y. */
  function Source(f: Frame, y: nat, x: nat): Pixel
    requires HasRows(f) && y < f.height && x < f.width
  {
    var row := f.rows[y];
    Pixel(row[4 * x], row[4 * x + 1], row[4 * x + 2], row[4 * x + 3])
  }

  datatype Paint = CopyOver | OverPaint | ClearPaint

  function Painted(f: Frame, how: Paint, p: (int, int), dst: Pixel): Pixel
    requires HasRows(f) && Inside(f, p)
  {
    match how
    case CopyOver => Source(f, p.0 - f.y, p.1 - f.x)
    case OverPaint => Over(Source(f, p.0 - f.y, p.1 - f.x), dst)
    case ClearPaint => TRANSPARENT
  }

  /** The canvas with the frame's area painted, everything else as it was. */
  function Composed(pic: Picture, f: Frame, how: Paint): Picture
    requires HasRows(f)
  {
    map p | p in pic :: if Inside(f, p) then Painted(f, how, p, pic[p]) else pic[p]
  }

  /** The same, but only up to row y and column x of the frame. */
  function PaintedUpTo(pic: Picture, f: Frame, how: Paint, y: int, x: int): Picture
    requires HasRows(f)
  {
    map p | p in pic ::
      if Inside(f, p) && (p.0 - f.y < y || (p.0 - f.y == y && p.1 - f.x < x)) then Painted(f, how, p, pic[p])
      else pic[p]
  }

  lemma PaintedStep(pic: Picture, f: Frame, how: Paint, y: nat, x: nat, c: Pixel)
    requires HasRows(f) && y < f.height && x < f.width
    requires var p := (f.y + y, f.x + x);
      p in pic && c == Painted(f, how, p, pic[p])
    ensures PaintedUpTo(pic, f, how, y, x)[(f.y + y, f.x + x) := c] == PaintedUpTo(pic, f, how, y, x + 1)
  {
  }

  lemma PaintedRow(pic: Picture, f: Frame, how: Paint, y: nat)
    requires HasRows(f)
    ensures PaintedUpTo(pic, f, how, y, f.width) == PaintedUpTo(pic, f, how, y + 1, 0)
  {
  }

  lemma PaintedNone(pic: Picture, f: Frame, how: Paint)
    requires HasRows(f)
    ensures PaintedUpTo(pic, f, how, 0, 0) == pic
  {
  }

  lemma PaintedAll(pic: Picture, f: Frame, how: Paint)
    requires HasRows(f)
    ensures PaintedUpTo(pic, f, how, f.height, 0) == Composed(pic, f, how)
  {
  }

  function HowFor(b: BlendOp): Paint {
    if b.BlendOver? then OverPaint else CopyOver
  }

  /** Blending is copying when every pixel of the frame is opaque. */
  lemma OpaqueBlendIsCopy(pic: Picture, f: Frame)
    requires HasRows(f)
    requires forall y: nat, x: nat :: y < f.height && x < f.width ==> Source(f, y, x).alpha == 255
    ensures Composed(pic, f, OverPaint) == Composed(pic, f, CopyOver)
  {
    forall p | p in pic && Inside(f, p)
      ensures Painted(f, OverPaint, p, pic[p]) == Painted(f, CopyOver, p, pic[p])
    {
      assert Source(f, p.0 - f.y, p.1 - f.x).alpha == 255;
    }
  }

  /** Where the canvas is fully transparent, blending is copying of whatever is not. */
  lemma BlendOnTransparent(pic: Picture, f: Frame, p: (int, int))
    requires HasRows(f) && p in pic && Inside(f, p) && pic[p] == TRANSPARENT
    ensures var c := Composed(pic, f, OverPaint)[p];
      var s := Source(f, p.0 - f.y, p.1 - f.x);
      c == if s.alpha == 0 then TRANSPARENT else s
  {
  }

  // ---- all frames --------------------------------------------------------------------------------------

  /** The first frame shown replaces what is there, and is never disposed to what was before. */
  function AsFirst(f: Frame): Frame {
    f.(blend := BlendSource, dispose := if f.dispose.Previous? then Background else f.dispose)
  }

  predicate IsFirst(n: nat, skipFirst: bool) {
    if skipFirst then n == 1 else n == 0
  }

  function Effective(f: Frame, n: nat, skipFirst: bool): Frame {
    if IsFirst(n, skipFirst) then AsFirst(f) else f
  }

  /** What frame n shows, and what it leaves for the next frame. */
  function Displayed(pic: Picture, f: Frame): Picture
    requires HasRows(f)
  {
    Composed(pic, f, HowFor(f.blend))
  }

  function Disposed(pic: Picture, f: Frame): Picture
    requires HasRows(f)
  {
    match f.dispose
    case DisposeNone => Displayed(pic, f)
    case Background => Composed(Displayed(pic, f), f, ClearPaint)
    case Previous => pic
  }

  /** Frames after the first one shown. */
  predicate IsLater(n: nat, skipFirst: bool) {
    n > if skipFirst then 1 else 0
  }

  predicate Hidden(n: nat, skipFirst: bool) {
    skipFirst && n == 0
  }

  predicate AllHaveRows(frames: seq<Frame>) {
    forall f :: f in frames ==> HasRows(f)
  }

  /** The pictures shown by frames n, n+1, ... from this canvas on. */
  function Shown(pic: Picture, frames: seq<Frame>, n: nat, skipFirst: bool): seq<Picture>
    requires AllHaveRows(frames)
    decreases |frames|
  {
    if frames == [] then []
    else
      var f := Effective(frames[0], n, skipFirst);
      assert frames[0] in frames;
      if Hidden(n, skipFirst) then Shown(pic, frames[1..], n + 1, skipFirst)
      else [Displayed(pic, f)] + Shown(Disposed(pic, f), frames[1..], n + 1, skipFirst)
  }

  // ---- what a frame shows and leaves, pixel by pixel ------------------------------------------------------

  /** The four bytes of the frame's row, in the order they stand in the file. */
  function ByteOf(f: Frame, p: (int, int), k: nat): Byte
    requires HasRows(f) && Inside(f, p) && k < 4
  {
    f.rows[p.0 - f.y][4 * (p.1 - f.x) + k]
  }

  /** Outside its area a frame shows what was there before. */
  lemma ShownOutside(pic: Picture, f: Frame, p: (int, int))
    requires HasRows(f) && p in pic && !Inside(f, p)
    ensures Displayed(pic, f).Keys == pic.Keys && Displayed(pic, f)[p] == pic[p]
  {
  }

  /** Inside, a replacing frame shows its own bytes: blue, green, red, alpha. */
  lemma ReplacedInside(pic: Picture, f: Frame, p: (int, int))
    requires HasRows(f) && p in pic && Inside(f, p) && f.blend.BlendSource?
    ensures Displayed(pic, f).Keys == pic.Keys
    ensures Displayed(pic, f)[p] == Pixel(ByteOf(f, p, 0), ByteOf(f, p, 1), ByteOf(f, p, 2), ByteOf(f, p, 3))
  {
  }

  /** A blended frame shows the canvas under its fully transparent pixels and itself where it is
      opaque. In between nothing becomes more transparent, and colours lie between the two. */
  lemma BlendedInside(pic: Picture, f: Frame, p: (int, int))
    requires HasRows(f) && p in pic && Inside(f, p) && f.blend.BlendOver?
    ensures Displayed(pic, f).Keys == pic.Keys
    ensures var shown, below := Displayed(pic, f)[p], pic[p];
      var blue, green, red, alpha := ByteOf(f, p, 0), ByteOf(f, p, 1), ByteOf(f, p, 2), ByteOf(f, p, 3);
      && (alpha == 0 ==> shown == below)
      && (alpha == 255 ==> shown == Pixel(blue, green, red, alpha))
      && shown.alpha >= Max(alpha, below.alpha)
      && Min(blue, below.blue) <= shown.blue <= Max(blue, below.blue)
      && Min(green, below.green) <= shown.green <= Max(green, below.green)
      && Min(red, below.red) <= shown.red <= Max(red, below.red)
  {
    var src := Source(f, p.0 - f.y, p.1 - f.x);
    assert src == Pixel(ByteOf(f, p, 0), ByteOf(f, p, 1), ByteOf(f, p, 2), ByteOf(f, p, 3));
    ShownIsOver(pic, f, p);
    OverBetween(src, pic[p]);
    OverShortCuts(src, pic[p]);
  }

  lemma OverShortCuts(src: Pixel, below: Pixel)
    ensures src.alpha == 0 ==> Over(src, below) == below
    ensures src.alpha == 255 ==> Over(src, below) == src
  {
  }

  lemma ShownIsOver(pic: Picture, f: Frame, p: (int, int))
    requires HasRows(f) && p in pic && Inside(f, p) && f.blend.BlendOver?
    ensures Displayed(pic, f).Keys == pic.Keys
    ensures Displayed(pic, f)[p] == Over(Source(f, p.0 - f.y, p.1 - f.x), pic[p])
  {
  }

  /** A colour that is the mean of s and d with these weights, rounded down. */
  predicate IsMean(c: int, s: int, d: int, u: int, v: int) {
    c * (u + v) <= s * u + d * v < (c + 1) * (u + v)
  }

  /** Where both pixels are seen, each colour is their mean: the frame's weighted by its alpha, the
      canvas' by its alpha and what the frame leaves to it. What is missing to full opacity is
      the product of what both are missing. */
  lemma BlendedExactly(pic: Picture, f: Frame, p: (int, int))
    requires HasRows(f) && p in pic && Inside(f, p) && f.blend.BlendOver?
    requires 0 < ByteOf(f, p, 3) < 255 && 0 < pic[p].alpha
    ensures var shown, below, alpha := Displayed(pic, f)[p], pic[p], ByteOf(f, p, 3);
      var u, v := 255 * alpha, (255 - alpha) * below.alpha;
      && IsMean(shown.blue, ByteOf(f, p, 0), below.blue, u, v)
      && IsMean(shown.green, ByteOf(f, p, 1), below.green, u, v)
      && IsMean(shown.red, ByteOf(f, p, 2), below.red, u, v)
      && shown.alpha * 255 <= 255 * 255 - (255 - alpha) * (255 - below.alpha) < (shown.alpha + 1) * 255
  {
    ShownIsOver(pic, f, p);
    OverColours(Source(f, p.0 - f.y, p.1 - f.x), pic[p]);
    OverAlpha(Source(f, p.0 - f.y, p.1 - f.x), pic[p]);
  }

  lemma OverColours(src: Pixel, below: Pixel)
    requires 0 < src.alpha < 255 && 0 < below.alpha
    ensures var c, u, v := Over(src, below), 255 * src.alpha, (255 - src.alpha) * below.alpha;
      IsMean(c.blue, src.blue, below.blue, u, v) && IsMean(c.green, src.green, below.green, u, v)
      && IsMean(c.red, src.red, below.red, u, v)
  {
    MixedRoundsDown(src.blue, below.blue, src.alpha, below.alpha);
    MixedRoundsDown(src.green, below.green, src.alpha, below.alpha);
    MixedRoundsDown(src.red, below.red, src.alpha, below.alpha);
  }

  lemma OverAlpha(src: Pixel, below: Pixel)
    requires 0 < src.alpha < 255 && 0 < below.alpha
    ensures var a := Over(src, below).alpha;
      a * 255 <= 255 * 255 - (255 - src.alpha) * (255 - below.alpha) < (a + 1) * 255
  {
    WeightBounds(src.alpha, below.alpha);
    RoundedDown(Weight(src.alpha, below.alpha), 255);
  }

  /** What each disposal leaves of the canvas. */
  lemma LeftBehind(pic: Picture, f: Frame, p: (int, int))
    requires HasRows(f) && p in pic
    ensures Disposed(pic, f).Keys == pic.Keys
    ensures f.dispose.DisposeNone? ==> Disposed(pic, f) == Displayed(pic, f)
    ensures f.dispose.Previous? ==> Disposed(pic, f) == pic
    ensures f.dispose.Background? ==>
      Disposed(pic, f)[p] == if Inside(f, p) then Pixel(0, 0, 0, 0) else pic[p]
  {
  }

  /** Every pixel of the frame is fully transparent. */
  ghost predicate Invisible(f: Frame)
    requires HasRows(f)
  {
    forall p: (int, int) :: Inside(f, p) ==> ByteOf(f, p, 3) == 0
  }

  /** A later frame that is blended, invisible and kept shows the picture before it again, and
      the frames after it are shown as if it had not been there. */
  lemma InvisibleRepeats(pic: Picture, f: Frame, rest: seq<Frame>, n: nat, skipFirst: bool)
    requires HasRows(f) && AllHaveRows([f] + rest) && IsLater(n, skipFirst)
    requires f.blend.BlendOver? && f.dispose.DisposeNone? && Invisible(f)
    ensures AllHaveRows(rest)
    ensures Shown(pic, [f] + rest, n, skipFirst) == [pic] + Shown(pic, rest, n, skipFirst)
  {
    ShownCons(pic, f, rest, n, skipFirst);
    NumbersDoNotMatter(pic, rest, n, n + 1, skipFirst);
    forall p | p in pic ensures Displayed(pic, f)[p] == pic[p] {
      if Inside(f, p) {
        assert ByteOf(f, p, 3) == 0;
        BlendedInside(pic, f, p);
      }
    }
    assert Displayed(pic, f).Keys == pic.Keys;
    assert Displayed(pic, f) == pic;
  }

  /** The first frame shown replaces what is under it, whatever it asks for. */
  lemma FirstReplaces(pic: Picture, frames: seq<Frame>, p: (int, int))
    requires AllHaveRows(frames) && frames != [] && p in pic
    ensures HasRows(frames[0]) && |Shown(pic, frames, 0, false)| == |frames|
    ensures var f, shown := frames[0], Shown(pic, frames, 0, false)[0];
      && shown.Keys == pic.Keys
      && shown[p] == if Inside(f, p) then Pixel(ByteOf(f, p, 0), ByteOf(f, p, 1), ByteOf(f, p, 2), ByteOf(f, p, 3))
                     else pic[p]
  {
    assert frames[0] in frames;
    ShownLength(pic, frames, 0, false);
    var f := AsFirst(frames[0]);
    if Inside(f, p) {
      ReplacedInside(pic, f, p);
    } else {
      ShownOutside(pic, f, p);
    }
  }

  lemma {:induction false} ShownLength(pic: Picture, frames: seq<Frame>, n: nat, skipFirst: bool)
    requires AllHaveRows(frames) && !Hidden(n, skipFirst)
    ensures |Shown(pic, frames, n, skipFirst)| == |frames|
    decreases |frames|
  {
    if frames != [] {
      assert frames[0] in frames;
      var f := Effective(frames[0], n, skipFirst);
      ShownLength(Disposed(pic, f), frames[1..], n + 1, skipFirst);
    }
  }

  /** Skipping the first frame is leaving it out: the second one is then the first. */
  lemma SkippedIsAbsent(pic: Picture, hidden: Frame, frames: seq<Frame>)
    requires AllHaveRows([hidden] + frames)
    ensures AllHaveRows(frames)
    ensures Shown(pic, [hidden] + frames, 0, true) == Shown(pic, frames, 0, false)
  {
    assert ([hidden] + frames)[1..] == frames;
    assert forall g :: g in frames ==> g in [hidden] + frames;
    if frames != [] {
      assert frames[0] in frames;
      var f := AsFirst(frames[0]);
      LaterAlike(Disposed(pic, f), frames[1..], 2, 1);
    }
  }

  lemma {:induction false} LaterAlike(pic: Picture, frames: seq<Frame>, n: nat, m: nat)
    requires AllHaveRows(frames) && n > 1 && m > 0
    ensures Shown(pic, frames, n, true) == Shown(pic, frames, m, false)
    decreases |frames|
  {
    if frames != [] {
      assert frames[0] in frames;
      LaterAlike(Disposed(pic, frames[0]), frames[1..], n + 1, m + 1);
    }
  }

  /** A frame disposed to the previous canvas leaves no trace: the frames after it are shown as
      if it had not been there. */
  lemma PreviousLeavesNoTrace(pic: Picture, f: Frame, rest: seq<Frame>, n: nat, skipFirst: bool)
    requires HasRows(f) && AllHaveRows([f] + rest) && f.dispose.Previous? && IsLater(n, skipFirst)
    ensures AllHaveRows(rest)
    ensures Shown(pic, [f] + rest, n, skipFirst) == [Displayed(pic, f)] + Shown(pic, rest, n, skipFirst)
  {
    ShownCons(pic, f, rest, n, skipFirst);
    NumbersDoNotMatter(pic, rest, n, n + 1, skipFirst);
  }

  /** Whether a later frame is counted as n or n+1 does not matter any more. */
  lemma {:induction false} NumbersDoNotMatter(pic: Picture, frames: seq<Frame>, n: nat, m: nat, skipFirst: bool)
    requires AllHaveRows(frames) && IsLater(n, skipFirst) && IsLater(m, skipFirst)
    ensures Shown(pic, frames, n, skipFirst) == Shown(pic, frames, m, skipFirst)
    decreases |frames|
  {
    if frames != [] {
      assert frames[0] in frames;
      NumbersDoNotMatter(Disposed(pic, frames[0]), frames[1..], n + 1, m + 1, skipFirst);
    }
  }

  lemma CoveringShowsItself(a: Picture, b: Picture, width: nat, height: nat, f: Frame)
    requires IsCanvas(a, width, height) && IsCanvas(b, width, height) && HasRows(f)
    requires f.x == 0 && f.y == 0 && f.width == width && f.height == height && f.blend.BlendSource?
    ensures Displayed(a, f) == Displayed(b, f)
  {
    assert forall p :: p in a <==> p in b;
    assert forall p :: p in a ==> Inside(f, p);
  }

  /** A frame that covers the canvas, replaces it and stays makes the past irrelevant: from then
      on the same pictures are shown, whatever canvas it found. */
  lemma FullFrameForgetsThePast(a: Picture, b: Picture, width: nat, height: nat, f: Frame, rest: seq<Frame>,
                                n: nat, skipFirst: bool)
    requires IsCanvas(a, width, height) && IsCanvas(b, width, height)
    requires HasRows(f) && f.x == 0 && f.y == 0 && f.width == width && f.height == height
    requires AllHaveRows([f] + rest) && f.blend.BlendSource? && !f.dispose.Previous?
    requires !Hidden(n, skipFirst)
    ensures Shown(a, [f] + rest, n, skipFirst) == Shown(b, [f] + rest, n, skipFirst)
  {
    CoveringShowsItself(a, b, width, height, f);
    assert Effective(f, n, skipFirst) == f;
    ShownCons(a, f, rest, n, skipFirst);
    ShownCons(b, f, rest, n, skipFirst);
  }

  lemma ShownCons(pic: Picture, f: Frame, rest: seq<Frame>, n: nat, skipFirst: bool)
    requires HasRows(f) && AllHaveRows([f] + rest) && !Hidden(n, skipFirst)
    ensures AllHaveRows(rest)
    ensures
      var g := Effective(f, n, skipFirst);
      Shown(pic, [f] + rest, n, skipFirst) == [Displayed(pic, g)] + Shown(Disposed(pic, g), rest, n + 1, skipFirst)
  {
    assert ([f] + rest)[1..] == rest;
    assert forall g :: g in rest ==> g in [f] + rest;
  }

  function Blank(width: nat, height: nat): Picture {
    map p | p in Area(width, height) :: TRANSPARENT
  }

  function Area(width: nat, height: nat): set<(int, int)> {
    set y, x | 0 <= y < height && 0 <= x < width :: (y, x)
  }

  /** On the blank canvas of the first frame, clearing its area and restoring what was before are
      the same: the special case only avoids a copy. */
  lemma FirstDisposalAgrees(width: nat, height: nat, f: Frame)
    requires HasRows(f)
    ensures Disposed(Blank(width, height), AsFirst(f).(dispose := Background)) == Blank(width, height)
    ensures f.dispose.Previous? ==> Disposed(Blank(width, height), AsFirst(f)) == Disposed(Blank(width, height), f)
  {
    var pic := Blank(width, height);
    var g := AsFirst(f).(dispose := Background);
    assert forall p :: p in pic ==> Disposed(pic, g)[p] == TRANSPARENT;
  }

  // ---- the reader --------------------------------------------------------------------------------------

  class ApngReader {
    const width: nat
    const height: nat
    const skipFirst: bool
    var lastImg: Picture
    var allFrames: seq<Picture>

    constructor (width: nat, height: nat, skipFirst: bool)
      ensures this.width == width && this.height == height && this.skipFirst == skipFirst
      ensures lastImg == Blank(width, height) && allFrames == [] && Valid()
    {
      this.width, this.height, this.skipFirst := width, height, skipFirst;
      lastImg, allFrames := Blank(width, height), [];
    }

    ghost predicate Valid()
      reads this
    {
      IsCanvas(lastImg, width, height)
    }

    /** copyOver. */
    method CopyFrame(f: Frame)
      requires Valid() && Fits(f, width, height)
      modifies this`lastImg
      ensures Valid() && lastImg == Composed(old(lastImg), f, CopyOver)
    {
      ghost var pic := lastImg;
      PaintedNone(pic, f, CopyOver);
      var y := 0;
      while y < f.height
        invariant 0 <= y <= f.height && lastImg == PaintedUpTo(pic, f, CopyOver, y, 0)
      {
        var x := 0;
        while x < f.width
          invariant 0 <= x <= f.width && lastImg == PaintedUpTo(pic, f, CopyOver, y, x)
        {
          var c := Source(f, y, x);
          PaintedStep(pic, f, CopyOver, y, x, c);
          lastImg := lastImg[(f.y + y, f.x + x) := c];
          x := x + 1;
        }
        PaintedRow(pic, f, CopyOver, y);
        y := y + 1;
      }
      PaintedAll(pic, f, CopyOver);
    }

    /** blendOver. A fully transparent source pixel writes nothing. */
    method BlendFrame(f: Frame)
      requires Valid() && Fits(f, width, height)
      modifies this`lastImg
      ensures Valid() && lastImg == Composed(old(lastImg), f, OverPaint)
    {
      ghost var pic := lastImg;
      PaintedNone(pic, f, OverPaint);
      var y := 0;
      while y < f.height
        invariant 0 <= y <= f.height && lastImg == PaintedUpTo(pic, f, OverPaint, y, 0)
      {
        var x := 0;
        while x < f.width
          invariant 0 <= x <= f.width && lastImg == PaintedUpTo(pic, f, OverPaint, y, x)
        {
          var src := Source(f, y, x);
          var p := (f.y + y, f.x + x);
          var dst := lastImg[p];
          PaintedStep(pic, f, OverPaint, y, x, Over(src, dst));
          if src.alpha == 255 {
            lastImg := lastImg[p := src];
          } else if src.alpha != 0 {
            var c := BlendPixel(src, dst);
            lastImg := lastImg[p := c];
          } else {
            assert lastImg[p := dst] == lastImg;
          }
          x := x + 1;
        }
        PaintedRow(pic, f, OverPaint, y);
        y := y + 1;
      }
      PaintedAll(pic, f, OverPaint);
    }

    /** The formula as the code writes it. */
    static method BlendPixel(src: Pixel, dst: Pixel) returns (c: Pixel)
      requires src.alpha != 255 && src.alpha != 0
      ensures c == Over(src, dst)
    {
      c := src;
      if dst.alpha != 0 {
        OverBetween(src, dst);
        var u := src.alpha * 255;
        var v := (255 - src.alpha) * dst.alpha;
        var al := u + v;
        SemiTransparent(src.alpha, dst.alpha);
        assert al == Weight(src.alpha, dst.alpha);
        var blue := (src.blue * u + dst.blue * v) / al;
        var green := (src.green * u + dst.green * v) / al;
        var red := (src.red * u + dst.red * v) / al;
        assert blue == Over(src, dst).blue && green == Over(src, dst).green && red == Over(src, dst).red;
        c := Pixel(blue, green, red, al / 255);
      }
    }

    /** The loop that clears the frame's area. */
    method ClearArea(f: Frame)
      requires Valid() && Fits(f, width, height)
      modifies this`lastImg
      ensures Valid() && lastImg == Composed(old(lastImg), f, ClearPaint)
    {
      ghost var pic := lastImg;
      PaintedNone(pic, f, ClearPaint);
      var y := 0;
      while y < f.height
        invariant 0 <= y <= f.height && lastImg == PaintedUpTo(pic, f, ClearPaint, y, 0)
      {
        var x := 0;
        while x < f.width
          invariant 0 <= x <= f.width && lastImg == PaintedUpTo(pic, f, ClearPaint, y, x)
        {
          PaintedStep(pic, f, ClearPaint, y, x, TRANSPARENT);
          lastImg := lastImg[(f.y + y, f.x + x) := TRANSPARENT];
          x := x + 1;
        }
        PaintedRow(pic, f, ClearPaint, y);
        y := y + 1;
      }
      PaintedAll(pic, f, ClearPaint);
    }

    /** frame_end_fn for frame number n. */
    method FrameEnd(n: nat, read: Frame)
      requires Valid() && Fits(read, width, height)
      modifies this`lastImg, this`allFrames
      ensures Valid()
      ensures
        var f := Effective(read, n, skipFirst);
        if Hidden(n, skipFirst) then lastImg == old(lastImg) && allFrames == old(allFrames)
        else
          && allFrames == old(allFrames) + [Displayed(old(lastImg), f)]
          && lastImg == Disposed(old(lastImg), f)
    {
      if n == 0 && skipFirst {
        return;
      }
      var f := read;
      if (n == 0 && !skipFirst) || (n == 1 && skipFirst) {
        f := f.(blend := BlendSource);
        if f.dispose.Previous? {
          f := f.(dispose := Background);
        }
      }
      var temp: Picture := map[];
      if f.dispose.Previous? {
        temp := lastImg;
      }
      if f.blend.BlendOver? {
        BlendFrame(f);
      } else {
        CopyFrame(f);
      }
      allFrames := allFrames + [lastImg];
      if f.dispose.Previous? {
        lastImg := temp;
      } else if f.dispose.Background? {
        ClearArea(f);
      }
    }

    /** Reading all frames of a file shows exactly the pictures of Shown. */
    method ReadFrames(frames: seq<Frame>)
      requires lastImg == Blank(width, height) && allFrames == [] && Valid()
      requires AllHaveRows(frames) && forall f :: f in frames ==> Fits(f, width, height)
      modifies this`lastImg, this`allFrames
      ensures allFrames == Shown(Blank(width, height), frames, 0, skipFirst)
    {
      var n := 0;
      assert frames[0..] == frames;
      while n < |frames|
        invariant 0 <= n <= |frames| && Valid() && AllHaveRows(frames[n..])
        invariant allFrames + Shown(lastImg, frames[n..], n, skipFirst) ==
                  Shown(Blank(width, height), frames, 0, skipFirst)
      {
        assert frames[n] in frames && frames[n..][1..] == frames[n + 1..];
        ghost var before, done := lastImg, allFrames;
        FrameEnd(n, frames[n]);
        ShownStep(before, frames[n..], n, skipFirst, done);
        n := n + 1;
      }
    }
  }

  lemma ShownStep(pic: Picture, frames: seq<Frame>, n: nat, skipFirst: bool, done: seq<Picture>)
    requires frames != [] && AllHaveRows(frames)
    ensures HasRows(frames[0]) && AllHaveRows(frames[1..])
    ensures
      var f := Effective(frames[0], n, skipFirst);
      done + Shown(pic, frames, n, skipFirst) ==
      if Hidden(n, skipFirst) then done + Shown(pic, frames[1..], n + 1, skipFirst)
      else (done + [Displayed(pic, f)]) + Shown(Disposed(pic, f), frames[1..], n + 1, skipFirst)
  {
    assert frames[0] in frames;
    assert forall g :: g in frames[1..] ==> g in frames;
  }
}
