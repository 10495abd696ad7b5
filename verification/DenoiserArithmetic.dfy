/** The temporal denoiser's filter for one pixel (UnitTest.c, lines 100-131): two recursive
    moments in Q8, the decision, and what holds of them over every history of a pixel. */
module DenoiserArithmetic {

  type pixel = x: int | 0 <= x < 0x100

  const KEEP: int := 179
  const ADMIT: int := 77
  const THRESHOLD: int := 19200
  const MAX_MEAN: int := 255 * 256
  const MAX_SECOND: int := 255 * 255 * 256

  // ----- exact arithmetic -----

  function Mean(m1: nat, f: pixel): nat {
    (KEEP * m1 + ADMIT * f * 256) / 256
  }

  function Second(m2: nat, f: pixel): nat
  {
    SquareNonneg(f);
    (KEEP * m2 + ADMIT * (f * f) * 256) / 256
  }

  lemma SquareNonneg(x: int)
    ensures x * x >= 0
  {
  }

  function Deviation(m1: nat, f: pixel): int {
    256 * f - m1
  }

  function Variance(m1: nat, m2: nat): int {
    m2 - m1 * m1 / 256
  }

  datatype Moments = Moments(m1: nat, m2: nat)

  function Update(m: Moments, f: pixel): Moments {
    Moments(Mean(m.m1, f), Second(m.m2, f))
  }

  /** Small variance and small deviation: the pixel is replaced by its mean. */
  predicate Replaces(m: Moments, f: pixel) {
    Variance(m.m1, m.m2) < THRESHOLD && Deviation(m.m1, f) * Deviation(m.m1, f) / 256 < THRESHOLD
  }

  /** The output pixel, from the moments after the update. */
  function Output(m: Moments, f: pixel): (r: int) {
    if Replaces(m, f) then m.m1 / 256 else f
  }

  // ----- the invariant -----

  /** The square of the stored mean never exceeds the stored second moment, in spite of the
      truncation in both filters; so the variance computed from them is never negative. */
  predicate Sound(m: Moments) {
    m.m1 <= MAX_MEAN && m.m2 <= MAX_SECOND && Variance(m.m1, m.m2) >= 0
  }

  lemma SquareOfSum(a: int, b: int)
    ensures (KEEP * a + ADMIT * b) * (KEEP * a + ADMIT * b)
         == 256 * (KEEP * (a * a) + ADMIT * (b * b)) - KEEP * ADMIT * ((a - b) * (a - b))
  {
  }

  lemma SquareMonotone(a: int, b: int)
    requires 0 <= a <= b
    ensures a * a <= b * b
  {
  }

  /** Far from the input, convexity of the square pays for both truncations. */
  lemma SoundFar(m: Moments, f: pixel)
    requires Sound(m) && (m.m1 - 256 * f >= 30 || 256 * f - m.m1 >= 30)
    ensures Variance(Mean(m.m1, f), Second(m.m2, f)) >= 0
  {
    var a, g, x, y := m.m1, 256 * f, Mean(m.m1, f), Second(m.m2, f);
    var n := KEEP * a + ADMIT * g;
    assert 256 * x <= n;
    SquareMonotone(256 * x, n);
    assert (256 * x) * (256 * x) == 65536 * (x * x);
    SquareOfSum(a, g);
    if a >= g {
      SquareMonotone(30, a - g);
    } else {
      SquareMonotone(30, g - a);
      assert (g - a) * (g - a) == (a - g) * (a - g);
    }
    assert a * a <= 256 * m.m2 + 255;
    assert g * g == 65536 * (f * f);
    assert 256 * y >= KEEP * m.m2 + ADMIT * 256 * (f * f) - 255;
    assert x * x <= 256 * y + 255;
  }

  /** (256 f + d)^2 and f (256 t + r), with the products named. */
  lemma NearSquare(f: int, d: int)
    ensures (256 * f + d) * (256 * f + d) == 65536 * (f * f) + 512 * (f * d) + d * d
  {
  }

  lemma NearProduct(f: int, d: int, t: int, r: int)
    requires KEEP * d == 256 * t + r
    ensures KEEP * (f * d) == 256 * (f * t) + f * r
  {
  }

  lemma NearSecond(m2: int, ff: int, fd: int, ft: int, fr: int, e: int)
    requires m2 >= 256 * ff + 2 * fd + e && KEEP * fd == 256 * ft + fr
    ensures (KEEP * m2 + ADMIT * ff * 256) / 256 >= 256 * ff + 2 * ft + (2 * fr + KEEP * e) / 256
  {
  }

  lemma NearStored(m2: int, aa: int, ff: int, fd: int, dd: int)
    requires m2 - aa / 256 >= 0 && aa == 65536 * ff + 512 * fd + dd
    ensures m2 >= 256 * ff + 2 * fd + dd / 256
  {
  }

  lemma NearConclude(y: int, xx: int, ff: int, ft: int, tt: int, g: int)
    requires xx == 65536 * ff + 512 * ft + tt && y >= 256 * ff + 2 * ft + g && tt <= 256 * g + 255
    ensures y - xx / 256 >= 0
  {
  }

  lemma NonnegProduct(f: nat, r: nat)
    ensures f * r >= 0 && (f >= 1 ==> f * r >= r)
  {
  }

  /** Close to the input, with d = mean - input: everything that depends on the input cancels. */
  lemma SoundNear(m: Moments, f: pixel)
    requires Sound(m) && -30 < m.m1 - 256 * f < 30
    ensures Variance(Mean(m.m1, f), Second(m.m2, f)) >= 0
  {
    hide Second, Mean;
    var d := m.m1 - 256 * f;
    var t, r, e := KEEP * d / 256, KEEP * d % 256, d * d / 256;
    var x, y := Mean(m.m1, f), Second(m.m2, f);
    MeanNear(m.m1, f);
    NearSquare(f, d);
    NearStored(m.m2, m.m1 * m.m1, f * f, f * d, d * d);
    NearProduct(f, d, t, r);
    NearSecond(m.m2, f * f, f * d, f * t, f * r, e);
    SecondDef(m.m2, f);
    NearSquare(f, t);
    NonnegProduct(f, r);
    NearGap(d, f * r);
    NearConclude(y, x * x, f * f, f * t, t * t, (2 * (f * r) + KEEP * e) / 256);
  }

  lemma MeanNear(m1: nat, f: pixel)
    ensures Mean(m1, f) == 256 * f + KEEP * (m1 - 256 * f) / 256
  {
  }

  lemma SecondDef(m2: nat, f: pixel)
    ensures Second(m2, f) == (KEEP * m2 + ADMIT * (f * f) * 256) / 256
  {
  }

  /** Quotient and remainder of 179 d, and d * d / 256, for every d near 0. */
  lemma NearTable(d: int)
    requires -30 < d < 30
    ensures var t, e := KEEP * d / 256, d * d / 256;
            && ((d >= 28 || d <= -28) ==> e == 3 && -21 <= t <= 20)
            && ((23 <= d < 28 || -28 < d <= -23) ==> e == 2 && -19 <= t <= 18)
            && (d == -22 ==> e == 1 && t == -16 && KEEP * d % 256 == 158)
            && ((16 <= d < 23 || -22 < d <= -16) ==> e == 1 && -15 <= t <= 15)
            && (-16 < d < 16 ==> e == 0 && -11 <= t <= 10)
  {
  }

  lemma BoundedSquare(t: int, b: int)
    requires 0 <= b && -b <= t <= b
    ensures t * t <= b * b
  {
  }

  /** The remaining inequality; w is the input times the remainder, and the input is at least 1
      when the mean lies below it. */
  lemma NearGap(d: int, w: int)
    requires -30 < d < 30 && w >= 0 && (d < 0 ==> w >= KEEP * d % 256)
    ensures var t, e := KEEP * d / 256, d * d / 256;
            t * t <= 256 * ((2 * w + KEEP * e) / 256) + 255
  {
    var t, e := KEEP * d / 256, d * d / 256;
    NearTable(d);
    var b := if e == 3 then 21 else if e == 2 then 19 else if d == -22 then 16 else if e == 1 then 15 else 11;
    BoundedSquare(t, b);
    NearQuotient(w, e, b, d == -22);
  }

  lemma NearQuotient(w: int, e: int, b: int, corner: bool)
    requires w >= 0 && 0 <= e <= 3 && (corner ==> e == 1 && w >= 158)
    requires b == if e == 3 then 21 else if e == 2 then 19 else if corner then 16 else if e == 1 then 15 else 11
    ensures b * b <= 256 * ((2 * w + KEEP * e) / 256) + 255
  {
  }

  lemma PixelSquare(f: pixel)
    ensures 0 <= f * f <= 255 * 255
  {
  }

  /** The invariant is kept by every update with every pixel. */
  lemma UpdateKeepsSound(m: Moments, f: pixel)
    requires Sound(m)
    ensures Sound(Update(m, f))
  {
    PixelSquare(f);
    if -30 < m.m1 - 256 * f < 30 {
      SoundNear(m, f);
    } else {
      SoundFar(m, f);
    }
  }

  /** Moments of a pixel after a history of inputs, from zeroed memory. */
  function History(fs: seq<pixel>): Moments {
    if fs == [] then Moments(0, 0) else Update(History(fs[..|fs| - 1]), fs[|fs| - 1])
  }

  /** Denoiser variance bound over every history of every pixel. */
  lemma {:induction false} HistoryIsSound(fs: seq<pixel>)
    ensures Sound(History(fs))
    decreases |fs|
  {
    if fs != [] {
      HistoryIsSound(fs[..|fs| - 1]);
      UpdateKeepsSound(History(fs[..|fs| - 1]), fs[|fs| - 1]);
    }
  }

  /** The inputs of pixel i over a run of frames. */
  function Column(frames: seq<seq<pixel>>, i: nat): (fs: seq<pixel>)
    requires forall k :: 0 <= k < |frames| ==> i < |frames[k]|
    ensures |fs| == |frames| && forall k :: 0 <= k < |frames| ==> fs[k] == frames[k][i]
  {
    if frames == [] then [] else Column(frames[..|frames| - 1], i) + [frames[|frames| - 1][i]]
  }

  lemma ColumnGrows(frames: seq<seq<pixel>>, frame: seq<pixel>, i: nat)
    requires i < |frame| && forall k :: 0 <= k < |frames| ==> i < |frames[k]|
    ensures Column(frames + [frame], i) == Column(frames, i) + [frame[i]]
    ensures History(Column(frames + [frame], i)) == Update(History(Column(frames, i)), frame[i])
  {
    hide Update;
    var fs := Column(frames, i);
    assert (frames + [frame])[..|frames|] == frames;
    assert (fs + [frame[i]])[..|fs|] == fs;
  }

  // ----- machine arithmetic -----

  const TWO_32: int := 0x1_0000_0000
  const TWO_31: int := 0x8000_0000

  /** Value kept by a 32-bit unsigned variable, and read as a signed one. */
  function U32(x: int): nat {
    x % TWO_32
  }

  function I32(x: int): int {
    if x % TWO_32 < TWO_31 then x % TWO_32 else x % TWO_32 - TWO_32
  }

  /** Because the mean is updated before the deviation is taken, the deviation stays within
      179 * 255 and its square within a signed 32-bit int. */
  lemma DeviationBound(m1: nat, f: pixel)
    requires m1 <= MAX_MEAN
    ensures var d := Deviation(Mean(m1, f), f);
            -45645 <= d <= 45645 && 0 <= d * d < TWO_31
  {
    var d := Deviation(Mean(m1, f), f);
    BoundedSquare(d, 45645);
    SquareNonneg(d);
  }

  lemma Fits(x: int)
    requires 0 <= x < TWO_32
    ensures U32(x) == x
  {
  }

  lemma Signed(x: int)
    requires -TWO_31 <= x < TWO_31
    ensures I32(x) == x && I32(U32(x)) == x
  {
  }

  /** No operation of the first filter overflows. */
  lemma MachineMean(m1: nat, f: pixel)
    requires m1 <= MAX_MEAN
    ensures U32(U32(m1 * KEEP) + U32(U32(ADMIT * f) * 256)) / 256 == Mean(m1, f) <= MAX_MEAN
  {
    hide U32;
    Fits(m1 * KEEP);
    Fits(ADMIT * f);
    Fits(ADMIT * f * 256);
    Fits(m1 * KEEP + ADMIT * f * 256);
  }

  /** Nor one of the second: its largest sum, 16646400 * 256, just fits. */
  lemma MachineSecond(m2: nat, f: pixel)
    requires m2 <= MAX_SECOND
    ensures U32(U32(m2 * KEEP) + U32(U32(ADMIT * U32(f * f)) * 256)) / 256 == Second(m2, f) <= MAX_SECOND
  {
    hide U32;
    PixelSquare(f);
    var ff := f * f;
    Fits(ff);
    Fits(m2 * KEEP);
    Fits(ADMIT * ff);
    Fits(ADMIT * ff * 256);
    Fits(m2 * KEEP + ADMIT * ff * 256);
  }

  /** Nor one of the decision. */
  lemma MachineDecision(m: Moments, f: pixel)
    requires Sound(m) && -45645 <= Deviation(m.m1, f) <= 45645
    ensures I32(U32(256 * f - m.m1)) == Deviation(m.m1, f)
    ensures I32(Deviation(m.m1, f) * Deviation(m.m1, f)) == Deviation(m.m1, f) * Deviation(m.m1, f)
    ensures I32(U32(I32(m.m2) - U32(m.m1 * m.m1) / 256)) == Variance(m.m1, m.m2)
    ensures m.m1 / 256 <= 255
  {
    hide U32, I32;
    var d := Deviation(m.m1, f);
    Signed(d);
    BoundedSquare(d, 45645);
    SquareNonneg(d);
    Signed(d * d);
    SquareMonotone(m.m1, MAX_MEAN);
    Fits(m.m1 * m.m1);
    Signed(m.m2);
    SquareNonneg(m.m1);
    Signed(Variance(m.m1, m.m2));
  }

  // ----- output -----

  /** When a pixel is replaced, in numbers: its variance is below 19200 and its deviation from
      the mean at most 2217 either way, in Q8. */
  lemma ReplacesExactly(m: Moments, f: pixel)
    ensures Replaces(m, f) <==> m.m2 - m.m1 * m.m1 / 256 < 19200 && -2217 <= 256 * f - m.m1 <= 2217
  {
    var d := Deviation(m.m1, f);
    if -2217 <= d <= 2217 {
      BoundedSquare(d, 2217);
    } else {
      FarSquare(d, 2218);
    }
  }

  /** A replaced pixel is a byte at most nine below and eight above the input. */
  lemma OutputBound(m: Moments, f: pixel)
    requires Sound(m)
    ensures 0 <= Output(Update(m, f), f) <= 255
    ensures -9 <= Output(Update(m, f), f) - f <= 8
  {
    var n := Update(m, f);
    UpdateKeepsSound(m, f);
    var d := Deviation(n.m1, f);
    if Replaces(n, f) && !(-2217 <= d <= 2217) {
      FarSquare(d, 2218);
    }
  }

  lemma FarSquare(d: int, b: int)
    requires 0 <= b && (d >= b || d <= -b)
    ensures d * d >= b * b
  {
  }
}
