/** A pixel held constant: the stored mean settles, and in how many frames
    (UnitTest.c, lines 101-105). */
module DenoiserDynamics {
  import opened DenoiserArithmetic

  /** The mean after n frames of the same input. */
  function Held(m1: nat, f: pixel, n: nat): nat
    decreases n
  {
    if n == 0 then m1 else Held(Mean(m1, f), f, n - 1)
  }

  predicate Settled(m1: nat, f: pixel) {
    256 * f - 3 <= m1 <= 256 * f
  }

  /** One frame moves the mean towards the input without crossing it, and leaves it where it
      is exactly when it has settled. */
  lemma MeanApproaches(m1: nat, f: pixel)
    ensures m1 <= 256 * f ==> m1 <= Mean(m1, f) <= 256 * f
    ensures m1 >= 256 * f ==> 256 * f <= Mean(m1, f) <= m1
    ensures Mean(m1, f) == m1 <==> Settled(m1, f)
  {
  }

  /** What is left of a distance after one frame, from below and from above. */
  function FromBelow(d: nat): nat {
    (179 * d + 255) / 256
  }

  function FromAbove(d: nat): nat {
    179 * d / 256
  }

  function Below(d: nat, n: nat): nat {
    if n == 0 then d else Below(FromBelow(d), n - 1)
  }

  function Above(d: nat, n: nat): nat {
    if n == 0 then d else Above(FromAbove(d), n - 1)
  }

  lemma MeanDistance(m1: nat, f: pixel)
    ensures m1 <= 256 * f ==> 256 * f - Mean(m1, f) == FromBelow(256 * f - m1)
    ensures m1 >= 256 * f ==> Mean(m1, f) - 256 * f == FromAbove(m1 - 256 * f)
  {
  }

  /** Held input: the distance evolves by itself, on one side. */
  lemma {:induction false} HeldDistance(m1: nat, f: pixel, n: nat)
    ensures m1 <= 256 * f ==> Held(m1, f, n) == 256 * f - Below(256 * f - m1, n)
    ensures m1 >= 256 * f ==> Held(m1, f, n) == 256 * f + Above(m1 - 256 * f, n)
    decreases n
  {
    if n > 0 {
      MeanDistance(m1, f);
      HeldDistance(Mean(m1, f), f, n - 1);
    }
  }

  lemma {:induction false} DistanceMonotone(d: nat, e: nat, n: nat)
    requires d <= e
    ensures Below(d, n) <= Below(e, n) && Above(d, n) <= Above(e, n)
    decreases n
  {
    if n > 0 {
      DistanceMonotone(FromBelow(d), FromBelow(e), n - 1);
      DistanceMonotone(FromAbove(d), FromAbove(e), n - 1);
    }
  }

  /** The largest distance there is, frame by frame. */
  const BELOW_ORBIT: seq<nat> :=
    [65280, 45645, 31916, 22317, 15605, 10912, 7630, 5336, 3732, 2610, 1825, 1277, 893, 625, 438]
    + [307, 215, 151, 106, 75, 53, 38, 27, 19, 14, 10, 7, 5, 4, 3]
  const ABOVE_ORBIT: seq<nat> :=
    [65280, 45645, 31915, 22315, 15603, 10909, 7627, 5332, 3728, 2606, 1822, 1273, 890, 622, 434]
    + [303, 211, 147, 102, 71, 49, 34, 23, 16, 11, 7, 4, 2, 1, 0]

  lemma {:induction false} BelowFollows(orbit: seq<nat>, n: nat)
    requires n < |orbit| && forall i :: 0 <= i < |orbit| - 1 ==> orbit[i + 1] == FromBelow(orbit[i])
    ensures Below(orbit[0], n) == orbit[n]
    decreases n
  {
    if n > 0 {
      BelowFollows(orbit[1..], n - 1);
    }
  }

  lemma {:induction false} AboveFollows(orbit: seq<nat>, n: nat)
    requires n < |orbit| && forall i :: 0 <= i < |orbit| - 1 ==> orbit[i + 1] == FromAbove(orbit[i])
    ensures Above(orbit[0], n) == orbit[n]
    decreases n
  {
    if n > 0 {
      AboveFollows(orbit[1..], n - 1);
    }
  }

  lemma LargestDistance()
    ensures Below(MAX_MEAN, 28) > 3 && Below(MAX_MEAN, 29) <= 3
    ensures Above(MAX_MEAN, 28) > 0 && Above(MAX_MEAN, 29) == 0
  {
    hide Below, Above;
    BelowFollows(BELOW_ORBIT, 28);
    BelowFollows(BELOW_ORBIT, 29);
    AboveFollows(ABOVE_ORBIT, 28);
    AboveFollows(ABOVE_ORBIT, 29);
  }

  /** Convergence: from every stored mean, 29 frames of the same input settle it. */
  lemma SettlesIn29(m1: nat, f: pixel)
    requires m1 <= MAX_MEAN
    ensures Settled(Held(m1, f, 29), f)
  {
    HeldDistance(m1, f, 29);
    LargestDistance();
    if m1 <= 256 * f {
      DistanceMonotone(256 * f - m1, MAX_MEAN, 29);
    } else {
      DistanceMonotone(m1 - 256 * f, MAX_MEAN, 29);
    }
  }

  /** 28 frames do not always suffice, in either direction. */
  lemma TwentyEightIsTooFew()
    ensures !Settled(Held(0, 255, 28), 255) && !Settled(Held(MAX_MEAN, 0, 28), 0)
  {
    HeldDistance(0, 255, 28);
    HeldDistance(MAX_MEAN, 0, 28);
    LargestDistance();
  }

  lemma {:induction false} StaysSettled(m1: nat, f: pixel, n: nat)
    requires Settled(m1, f)
    ensures Held(m1, f, n) == m1
    decreases n
  {
    if n > 0 {
      MeanApproaches(m1, f);
      StaysSettled(m1, f, n - 1);
    }
  }

  lemma {:induction false} HeldSplits(m1: nat, f: pixel, a: nat, b: nat)
    ensures Held(m1, f, a + b) == Held(Held(m1, f, a), f, b)
    decreases a
  {
    if a > 0 {
      HeldSplits(Mean(m1, f), f, a - 1, b);
    }
  }

  /** From frame 29 on the mean is settled and no longer changes. */
  lemma SettledForGood(m1: nat, f: pixel, n: nat)
    requires m1 <= MAX_MEAN && n >= 29
    ensures Settled(Held(m1, f, n), f) && Held(m1, f, n) == Held(m1, f, 29)
  {
    hide Held, Mean, Settled;
    SettlesIn29(m1, f);
    HeldSplits(m1, f, 29, n - 29);
    StaysSettled(Held(m1, f, 29), f, n - 29);
  }

  // ----- a static pixel in a moving history -----

  function Repeat(f: pixel, n: nat): (fs: seq<pixel>)
    ensures |fs| == n
  {
    if n == 0 then [] else Repeat(f, n - 1) + [f]
  }

  /** The second moment after n frames of the same input. */
  function HeldSecond(m2: nat, f: pixel, n: nat): nat
    decreases n
  {
    if n == 0 then m2 else Second(HeldSecond(m2, f, n - 1), f)
  }

  lemma HistoryOfOneMore(fs: seq<pixel>, f: pixel)
    ensures History(fs + [f]) == Update(History(fs), f)
  {
    assert (fs + [f])[..|fs|] == fs;
  }

  lemma HeldLast(m1: nat, f: pixel, n: nat)
    ensures Held(m1, f, n + 1) == Mean(Held(m1, f, n), f)
  {
    hide Mean;
    HeldSplits(m1, f, n, 1);
    assert Held(Held(m1, f, n), f, 1) == Held(Mean(Held(m1, f, n), f), f, 0);
  }

  /** History at work: the stored moments after any frames and n more of the same input. */
  lemma {:induction false} HistoryOfHeld(fs: seq<pixel>, f: pixel, n: nat)
    ensures History(fs + Repeat(f, n)).m1 == Held(History(fs).m1, f, n)
    ensures History(fs + Repeat(f, n)).m2 == HeldSecond(History(fs).m2, f, n)
    decreases n
  {
    hide Mean, Second, History, Held;
    if n == 0 {
      assert fs + [] == fs;
      HeldNone(History(fs).m1, f);
    } else {
      HistoryOfHeld(fs, f, n - 1);
      HeldLast(History(fs).m1, f, n - 1);
      HistoryOfOneMore(fs + Repeat(f, n - 1), f);
      assert fs + Repeat(f, n) == (fs + Repeat(f, n - 1)) + [f];
    }
  }

  lemma HeldNone(m1: nat, f: pixel)
    ensures Held(m1, f, 0) == m1
  {
  }

  lemma SecondDistance(m2: nat, f: pixel, d: nat)
    requires m2 <= 256 * (f * f) + d
    ensures Second(m2, f) <= 256 * (f * f) + FromAbove(d)
  {
  }

  lemma {:induction false} AboveSplits(d: nat, n: nat)
    ensures Above(d, n + 1) == FromAbove(Above(d, n))
    decreases n
  {
    if n > 0 {
      AboveSplits(FromAbove(d), n - 1);
    }
  }

  lemma {:induction false} HeldSecondBound(m2: nat, f: pixel, n: nat)
    requires m2 <= MAX_SECOND
    ensures HeldSecond(m2, f, n) <= 256 * (f * f) + Above(MAX_SECOND, n)
    decreases n
  {
    hide Second, FromAbove;
    SquareNonneg(f);
    if n > 0 {
      HeldSecondBound(m2, f, n - 1);
      SecondDistance(HeldSecond(m2, f, n - 1), f, Above(MAX_SECOND, n - 1));
      AboveSplits(MAX_SECOND, n - 1);
    }
  }

  const SECOND_ORBIT: seq<nat> :=
    [16646400, 11639475, 8138539, 5690619, 3978987, 2782182, 1945353, 1360227, 951096, 665024, 464997, 325134]
    + [227339, 158959, 111147, 77716, 54340, 37995, 26566, 18575, 12987, 9080, 6348, 4438, 3103, 2169, 1516, 1060, 741, 518]

  lemma LargestSecond()
    ensures Above(MAX_SECOND, 29) < 17670
  {
    hide Above;
    AboveFollows(SECOND_ORBIT, 29);
  }

  lemma SettledVariance(m1: nat, m2: nat, f: pixel)
    requires Settled(m1, f) && m2 <= 256 * (f * f) + 17669
    ensures Variance(m1, m2) < 19200
  {
    var t := 256 * f - m1;
    assert m1 * m1 == 256 * (256 * (f * f)) - 512 * (f * t) + t * t;
    assert 0 <= t * t && 512 * (f * t) <= 512 * 765;
  }

  /** A pixel that holds still for 29 frames is replaced, whatever came before: by its value when
      the mean has reached it, and by one less when the mean has stopped short of it. */
  lemma StaticPixelIsReplaced(fs: seq<pixel>, f: pixel, n: nat)
    requires n >= 29
    ensures var m := History(fs + Repeat(f, n));
            && Replaces(m, f) && 256 * f - 3 <= m.m1 <= 256 * f
            && Output(m, f) == if m.m1 == 256 * f then f else f - 1
  {
    hide Held, HeldSecond, History, Above, Variance, Replaces, Settled, Output, Repeat;
    var past, m := fs + Repeat(f, n - 29), History(fs + Repeat(f, n));
    RepeatSplits(f, n - 29, 29);
    assert fs + Repeat(f, n) == past + Repeat(f, 29);
    HistoryOfHeld(past, f, 29);
    HistoryIsSound(past);
    SettlesIn29(History(past).m1, f);
    HeldSecondBound(History(past).m2, f, 29);
    LargestSecond();
    SettledVariance(m.m1, m.m2, f);
    SettledIsReplaced(m, f);
  }

  lemma SettledIsReplaced(m: Moments, f: pixel)
    requires Settled(m.m1, f) && Variance(m.m1, m.m2) < 19200
    ensures Replaces(m, f) && 256 * f - 3 <= m.m1 <= 256 * f
    ensures Output(m, f) == if m.m1 == 256 * f then f else f - 1
  {
    ReplacesExactly(m, f);
  }

  lemma {:induction false} RepeatSplits(f: pixel, a: nat, b: nat)
    ensures Repeat(f, a + b) == Repeat(f, a) + Repeat(f, b)
    decreases b
  {
    if b == 0 {
      assert Repeat(f, a) + [] == Repeat(f, a);
    } else {
      RepeatSplits(f, a, b - 1);
    }
  }
}
