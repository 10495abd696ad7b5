/** The temporal denoiser: two arrays of moments, updated in place together with the frame
    (UnitTest.c, lines 29-144). */
module Denoiser {
  import opened DenoiserArithmetic

  const SUBSAMPLING_TIME: int := 0

  /** Pixels that a frame replaces, given the moments after it. */
  function ReplacedPixels(after: seq<Moments>, frame: seq<pixel>): (r: set<nat>)
    requires |after| <= |frame|
    ensures forall i: nat :: i in r <==> i < |after| && Replaces(after[i], frame[i])
  {
    set i: nat | i < |after| && Replaces(after[i], frame[i])
  }

  lemma OneMorePixel(after: seq<Moments>, frame: seq<pixel>)
    requires after != [] && |after| <= |frame|
    ensures var n := |after| - 1;
            |ReplacedPixels(after, frame)|
            == |ReplacedPixels(after[..n], frame)| + (if Replaces(after[n], frame[n]) then 1 else 0)
  {
    hide Replaces;
    var n := |after| - 1;
    var r, r' := ReplacedPixels(after[..n], frame), ReplacedPixels(after, frame);
    assert forall i :: i in r' <==> i in r || (i == n && Replaces(after[n], frame[n]));
    assert r' == if Replaces(after[n], frame[n]) then r + {n} else r;
  }

  function Updated(before: seq<Moments>, frame: seq<pixel>): (after: seq<Moments>)
    requires |before| <= |frame|
    ensures |after| == |before| && forall i :: 0 <= i < |before| ==> after[i] == Update(before[i], frame[i])
  {
    seq(|before|, i requires 0 <= i < |before| => Update(before[i], frame[i]))
  }

  class Denoiser {
    var moment1: array?<nat>
    var moment2: array?<nat>
    var frameSize: nat
    var frameCnt: int

    /** The frames since the size last changed. */
    ghost var history: seq<seq<pixel>>

    /** The moments of every pixel are those of its history; every frame is sampled. */
    ghost predicate Valid()
      reads this, moment1, moment2
    {
      && frameCnt == 0
      && (moment1 == null <==> frameSize == 0) && (moment2 == null <==> frameSize == 0)
      && (forall k :: 0 <= k < |history| ==> |history[k]| == frameSize)
      && (frameSize > 0 ==>
            moment1 != moment2 && moment1.Length == frameSize && moment2.Length == frameSize
            && forall i :: 0 <= i < frameSize ==> Moments(moment1[i], moment2[i]) == History(Column(history, i)))
    }

    ghost function Kept(): (ms: seq<Moments>)
      requires Valid()
      reads this, moment1, moment2
      ensures |ms| == frameSize
    {
      if frameSize == 0 then []
      else seq(frameSize, i requires 0 <= i < frameSize && moment1 != null && moment2 != null
                            && moment1.Length == frameSize && moment2.Length == frameSize
                            reads this, moment1, moment2 => Moments(moment1[i], moment2[i]))
    }

    constructor ()
      ensures Valid() && frameSize == 0 && history == []
    {
      moment1, moment2, frameSize, frameCnt := null, null, 0, 0;
      history := [];
    }

    /** One pixel: both filters in 32-bit arithmetic, then the decision. */
    method ProcessPixel(m1: array<nat>, m2: array<nat>, frame: array<pixel>, k: nat) returns (changed: bool)
      requires k < m1.Length && k < m2.Length && k < frame.Length && m1 != m2
      requires Sound(Moments(m1[k], m2[k])) && frameCnt == 0
      modifies m1, m2, frame
      ensures var n := Update(old(Moments(m1[k], m2[k])), old(frame[k]));
              && Sound(n) && m1[k] == n.m1 && m2[k] == n.m2
              && frame[k] == Output(n, old(frame[k])) && changed == Replaces(n, old(frame[k]))
      ensures forall i :: 0 <= i < m1.Length && i != k ==> m1[i] == old(m1[i])
      ensures forall i :: 0 <= i < m2.Length && i != k ==> m2[i] == old(m2[i])
      ensures forall i :: 0 <= i < frame.Length && i != k ==> frame[i] == old(frame[i])
    {
      hide U32, I32, Mean, Second, Sound;
      ghost var was := Moments(m1[k], m2[k]);
      var f: int := frame[k];
      UpdateKeepsSound(was, f);
      SoundBounds(was);
      MachineMean(was.m1, f);
      MachineSecond(was.m2, f);
      DeviationBound(was.m1, f);
      MachineDecision(Update(was, f), f);

      var tmpMoment1 := m1[k];
      tmpMoment1 := U32(tmpMoment1 * KEEP);
      tmpMoment1 := U32(tmpMoment1 + U32(U32(ADMIT * f) * 256));
      tmpMoment1 := tmpMoment1 / 256;
      m1[k] := tmpMoment1;

      var tmpMoment2 := m2[k];
      if frameCnt == 0 {
        var tmp := U32(f * f);
        tmpMoment2 := U32(tmpMoment2 * KEEP);
        tmpMoment2 := U32(tmpMoment2 + U32(U32(ADMIT * tmp) * 256));
        tmpMoment2 := tmpMoment2 / 256;
      }
      m2[k] := tmpMoment2;

      var diff0 := I32(U32(256 * f - m1[k]));
      var theVar := I32(m2[k]);
      theVar := I32(U32(theVar - U32(m1[k] * m1[k]) / 256));
      changed := theVar < THRESHOLD && I32(diff0 * diff0) / 256 < THRESHOLD;
      if changed {
        frame[k] := m1[k] / 256;
      }
    }

    /** ProcessFrame. Width and height are such that the 32-bit product is the frame's size. The
        moments go on from the frame before while the size stays, and start from zero when it
        changes. */
    method ProcessFrame(frame: array?<pixel>, width: nat, height: nat) returns (count: int)
      requires Valid() && width < TWO_32 && height < TWO_32 && width * height < TWO_32
      requires frame != null ==> width * height <= frame.Length
      modifies this, moment1, moment2, frame
      ensures Valid()
      ensures frame == null || width == 0 || height == 0 ==>
                count == -1 && Kept() == old(Kept()) && history == old(history)
                && (frame != null ==> frame[..] == old(frame[..]))
      ensures frame != null && width > 0 && height > 0 ==>
                var n := width * height;
                && frameSize == n
                && history == (if old(frameSize) == n then old(history) else []) + [old(frame[..n])]
                && (forall i :: 0 <= i < n ==>
                      Kept()[i] == Update(if old(frameSize) == n then old(Kept())[i] else Moments(0, 0), old(frame[i])))
                && (forall i :: 0 <= i < n ==> frame[i] == Output(Kept()[i], old(frame[i])))
                && (forall i :: n <= i < frame.Length ==> frame[i] == old(frame[i]))
                && count == |ReplacedPixels(Kept(), old(frame[..]))|
    {
      if frame == null {
        return -1;
      }
      if width == 0 || height == 0 {
        return -1;
      }
      hide Update, Output, Replaces, History, Column, ReplacedPixels, Memories;
      SizePositive(width, height);
      ghost var kept, was, n := Kept(), frame[..], width * height;
      ghost var before := Memories(if frameSize == n then history else [], n);
      KeptAreMemories();
      NoMemories(n);
      count := FilterFrame(frame, width, height);
      KeptAreMemories();
      MemoriesGrow(if old(frameSize) == n then old(history) else [], was[..n]);
      assert Updated(before, was[..n]) == Updated(before, was);
    }

    ghost predicate Filtered(frame: array<pixel>, after: seq<Moments>, was: seq<pixel>)
      reads frame
    {
      |after| <= |was| == frame.Length
      && forall i :: 0 <= i < frame.Length ==> frame[i] == if i < |after| then Output(after[i], was[i]) else was[i]
    }

    /** A frame of a positive size. */
    method FilterFrame(frame: array<pixel>, width: nat, height: nat) returns (count: nat)
      requires Valid() && 0 < width * height <= frame.Length
      modifies this, moment1, moment2, frame
      ensures Valid() && frameSize == width * height
      ensures history == (if old(frameSize) == width * height then old(history) else []) + [old(frame[..width * height])]
      ensures var after := Memories(history, frameSize);
              Filtered(frame, after, old(frame[..])) && count == |ReplacedPixels(after, old(frame[..]))|
    {
      hide Update, Output, Replaces, History, Sound, Column, ReplacedPixels;
      ghost var was := frame[..];
      var ysize := width * height;
      ghost var past := if frameSize == ysize then history else [];
      ghost var before := Memories(past, ysize);
      Prepare(ysize);
      count := ProcessRows(frame, width, height, before, was);
      ghost var after := Updated(before, was);
      assert Updated(before, was[..ysize]) == after;
      MemoriesGrow(past, was[..ysize]);
      history := past + [was[..ysize]];
      frameCnt := frameCnt + 1;
      if frameCnt > SUBSAMPLING_TIME {
        frameCnt := 0;
      }
    }

    lemma KeptAreMemories()
      requires Valid()
      ensures frameSize > 0 ==> Kept() == Memories(history, frameSize)
    {
    }

    /** Initialization: other arrays, of zeros, when the size is another one. */
    method Prepare(ysize: nat)
      requires Valid() && ysize > 0
      modifies this`moment1, this`moment2, this`frameSize
      ensures frameSize == ysize && moment1 != null && moment2 != null && moment1 != moment2
      ensures moment1.Length == ysize && moment2.Length == ysize
      ensures moment1 == old(moment1) || fresh(moment1)
      ensures moment2 == old(moment2) || fresh(moment2)
      ensures forall i :: 0 <= i < ysize ==>
                Moments(moment1[i], moment2[i]) == if old(frameSize) == ysize then old(Kept())[i] else Moments(0, 0)
      ensures forall i :: 0 <= i < ysize ==>
                Moments(moment1[i], moment2[i]) == History(Column(if old(frameSize) == ysize then history else [], i))
    {
      if ysize != frameSize {
        moment1 := null;
        moment2 := null;
      }
      frameSize := ysize;
      if moment1 == null {
        moment1 := new nat[ysize](_ => 0);
      }
      if moment2 == null {
        moment2 := new nat[ysize](_ => 0);
      }
    }

    /** What the loops have done to the first k pixels, and what is still as it was. */
    ghost predicate Done(frame: array<pixel>, before: seq<Moments>, was: seq<pixel>, k: nat)
      reads this, moment1, moment2, frame
    {
      && moment1 != null && moment2 != null && moment1 != moment2
      && moment1.Length == |before| && moment2.Length == |before| && |before| <= frame.Length == |was| && k <= |before|
      && (forall i :: 0 <= i < |before| ==>
            Moments(moment1[i], moment2[i]) == if i < k then Update(before[i], was[i]) else before[i])
      && (forall i :: 0 <= i < frame.Length ==>
            frame[i] == if i < k then Output(Update(before[i], was[i]), was[i]) else was[i])
      && (forall i :: 0 <= i < |before| ==> Sound(before[i]))
    }

    method DoPixel(frame: array<pixel>, ghost before: seq<Moments>, ghost was: seq<pixel>, k: nat) returns (changed: bool)
      requires frameCnt == 0 && k < |before| && Done(frame, before, was, k)
      modifies moment1, moment2, frame
      ensures Done(frame, before, was, k + 1)
      ensures changed == Replaces(Update(before[k], was[k]), was[k])
    {
      hide Sound, Update, Output, Replaces;
      changed := ProcessPixel(moment1, moment2, frame, k);
    }

    /** The nested loops over rows and columns. */
    method ProcessRows(frame: array<pixel>, width: nat, height: nat, ghost before: seq<Moments>, ghost was: seq<pixel>)
      returns (count: nat)
      requires frameCnt == 0 && |before| == width * height && |before| <= |was| && Done(frame, before, was, 0)
      modifies moment1, moment2, frame
      ensures Done(frame, before, was, width * height)
      ensures count == |ReplacedPixels(Updated(before, was), was)|
    {
      hide Sound, Update, Output, Replaces, Done;
      count := 0;
      ghost var after := Updated(before, was);
      var i, k := 0, 0;
      while i < height
        invariant i <= height && k == i * width <= |before|
        invariant moment1 == old(moment1) && moment2 == old(moment2)
        invariant Done(frame, before, was, k)
        invariant count == |ReplacedPixels(after[..k], was)|
      {
        RowFits(i, width, height);
        var j := 0;
        while j < width
          invariant j <= width
          invariant moment1 == old(moment1) && moment2 == old(moment2)
          invariant Done(frame, before, was, k + j)
          invariant count == |ReplacedPixels(after[..k + j], was)|
        {
          var changed := DoPixel(frame, before, was, k + j);
          if changed {
            count := count + 1;
          }
          OneMorePixel(after[..k + j + 1], was);
          assert after[..k + j + 1][..k + j] == after[..k + j];
          j := j + 1;
        }
        i, k := i + 1, k + width;
      }
      assert after[..k] == after;
    }
  }

  /** Moments of every pixel after a run of frames. */
  function Memories(frames: seq<seq<pixel>>, n: nat): (ms: seq<Moments>)
    requires forall k :: 0 <= k < |frames| ==> |frames[k]| == n
    ensures |ms| == n
    ensures forall i :: 0 <= i < n ==> ms[i] == History(Column(frames, i)) && Sound(ms[i])
  {
    assert forall i :: 0 <= i < n ==> Sound(History(Column(frames, i))) by {
      forall i | 0 <= i < n
        ensures Sound(History(Column(frames, i)))
      {
        HistoryIsSound(Column(frames, i));
      }
    }
    seq(n, i requires 0 <= i < n => History(Column(frames, i)))
  }

  lemma NoMemories(n: nat)
    ensures forall i :: 0 <= i < n ==> Memories([], n)[i] == Moments(0, 0)
  {
  }

  lemma MemoriesGrow(frames: seq<seq<pixel>>, frame: seq<pixel>)
    requires forall k :: 0 <= k < |frames| ==> |frames[k]| == |frame|
    ensures Memories(frames + [frame], |frame|) == Updated(Memories(frames, |frame|), frame)
  {
    var n := |frame|;
    forall i | 0 <= i < n
      ensures Memories(frames + [frame], n)[i] == Updated(Memories(frames, n), frame)[i]
    {
      ColumnGrows(frames, frame, i);
    }
  }

  lemma SizePositive(width: nat, height: nat)
    requires width > 0 && height > 0
    ensures width * height > 0
  {
  }

  lemma RowFits(i: nat, width: nat, height: nat)
    requires i < height
    ensures (i + 1) * width == i * width + width <= width * height
  {
  }

  lemma SoundBounds(m: Moments)
    requires Sound(m)
    ensures m.m1 <= MAX_MEAN && m.m2 <= MAX_SECOND
  {
  }
}
