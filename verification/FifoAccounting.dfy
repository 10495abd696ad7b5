/** What the send queue's two counters say about the nodes linked, before and after they wrap
    at their limit, and what the overflow check makes of them
    (packed/packets_list.c, lines 252-255, 278-285 and 319-328). */
module FifoAccounting {
  import opened Bytes
  import opened FifoModel

  const TWO_32: int := 0x1_0000_0000
  const TWO_31: int := 0x8000_0000

  /** Counter values from one wrap to the next. */
  const LAP: int := MAX_LOOP_NUM + 1

  function Adds(ops: seq<Op>): nat {
    |Added(ops)|
  }

  function Offsets(ops: seq<Op>): nat {
    if ops == [] then 0 else (if ops[0].DoOffset? then 1 else 0) + Offsets(ops[1..])
  }

  /** Every offset leaves a node linked. */
  predicate KeepsSentinel(n: nat, ops: seq<Op>)
    decreases |ops|
  {
    ops == []
    || match ops[0]
       case DoAdd(_) => KeepsSentinel(n + 1, ops[1..])
       case DoOffset => n > 1 && KeepsSentinel(n - 1, ops[1..])
       case DoReset => KeepsSentinel(1, ops[1..])
  }

  /** A run that keeps the sentinel always goes through. */
  lemma {:induction false} SentinelSuffices(f: Fifo, ops: seq<Op>)
    requires f.packets != [] && KeepsSentinel(|f.packets|, ops)
    ensures Run(f, ops).Some? && Run(f, ops).value.packets != []
    decreases |ops|
  {
    if ops != [] {
      SentinelSuffices(Step(f, ops[0]).value, ops[1..]);
    }
  }

  // ----- before a counter wraps -----

  /** Nodes linked, by the counters: with the sentinel, one more than written and not sent. */
  predicate Accounted(f: Fifo, sentinel: bool) {
    |f.packets| == f.writeSize - f.sendSize + (if sentinel then 1 else 0) && (sentinel ==> f.packets != [])
  }

  /** After a reset, and before a counter can reach its limit, the counters say how many nodes
      are linked; an offset that drains the queue costs the one for the sentinel, for good. */
  lemma {:induction false} RunIsAccounted(f: Fifo, ops: seq<Op>, sentinel: bool)
    requires NoReset(ops) && Run(f, ops).Some?
    requires Accounted(f, sentinel) && f.writeSize + Adds(ops) < MAX_LOOP_NUM
    ensures Accounted(Run(f, ops).value, sentinel && KeepsSentinel(|f.packets|, ops))
    ensures Run(f, ops).value.writeSize == f.writeSize + Adds(ops)
    decreases |ops|
  {
    if ops != [] {
      var drains := ops[0].DoOffset? && |f.packets| == 1;
      RunIsAccounted(Step(f, ops[0]).value, ops[1..], sentinel && !drains);
    }
  }

  lemma ResetIsAccounted(f: Fifo, ops: seq<Op>)
    requires NoReset(ops) && Run(Reset(f), ops).Some? && Adds(ops) < MAX_LOOP_NUM
    ensures Accounted(Run(Reset(f), ops).value, KeepsSentinel(1, ops))
    ensures Passed(Reset(f), ops) + Run(Reset(f), ops).value.packets == [[]] + Added(ops)
  {
    RunIsAccounted(Reset(f), ops, true);
    RunIsFifo(Reset(f), ops);
  }

  // ----- any number of laps -----

  predicate InRange(f: Fifo) {
    f.writeSize <= MAX_LOOP_NUM && f.sendSize <= MAX_LOOP_NUM
  }

  /** An offset now would leave the send counter where it is. */
  predicate Stalled(f: Fifo) {
    f.sendSize != MAX_LOOP_NUM && f.sendSize >= f.writeSize
  }

  function StalledOffsets(f: Fifo, ops: seq<Op>): nat
    decreases |ops|
  {
    if ops == [] then 0
    else
      match Step(f, ops[0])
      case None => 0
      case Some(g) => StallOf(f, ops[0]) + StalledOffsets(g, ops[1..])
  }

  /** How many nodes more than are linked the counters stand for, sentinel included, up to
      whole laps. */
  function Drift(f: Fifo): nat {
    (f.writeSize - f.sendSize + 1 - |f.packets|) % LAP
  }

  /** By how much one operation lets the counters drift. */
  function StallOf(f: Fifo, op: Op): nat {
    if op.DoOffset? && Stalled(f) then 1 else 0
  }

  lemma Laps(x: int, n: int)
    ensures (x % LAP + n) % LAP == (x + n) % LAP
    ensures (x + LAP) % LAP == x % LAP && (x - LAP) % LAP == x % LAP
  {
  }

  lemma DriftInLap(f: Fifo)
    ensures Drift(f) % LAP == Drift(f)
  {
  }

  lemma StepDrifts(f: Fifo, op: Op)
    requires InRange(f) && !op.DoReset? && Step(f, op).Some?
    ensures InRange(Step(f, op).value)
    ensures Drift(Step(f, op).value) == (Drift(f) + StallOf(f, op)) % LAP
  {
    var x := f.writeSize - f.sendSize + 1 - |f.packets|;
    Laps(x, StallOf(f, op));
    Laps(x, 0);
  }

  /** The whole account, of every run, however often the counters wrap: they drift by one with
      every offset that finds them stalled, and by nothing else. */
  lemma {:induction false} RunDrifts(f: Fifo, ops: seq<Op>)
    requires InRange(f) && NoReset(ops) && Run(f, ops).Some?
    ensures InRange(Run(f, ops).value)
    ensures Drift(Run(f, ops).value) == (Drift(f) + StalledOffsets(f, ops)) % LAP
    decreases |ops|
  {
    hide Drift, StallOf, Step;
    if ops == [] {
      DriftInLap(f);
    } else {
      StepDrifts(f, ops[0]);
      RunDrifts(Step(f, ops[0]).value, ops[1..]);
      Laps(Drift(f) + StallOf(f, ops[0]), StalledOffsets(Step(f, ops[0]).value, ops[1..]));
    }
  }

  /** After a reset the counters stand for the nodes linked, up to whole laps, if and only if
      the number of stalled offsets is one of whole laps. */
  lemma CountersRightExactly(f: Fifo, ops: seq<Op>)
    requires NoReset(ops) && Run(Reset(f), ops).Some?
    ensures Drift(Run(Reset(f), ops).value) == 0 <==> StalledOffsets(Reset(f), ops) % LAP == 0
  {
    RunDrifts(Reset(f), ops);
  }

  /** What the counters and their flags count, over every run: adds, and offsets that were not
      stalled, each modulo a lap. The write flag says that the last add wrapped; the send flag
      stays up once the send counter has wrapped. */
  lemma {:induction false} CountersCount(f: Fifo, ops: seq<Op>) returns (writeLaps: nat, sendLaps: nat)
    requires InRange(f) && NoReset(ops) && Run(f, ops).Some?
    ensures var g := Run(f, ops).value;
            && f.writeSize + Adds(ops) == g.writeSize + LAP * writeLaps
            && f.sendSize + Offsets(ops) - StalledOffsets(f, ops) == g.sendSize + LAP * sendLaps
            && (g.writeLoop <==> if Adds(ops) == 0 then f.writeLoop else g.writeSize == 0)
            && (g.sendLoop <==> f.sendLoop || sendLaps > 0)
    decreases |ops|
  {
    writeLaps, sendLaps := 0, 0;
    if ops != [] {
      hide Step, StallOf;
      var g := Step(f, ops[0]).value;
      StepCounts(f, ops[0]);
      var w, s := CountersCount(g, ops[1..]);
      writeLaps := w + if ops[0].DoAdd? && f.writeSize == MAX_LOOP_NUM then 1 else 0;
      sendLaps := s + if ops[0].DoOffset? && f.sendSize == MAX_LOOP_NUM then 1 else 0;
    }
  }

  lemma StepCounts(f: Fifo, op: Op)
    requires InRange(f) && !op.DoReset? && Step(f, op).Some?
    ensures var g := Step(f, op).value;
            && InRange(g)
            && g.writeSize == f.writeSize + (if op.DoAdd? then if f.writeSize == MAX_LOOP_NUM then 1 - LAP else 1 else 0)
            && g.sendSize == f.sendSize
               + (if op.DoOffset? then (if f.sendSize == MAX_LOOP_NUM then 1 - LAP else 1) - StallOf(f, op) else 0)
            && (g.writeLoop <==> if op.DoAdd? then g.writeSize == 0 else f.writeLoop)
            && (g.sendLoop <==> f.sendLoop || (op.DoOffset? && f.sendSize == MAX_LOOP_NUM))
  {
  }

  /** From a reset: both counters and both flags by what was added and passed since. */
  lemma ResetCounts(f: Fifo, ops: seq<Op>) returns (writeLaps: nat, sendLaps: nat)
    requires NoReset(ops) && Run(Reset(f), ops).Some?
    ensures var g := Run(Reset(f), ops).value;
            && Adds(ops) == g.writeSize + LAP * writeLaps && g.writeSize <= MAX_LOOP_NUM
            && Offsets(ops) - StalledOffsets(Reset(f), ops) == g.sendSize + LAP * sendLaps && g.sendSize <= MAX_LOOP_NUM
            && (g.writeLoop <==> Adds(ops) > 0 && g.writeSize == 0)
            && (g.sendLoop <==> sendLaps > 0)
  {
    writeLaps, sendLaps := CountersCount(Reset(f), ops);
    RunDrifts(Reset(f), ops);
  }

  // ----- wrapping in step -----

  /** Packets waiting, by the counters, when at most the write counter has wrapped. */
  function Claimed(f: Fifo): int {
    f.writeSize - f.sendSize + if f.sendSize <= f.writeSize then 0 else LAP
  }

  /** The counters are right, and the send counter is not ahead or waits at its limit while
      the write counter has wrapped. */
  predicate InStep(f: Fifo) {
    && InRange(f) && f.packets != []
    && (f.sendSize <= f.writeSize || f.sendSize == MAX_LOOP_NUM)
    && |f.packets| - 1 == Claimed(f)
  }

  /** Every add that wraps finds only the sentinel linked, and none fills a whole lap. */
  predicate WrapsInStep(f: Fifo, ops: seq<Op>)
    decreases |ops|
  {
    ops == []
    || match Step(f, ops[0])
       case None => false
       case Some(g) =>
         (ops[0].DoAdd? ==> |f.packets| < LAP && (f.writeSize == MAX_LOOP_NUM ==> |f.packets| == 1))
         && WrapsInStep(g, ops[1..])
  }

  lemma StaysInStep(f: Fifo, op: Op)
    requires InStep(f) && !op.DoReset?
    requires op.DoAdd? ==> |f.packets| < LAP && (f.writeSize == MAX_LOOP_NUM ==> |f.packets| == 1)
    requires op.DoOffset? ==> |f.packets| > 1
    ensures Step(f, op).Some? && InStep(Step(f, op).value) && StallOf(f, op) == 0
  {
  }

  /** Then the counters stay right over any number of laps and no offset stalls. */
  lemma {:induction false} LapsInStep(f: Fifo, ops: seq<Op>)
    requires InStep(f) && NoReset(ops) && KeepsSentinel(|f.packets|, ops) && WrapsInStep(f, ops)
    ensures Run(f, ops).Some? && InStep(Run(f, ops).value) && StalledOffsets(f, ops) == 0
    decreases |ops|
  {
    if ops != [] {
      StaysInStep(f, ops[0]);
      LapsInStep(Step(f, ops[0]).value, ops[1..]);
    }
  }

  // ----- wrapping out of step -----

  /** A send counter that the write counter has left behind stands still until that has
      caught up, whatever is taken from the queue. */
  lemma {:induction false} SendStandsStill(f: Fifo, ops: seq<Op>)
    requires NoReset(ops) && Run(f, ops).Some?
    requires f.writeSize + Adds(ops) <= f.sendSize < MAX_LOOP_NUM
    ensures var g := Run(f, ops).value;
            && g.sendSize == f.sendSize && g.writeSize == f.writeSize + Adds(ops)
            && |g.packets| == |f.packets| + Adds(ops) - Offsets(ops)
            && StalledOffsets(f, ops) == Offsets(ops)
    decreases |ops|
  {
    if ops != [] {
      SendStandsStill(Step(f, ops[0]).value, ops[1..]);
    }
  }

  /** A wrapping add keeps the account if and only if the send counter is at its limit too, that
      is, if only the sentinel is linked. Asked of any later run with an offset in it, as
      long as the write counter has not come up to where the send counter was. */
  lemma WrapKeepsAccountExactly(f: Fifo, p: seq<byte>, ops: seq<Op>)
    requires f.writeSize == MAX_LOOP_NUM && f.sendSize <= MAX_LOOP_NUM && Accounted(f, true)
    requires NoReset(ops) && KeepsSentinel(|f.packets| + 1, ops)
    requires Adds(ops) < f.sendSize && Offsets(ops) > 0
    ensures Run(Add(f, p), ops).Some?
    ensures |Run(Add(f, p), ops).value.packets| - 1 == Claimed(Run(Add(f, p), ops).value)
            <==> f.sendSize == MAX_LOOP_NUM
  {
    var g := Add(f, p);
    SentinelSuffices(g, ops);
    if f.sendSize == MAX_LOOP_NUM {
      StepsBeforeLimit(g, ops);
    } else {
      SendStandsStill(g, ops);
    }
  }

  /** In step, and with too few adds to wrap again. */
  lemma {:induction false} StepsBeforeLimit(f: Fifo, ops: seq<Op>)
    requires InStep(f) && NoReset(ops) && KeepsSentinel(|f.packets|, ops)
    requires f.writeSize + Adds(ops) < MAX_LOOP_NUM
    ensures Run(f, ops).Some? && InStep(Run(f, ops).value)
    decreases |ops|
  {
    if ops != [] {
      StaysInStep(f, ops[0]);
      StepsBeforeLimit(Step(f, ops[0]).value, ops[1..]);
    }
  }

  // ----- a run that reaches the failure -----

  /** One packet in, one node passed, n times. */
  function Churn(n: nat, p: seq<byte>, after: seq<Op>): (ops: seq<Op>)
    ensures NoReset(after) ==> NoReset(ops)
    ensures KeepsSentinel(1, ops) <==> KeepsSentinel(1, after)
  {
    if n == 0 then after else [DoAdd(p), DoOffset] + Churn(n - 1, p, after)
  }

  lemma {:induction false} ChurnCounts(f: Fifo, n: nat, p: seq<byte>, after: seq<Op>) returns (g: Fifo)
    requires |f.packets| == 1 && f.writeSize == f.sendSize && f.writeSize + n < MAX_LOOP_NUM
    ensures |g.packets| == 1 && g.writeSize == g.sendSize == f.writeSize + n
    ensures Run(f, Churn(n, p, after)) == Run(g, after)
    decreases n
  {
    if n == 0 {
      g := f;
    } else {
      var rest := Churn(n - 1, p, after);
      var added := Add(f, p);
      g := ChurnCounts(Offset(added), n - 1, p, after);
      assert Churn(n, p, after)[1..] == [DoOffset] + rest && ([DoOffset] + rest)[1..] == rest;
      assert Run(added, [DoOffset] + rest) == Run(Offset(added), rest);
    }
  }

  /** Two packets in, two nodes passed. */
  function TwoAndTwo(p: seq<byte>): seq<Op> {
    [DoAdd(p), DoAdd(p), DoOffset, DoOffset]
  }

  lemma TwoAndTwoRuns(f: Fifo, p: seq<byte>)
    requires |f.packets| == 1
    ensures NoReset(TwoAndTwo(p)) && KeepsSentinel(1, TwoAndTwo(p))
    ensures Run(f, TwoAndTwo(p)) == Some(Offset(Offset(Add(Add(f, p), p))))
  {
    var last, offsets, after := [DoOffset], [DoOffset, DoOffset], TwoAndTwo(p);
    var late := [DoAdd(p)] + offsets;
    assert last[1..] == [] && offsets[1..] == last && late[1..] == offsets && after[1..] == late;
    assert KeepsSentinel(2, last) && KeepsSentinel(3, offsets) && KeepsSentinel(2, late);
    var g := Add(Add(f, p), p);
    assert Run(Offset(g), last) == Run(Offset(Offset(g)), []) == Some(Offset(Offset(g)));
    assert Run(g, offsets) == Run(Offset(g), last);
    assert Run(Add(f, p), late) == Run(g, offsets);
  }

  /** After a reset there is a run without a reset that always leaves a node linked, ends with
      no packet waiting, and has the overflow check see 294967297. */
  lemma EmptyQueueOverflows(f: Fifo, p: seq<byte>) returns (ops: seq<Op>)
    ensures NoReset(ops) && KeepsSentinel(1, ops)
    ensures Run(Reset(f), ops).Some? && |Run(Reset(f), ops).value.packets| == 1
    ensures var g := Run(Reset(f), ops).value;
            forall n: nat :: Overflows(g.sendSize, g.writeSize, n) <==> 294_967_297 > n
  {
    var g := ChurnCounts(Reset(f), MAX_LOOP_NUM - 1, p, TwoAndTwo(p));
    TwoAndTwoRuns(g, p);
    ops := Churn(MAX_LOOP_NUM - 1, p, TwoAndTwo(p));
  }

  // ----- overflow check -----

  /** abs of a 32-bit difference read as signed, then compared as unsigned. */
  function Magnitude(send: nat, write: nat): nat {
    var d := (write - send) % TWO_32;
    if d < TWO_31 then d else TWO_32 - d
  }

  /** packet_list_check_overflow. */
  predicate Overflows(send: nat, write: nat, bufSize: nat) {
    Magnitude(send, write) > bufSize
  }

  /** In step the check compares the packets waiting, with 294967295 too many of them from a
      wrap of the write counter to the next offset. */
  lemma OverflowInStep(f: Fifo, bufSize: nat)
    requires InStep(f)
    requires |f.packets| - 1 + (if f.sendSize <= f.writeSize then 0 else 294_967_295) < TWO_31
    ensures Overflows(f.sendSize, f.writeSize, bufSize)
            <==> |f.packets| - 1 + (if f.sendSize <= f.writeSize then 0 else 294_967_295) > bufSize
  {
  }

  /** Over every run from a reset that keeps the sentinel and in which no counter reaches its
      limit, with fewer than 2^31 packets waiting at its end, the check is exact. */
  lemma OverflowExactly(f: Fifo, ops: seq<Op>, bufSize: nat)
    requires NoReset(ops) && KeepsSentinel(1, ops) && Adds(ops) < MAX_LOOP_NUM
    ensures Run(Reset(f), ops).Some?
    ensures var g := Run(Reset(f), ops).value;
            |g.packets| - 1 < TWO_31 ==>
              (Overflows(g.sendSize, g.writeSize, bufSize) <==> |g.packets| - 1 > bufSize)
  {
    SentinelSuffices(Reset(f), ops);
    ResetIsAccounted(f, ops);
  }

  /** And over every run that wraps in step, however often. */
  lemma OverflowOverLaps(f: Fifo, ops: seq<Op>, bufSize: nat)
    requires NoReset(ops) && KeepsSentinel(1, ops) && WrapsInStep(Reset(f), ops)
    ensures Run(Reset(f), ops).Some?
    ensures var g := Run(Reset(f), ops).value;
            var seen := |g.packets| - 1 + if g.sendSize <= g.writeSize then 0 else 294_967_295;
            seen < TWO_31 ==> (Overflows(g.sendSize, g.writeSize, bufSize) <==> seen > bufSize)
  {
    LapsInStep(Reset(f), ops);
    var g := Run(Reset(f), ops).value;
    if |g.packets| - 1 + (if g.sendSize <= g.writeSize then 0 else 294_967_295) < TWO_31 {
      OverflowInStep(g, bufSize);
    }
  }
}
