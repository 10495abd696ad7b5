/** The buffer pool as two sequences: blocks handed out, in the order they were handed out, and
    blocks waiting for reuse, in the order they came back. */
module PoolModel {

  datatype Pool<T> = Pool(used: seq<T>, free: seq<T>)

  /** A block waiting for reuse goes first; otherwise `extra` is added to the pool. */
  function Malloc<T>(p: Pool<T>, extra: T): Pool<T> {
    if p.free == [] then Pool(p.used + [extra], [])
    else Pool(p.used + [p.free[0]], p.free[1..])
  }

  function Without<T(==)>(s: seq<T>, x: T): (r: seq<T>)
    ensures |r| == |s| - if x in s then 1 else 0
  {
    if s == [] then []
    else if s[0] == x then s[1..]
    else [s[0]] + Without(s[1..], x)
  }

  /** A block that is in use moves to the end of the waiting ones; any other is ignored. */
  function Free<T(==)>(p: Pool<T>, x: T): Pool<T> {
    if x in p.used then Pool(Without(p.used, x), p.free + [x]) else p
  }

  datatype Op<T> = DoMalloc(extra: T) | DoFree(x: T)

  function Step<T(==)>(p: Pool<T>, op: Op<T>): Pool<T> {
    match op
    case DoMalloc(b) => Malloc(p, b)
    case DoFree(x) => Free(p, x)
  }

  function Run<T(==)>(p: Pool<T>, ops: seq<Op<T>>): Pool<T>
    decreases |ops|
  {
    if ops == [] then p else Run(Step(p, ops[0]), ops[1..])
  }

  ghost predicate Distinct<T>(s: seq<T>) {
    forall i, j :: 0 <= i < j < |s| ==> s[i] != s[j]
  }

  /** Memory that malloc adds is not yet in the pool. */
  ghost predicate Legal<T>(p: Pool<T>, ops: seq<Op<T>>)
    decreases |ops|
  {
    ops == [] || ((ops[0].DoMalloc? ==> ops[0].extra !in p.used && ops[0].extra !in p.free) && Legal(Step(p, ops[0]), ops[1..]))
  }

  // ----- partition -----

  lemma {:induction false} WithoutKeeps<T>(s: seq<T>, x: T)
    requires Distinct(s)
    ensures Distinct(Without(s, x)) && x !in Without(s, x)
    ensures forall y :: y in Without(s, x) <==> y in s && y != x
    decreases |s|
  {
    if s != [] {
      if s[0] == x {
        assert forall y :: y in s <==> y == s[0] || y in s[1..];
      } else {
        WithoutKeeps(s[1..], x);
        assert forall y :: y in s <==> y == s[0] || y in s[1..];
        assert s[0] !in s[1..];
      }
    }
  }

  lemma {:induction false} WithoutAt<T>(s: seq<T>, k: nat)
    requires Distinct(s) && k < |s|
    ensures Without(s, s[k]) == s[..k] + s[k + 1..]
    decreases |s|
  {
    if k > 0 {
      WithoutAt(s[1..], k - 1);
      assert [s[0]] + (s[1..][..k - 1] + s[1..][k..]) == s[..k] + s[k + 1..];
    }
  }

  /** No block is in the pool twice. */
  lemma StepKeepsDistinct<T>(p: Pool<T>, op: Op<T>)
    requires Distinct(p.used + p.free) && Legal(p, [op])
    ensures var q := Step(p, op); Distinct(q.used + q.free)
    ensures var q := Step(p, op);
            forall y :: y in q.used + q.free <==> y in p.used + p.free || (op.DoMalloc? && p.free == [] && y == op.extra)
  {
    match op {
      case DoMalloc(b) =>
        if p.free != [] {
          assert Malloc(p, b).used + Malloc(p, b).free == p.used + p.free;
        } else {
          assert p.used + p.free == p.used;
        }
      case DoFree(x) =>
        if x in p.used {
          PrefixDistinct(p.used, p.free);
          WithoutKeeps(p.used, x);
          var w := Without(p.used, x);
          AppendDistinct(w, p.free);
          AppendDistinct(w + p.free, [x]);
          assert w + (p.free + [x]) == w + p.free + [x];
        }
    }
  }

  /** Over a whole run the two lists stay disjoint and hold each block at most once. */
  lemma {:induction false} RunKeepsDistinct<T>(p: Pool<T>, ops: seq<Op<T>>)
    requires Distinct(p.used + p.free) && Legal(p, ops)
    ensures var q := Run(p, ops); Distinct(q.used + q.free)
    decreases |ops|
  {
    if ops != [] {
      StepKeepsDistinct(p, ops[0]);
      RunKeepsDistinct(Step(p, ops[0]), ops[1..]);
    }
  }

  lemma AppendDistinct<T>(a: seq<T>, b: seq<T>)
    requires Distinct(a) && Distinct(b) && forall x :: x in a ==> x !in b
    ensures Distinct(a + b)
  {
    forall i, j | 0 <= i < j < |a + b|
      ensures (a + b)[i] != (a + b)[j]
    {
      if i < |a| <= j {
        assert a[i] in a && b[j - |a|] in b;
      }
    }
  }

  lemma PrefixDistinct<T>(a: seq<T>, b: seq<T>)
    requires Distinct(a + b)
    ensures Distinct(a) && Distinct(b)
    ensures forall x :: x in a ==> x !in b
  {
    forall i, j | 0 <= i < |a| && 0 <= j < |b|
      ensures a[i] != b[j]
    {
      assert (a + b)[i] != (a + b)[|a| + j];
    }
    forall i, j | 0 <= i < j < |a|
      ensures a[i] != a[j]
    {
      assert (a + b)[i] != (a + b)[j];
    }
    forall i, j | 0 <= i < j < |b|
      ensures b[i] != b[j]
    {
      assert (a + b)[|a| + i] != (a + b)[|a| + j];
    }
  }

  // ----- growth -----

  function Total<T>(p: Pool<T>): nat {
    |p.used| + |p.free|
  }

  function Max(a: nat, b: nat): nat {
    if a > b then a else b
  }

  /** Largest number of blocks in use at once, over a run. */
  function Peak<T(==)>(p: Pool<T>, ops: seq<Op<T>>): nat
    decreases |ops|
  {
    if ops == [] then |p.used| else Max(|p.used|, Peak(Step(p, ops[0]), ops[1..]))
  }

  lemma {:induction false} TotalIsPeakFrom<T>(p: Pool<T>, ops: seq<Op<T>>)
    ensures Total(Run(p, ops)) == Max(Total(p), Peak(p, ops))
    decreases |ops|
  {
    if ops != [] {
      TotalIsPeakFrom(Step(p, ops[0]), ops[1..]);
    }
  }

  /** Pool growth equals the high-water mark: over any run from an empty pool, the blocks ever
      allocated are as many as were ever in use at once. */
  lemma GrowthIsHighWaterMark<T>(ops: seq<Op<T>>)
    ensures Total(Run(Pool([], []), ops)) == Peak(Pool([], []), ops)
  {
    TotalIsPeakFrom(Pool<T>.Pool([], []), ops);
  }

  // ----- reuse -----

  /** The block an operation takes back, and the one it hands out again. */
  function ReturnedBy<T(==)>(p: Pool<T>, op: Op<T>): seq<T> {
    if op.DoFree? && op.x in p.used then [op.x] else []
  }

  function ReusedBy<T(==)>(p: Pool<T>, op: Op<T>): seq<T> {
    if op.DoMalloc? && p.free != [] then [p.free[0]] else []
  }

  function Returned<T(==)>(p: Pool<T>, ops: seq<Op<T>>): seq<T>
    decreases |ops|
  {
    if ops == [] then [] else ReturnedBy(p, ops[0]) + Returned(Step(p, ops[0]), ops[1..])
  }

  function Reused<T(==)>(p: Pool<T>, ops: seq<Op<T>>): seq<T>
    decreases |ops|
  {
    if ops == [] then [] else ReusedBy(p, ops[0]) + Reused(Step(p, ops[0]), ops[1..])
  }

  lemma StepIsFifo<T>(p: Pool<T>, op: Op<T>)
    ensures p.free + ReturnedBy(p, op) == ReusedBy(p, op) + Step(p, op).free
  {
  }

  lemma Regroup<T>(a: seq<T>, b: seq<T>, c: seq<T>, d: seq<T>, e: seq<T>, f: seq<T>, g: seq<T>)
    requires a + b == c + d && d + e == f + g
    ensures a + (b + e) == (c + f) + g
  {
    assert a + (b + e) == (a + b) + e;
    assert (c + d) + e == c + (d + e);
    assert c + (f + g) == (c + f) + g;
  }

  /** First come back, first handed out again: at any time the blocks reused so far followed by
      those still waiting are the ones that waited at first and came back since, in order. */
  lemma {:induction false} ReuseIsFifo<T>(p: Pool<T>, ops: seq<Op<T>>)
    ensures p.free + Returned(p, ops) == Reused(p, ops) + Run(p, ops).free
    decreases |ops|
  {
    if ops == [] {
      assert p.free + [] == [] + p.free;
    } else {
      hide Step, ReturnedBy, ReusedBy;
      var op, q := ops[0], Step(p, ops[0]);
      StepIsFifo(p, op);
      ReuseIsFifo(q, ops[1..]);
      Regroup(p.free, ReturnedBy(p, op), ReusedBy(p, op), q.free,
              Returned(q, ops[1..]), Reused(q, ops[1..]), Run(q, ops[1..]).free);
    }
  }
}
