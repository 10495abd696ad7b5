/** The buffer pool on the heap: two doubly linked lists of blocks, each owning a buffer that is
    used as a queue node (packed/packets_list.c, lines 10-142; packed/packets_list.h). */
module MemoryPool {
  import opened Bytes
  import opened PoolModel

  /** Bytes a node can hold: a payload of 1200 bytes and the 8 behind the node's header. */
  const CAPACITY: nat := 1208

  /** A buffer, seen as the queue node it is used for. */
  class Node {
    var next: Node?
    var size: nat
    var data: seq<byte>

    constructor ()
      ensures Zeroed()
    {
      next, size, data := null, 0, Zeros(CAPACITY);
    }

    ghost predicate Zeroed()
      reads this
    {
      next == null && size == 0 && data == Zeros(CAPACITY)
    }

    /** bzero over the whole buffer. */
    method Clear()
      modifies this
      ensures Zeroed()
    {
      next, size, data := null, 0, Zeros(CAPACITY);
    }
  }

  class MemoryBlock {
    var next: MemoryBlock?
    var prev: MemoryBlock?
    const buffer: Node

    constructor (buffer: Node)
      ensures next == null && prev == null && this.buffer == buffer
    {
      next, prev := null, null;
      this.buffer := buffer;
    }
  }

  function First<T>(s: seq<T>): Option<T> {
    if s == [] then None else Some(s[0])
  }

  function Last<T>(s: seq<T>): Option<T> {
    if s == [] then None else Some(s[|s| - 1])
  }

  ghost predicate PointsTo(p: MemoryBlock?, b: Option<MemoryBlock>) {
    p == if b.Some? then b.value else null
  }

  function After(s: seq<MemoryBlock>, i: nat): MemoryBlock? {
    if i + 1 < |s| then s[i + 1] else null
  }

  function Before(s: seq<MemoryBlock>, i: nat): MemoryBlock? {
    if 0 < i <= |s| then s[i - 1] else null
  }

  ghost predicate LinkAt(s: seq<MemoryBlock>, i: nat)
    requires i < |s|
    reads s
  {
    s[i].next == After(s, i) && s[i].prev == Before(s, i)
  }

  /** The blocks of s, linked both ways in that order and to nothing else. */
  ghost predicate Linked(s: seq<MemoryBlock>)
    reads s
  {
    forall i: nat :: i < |s| ==> LinkAt(s, i)
  }

  ghost predicate DistinctBuffers(s: seq<MemoryBlock>) {
    forall i, j :: 0 <= i < j < |s| ==> s[i].buffer != s[j].buffer
  }

  ghost predicate Disjoint(a: seq<MemoryBlock>, b: seq<MemoryBlock>) {
    forall x :: x in a ==> x !in b
  }

  /** A list none of whose blocks was touched is still linked. */
  twostate lemma StillLinked(s: seq<MemoryBlock>)
    requires old(Linked(s)) && forall b :: b in s ==> unchanged(b)
    ensures Linked(s)
  {
    forall i: nat | i < |s|
      ensures LinkAt(s, i)
    {
      assert old(LinkAt(s, i)) && s[i] in s;
    }
  }

  class MemoryList {
    var freeHead: MemoryBlock?
    var freeLast: MemoryBlock?
    var usedHead: MemoryBlock?
    var usedLast: MemoryBlock?
    ghost var pool: Pool<MemoryBlock>

    /** Both lists well formed, no block and no buffer in the pool twice. Nothing is said of
        freeLast while no block is free. */
    ghost predicate Valid()
      reads this, pool.used, pool.free
    {
      && Linked(pool.used) && Linked(pool.free)
      && Distinct(pool.used + pool.free) && DistinctBuffers(pool.used + pool.free)
      && PointsTo(usedHead, First(pool.used)) && PointsTo(usedLast, Last(pool.used))
      && PointsTo(freeHead, First(pool.free))
      && (pool.free != [] ==> freeLast == pool.free[|pool.free| - 1])
    }

    constructor ()
      ensures Valid() && pool == Pool([], [])
    {
      freeHead, freeLast, usedHead, usedLast := null, null, null, null;
      pool := Pool([], []);
    }

    /** Links a block at the end of the used list. */
    method AppendUsed(block: MemoryBlock)
      requires Linked(pool.used) && Distinct(pool.used) && block !in pool.used && block.next == null
      requires Linked(pool.free) && Disjoint(pool.used, pool.free) && block !in pool.free
      requires PointsTo(usedHead, First(pool.used)) && PointsTo(usedLast, Last(pool.used))
      modifies this`usedHead, this`usedLast, this`pool, block, pool.used
      ensures pool == Pool(old(pool.used) + [block], old(pool.free))
      ensures Linked(pool.used) && Linked(pool.free)
      ensures PointsTo(usedHead, First(pool.used)) && PointsTo(usedLast, Last(pool.used))
    {
      ghost var was := pool.used;
      block.prev := usedLast;
      if usedLast == null {
        usedHead := block;
      } else {
        assert LinkAt(was, |was| - 1) && usedLast.next == null;
        usedLast.next := block;
      }
      usedLast := block;
      pool := Pool(pool.used + [block], pool.free);
      forall i: nat | i < |pool.used|
        ensures LinkAt(pool.used, i)
      {
        if i < |was| {
          assert old(LinkAt(was, i));
        }
      }
      StillLinked(pool.free);
    }

    /** Takes the first block off the free list; it keeps its links until it is appended. */
    method PopFree() returns (block: MemoryBlock)
      requires Linked(pool.free) && Distinct(pool.free) && pool.free != []
      requires Linked(pool.used) && Disjoint(pool.used, pool.free)
      requires PointsTo(freeHead, First(pool.free)) && freeLast == pool.free[|pool.free| - 1]
      modifies this`freeHead, this`pool, pool.free
      ensures block == old(pool.free)[0] && block.next == null
      ensures pool == Pool(old(pool.used), old(pool.free)[1..])
      ensures Linked(pool.free) && Linked(pool.used)
      ensures PointsTo(freeHead, First(pool.free))
    {
      ghost var was := pool.free;
      assert LinkAt(was, 0);
      block := freeHead;
      freeHead := block.next;
      if freeHead != null {
        freeHead.prev := null;
      }
      block.next := null;
      pool := Pool(pool.used, was[1..]);
      forall i: nat | i < |pool.free|
        ensures LinkAt(pool.free, i)
      {
        assert old(LinkAt(was, i + 1));
      }
      StillLinked(pool.used);
    }

    /** The buffer that Malloc clears and hands out again. */
    ghost function Recycled(): set<Node>
      reads this
    {
      if pool.free == [] then {} else {pool.free[0].buffer}
    }

    /** memory_list_malloc. The block comes from the front of the free list, or is new. */
    method Malloc() returns (node: Node)
      requires Valid()
      modifies this, pool.used, pool.free, Recycled()
      ensures Valid() && pool.used != []
      ensures node == pool.used[|pool.used| - 1].buffer && node.Zeroed()
      ensures pool == PoolModel.Malloc(old(pool), pool.used[|pool.used| - 1])
      ensures old(pool.free) == [] ==> fresh(pool.used[|pool.used| - 1]) && fresh(node)
    {
      if freeHead == null {
        node := Grow();
      } else {
        node := Reuse();
      }
    }

    method Grow() returns (node: Node)
      requires Valid() && pool.free == []
      modifies this, pool.used
      ensures Valid() && freeLast == old(freeLast)
      ensures pool.used != [] && node == pool.used[|pool.used| - 1].buffer && node.Zeroed()
      ensures pool == Pool(old(pool.used) + [pool.used[|pool.used| - 1]], [])
      ensures fresh(pool.used[|pool.used| - 1]) && fresh(node)
    {
      hide Linked;
      ghost var was := pool;
      PoolDistinct(was);
      node := new Node();
      var block := new MemoryBlock(node);
      AppendUsed(block);
      assert was.used + was.free == was.used;
      assert pool.used + pool.free == was.used + [block];
    }

    method Reuse() returns (node: Node)
      requires Valid() && pool.free != []
      modifies this, pool.used, pool.free, pool.free[0].buffer
      ensures Valid()
      ensures pool.used != [] && node == pool.used[|pool.used| - 1].buffer && node.Zeroed()
      ensures pool == Pool(old(pool.used) + [old(pool.free)[0]], old(pool.free)[1..])
    {
      hide Linked, Distinct, DistinctBuffers;
      ghost var was := pool;
      PoolDistinct(was);
      assert was.free[0] in was.free;
      assert was.free == [was.free[0]] + was.free[1..];
      PoolDistinct(Pool([was.free[0]], was.free[1..]));
      var block := PopFree();
      AppendUsed(block);
      assert pool.used + pool.free == was.used + was.free;
      node := block.buffer;
      node.Clear();
    }

    /** Takes a block out of the middle, or off an end, of the used list. */
    method Unlink(block: MemoryBlock, ghost k: nat)
      requires Linked(pool.used) && Distinct(pool.used) && k < |pool.used| && pool.used[k] == block
      requires Linked(pool.free) && Disjoint(pool.used, pool.free)
      requires PointsTo(usedHead, First(pool.used)) && PointsTo(usedLast, Last(pool.used))
      modifies this`usedHead, this`usedLast, this`pool, pool.used
      ensures pool == Pool(old(pool.used)[..k] + old(pool.used)[k + 1..], old(pool.free))
      ensures Linked(pool.used) && Linked(pool.free)
      ensures PointsTo(usedHead, First(pool.used)) && PointsTo(usedLast, Last(pool.used))
    {
      ghost var was := pool.used;
      assert LinkAt(was, k);
      assert k > 0 ==> LinkAt(was, k - 1);
      assert k + 1 < |was| ==> LinkAt(was, k + 1);
      if block == usedHead {
        assert k == 0 && block.prev == null;
        usedHead := block.next;
        if usedHead != null {
          usedHead.prev := null;
        } else {
          assert block == usedLast;
          usedLast := null;
        }
      } else {
        block.prev.next := block.next;
        if block.next != null {
          block.next.prev := block.prev;
        } else {
          assert block == usedLast;
          usedLast := block.prev;
        }
      }
      pool := Pool(was[..k] + was[k + 1..], pool.free);
      forall i: nat | i < |pool.used|
        ensures LinkAt(pool.used, i)
      {
        if i < k {
          assert old(LinkAt(was, i));
        } else {
          assert old(LinkAt(was, i + 1));
        }
      }
      StillLinked(pool.free);
    }

    /** Links a block at the end of the free list; a stale freeLast is not looked at. */
    method AppendFree(block: MemoryBlock)
      requires Linked(pool.free) && Distinct(pool.free) && block !in pool.free
      requires Linked(pool.used) && Disjoint(pool.used, pool.free) && block !in pool.used
      requires PointsTo(freeHead, First(pool.free)) && (pool.free != [] ==> freeLast == pool.free[|pool.free| - 1])
      modifies this`freeHead, this`freeLast, this`pool, block, pool.free
      ensures pool == Pool(old(pool.used), old(pool.free) + [block])
      ensures Linked(pool.free) && Linked(pool.used)
      ensures PointsTo(freeHead, First(pool.free)) && freeLast == block
    {
      ghost var was := pool.free;
      if freeHead == null {
        block.prev := null;
        block.next := null;
        freeHead := block;
        freeLast := block;
      } else {
        block.prev := freeLast;
        block.next := null;
        freeLast.next := block;
        freeLast := block;
      }
      pool := Pool(pool.used, pool.free + [block]);
      forall i: nat | i < |pool.free|
        ensures LinkAt(pool.free, i)
      {
        if i < |was| {
          assert old(LinkAt(was, i));
        }
      }
      StillLinked(pool.used);
    }

    /** memory_list_free: searches the used list for the buffer and moves its block to the end
        of the free list. */
    method Free(mem: Node) returns (ok: bool, ghost block: MemoryBlock?)
      requires Valid()
      modifies this, pool.used, pool.free
      ensures Valid()
      ensures ok ==> block != null && block in old(pool.used) && block.buffer == mem
                     && pool == PoolModel.Free(old(pool), block)
      ensures !ok ==> pool == old(pool) && forall b :: b in pool.used ==> b.buffer != mem
    {
      var cur := usedHead;
      ghost var k := 0;
      while cur != null
        invariant k <= |pool.used| && (cur == null <==> k == |pool.used|)
        invariant cur != null ==> cur == pool.used[k]
        invariant forall i :: 0 <= i < k ==> pool.used[i].buffer != mem
        decreases |pool.used| - k
      {
        assert LinkAt(pool.used, k);
        if mem == cur.buffer {
          Move(cur, k);
          return true, cur;
        }
        cur := cur.next;
        k := k + 1;
      }
      return false, null;
    }

    method Move(block: MemoryBlock, ghost k: nat)
      requires Valid() && k < |pool.used| && pool.used[k] == block
      modifies this, pool.used, pool.free
      ensures Valid() && pool == PoolModel.Free(old(pool), block)
    {
      hide Linked, Distinct, DistinctBuffers;
      ghost var was := pool;
      PoolDistinct(was);
      MovedDistinct(was, k);
      Unlink(block, k);
      AppendFree(block);
    }
  }

  /** Moving a block between the lists keeps all blocks and buffers distinct. */
  lemma MovedDistinct(p: Pool<MemoryBlock>, k: nat)
    requires k < |p.used| && Distinct(p.used + p.free) && DistinctBuffers(p.used + p.free)
    ensures var used := p.used[..k] + p.used[k + 1..];
            var q := Pool(used, p.free + [p.used[k]]);
            && q == PoolModel.Free(p, p.used[k])
            && Distinct(q.used + q.free) && DistinctBuffers(q.used + q.free)
            && Disjoint(used, p.free) && p.used[k] !in used && p.used[k] !in p.free
  {
    PoolDistinct(p);
    WithoutAt(p.used, k);
    WithoutKeeps(p.used, p.used[k]);
    StepKeepsDistinct(p, DoFree(p.used[k]));
    var q := PoolModel.Free(p, p.used[k]);
    forall i, j | 0 <= i < j < |q.used + q.free|
      ensures (q.used + q.free)[i].buffer != (q.used + q.free)[j].buffer
    {
      var a, b := (q.used + q.free)[i], (q.used + q.free)[j];
      assert a in p.used + p.free && b in p.used + p.free && a != b;
    }
  }

  lemma PoolDistinct(p: Pool<MemoryBlock>)
    requires Distinct(p.used + p.free)
    ensures Distinct(p.used) && Distinct(p.free)
    ensures Disjoint(p.used, p.free)
  {
    PrefixDistinct(p.used, p.free);
  }
}
