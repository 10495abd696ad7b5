/** The send queue: a singly linked list of nodes that live in the pool's buffers
    (packed/packets_list.c, lines 199-340). Every operation is one atomic step. */
module PacketQueue {
  import opened Bytes
  import opened PoolModel
  import opened MemoryPool
  import opened FifoModel

  function NodeAfter(s: seq<Node>, i: nat): Node? {
    if i + 1 < |s| then s[i + 1] else null
  }

  ghost predicate NextAt(s: seq<Node>, i: nat)
    requires i < |s|
    reads s
  {
    s[i].next == NodeAfter(s, i) && s[i].size <= |s[i].data|
  }

  /** The nodes of s, linked in that order up to a null; each holds its packet. */
  ghost predicate Chained(s: seq<Node>)
    reads s
  {
    forall i: nat :: i < |s| ==> NextAt(s, i)
  }

  /** s is exactly the buffers of the blocks, in the same order. */
  ghost predicate BuffersOf(s: seq<Node>, blocks: seq<MemoryBlock>) {
    |s| == |blocks| && forall i :: 0 <= i < |s| ==> blocks[i].buffer == s[i]
  }

  ghost function PacketAt(s: seq<Node>, i: nat): seq<byte>
    requires i < |s|
    reads s
  {
    if s[i].size <= |s[i].data| then s[i].data[..s[i].size] else []
  }

  ghost function Packets(s: seq<Node>): (ps: seq<seq<byte>>)
    reads s
    ensures |ps| == |s|
    ensures forall i: nat :: i < |s| ==> ps[i] == PacketAt(s, i)
  {
    if s == [] then [] else Packets(s[..|s| - 1]) + [PacketAt(s, |s| - 1)]
  }

  ghost predicate DistinctNodes(s: seq<Node>) {
    forall i, j :: 0 <= i < j < |s| ==> s[i] != s[j]
  }

  /** Nodes of used blocks are pairwise different, and none lies in a free block. */
  lemma NodesDistinct(s: seq<Node>, p: Pool<MemoryBlock>)
    requires DistinctBuffers(p.used + p.free) && BuffersOf(s, p.used)
    ensures DistinctNodes(s)
    ensures forall i :: 0 <= i < |p.free| ==> p.free[i].buffer !in s
  {
    var all := p.used + p.free;
    forall i, j | 0 <= i < j < |s|
      ensures s[i] != s[j]
    {
      assert all[i].buffer != all[j].buffer;
    }
    forall i, k | 0 <= i < |p.free| && 0 <= k < |s|
      ensures p.free[i].buffer != s[k]
    {
      assert all[k].buffer != all[|p.used| + i].buffer;
    }
  }

  /** Packets whose nodes keep size and data are the same packets. */
  twostate lemma SamePackets(s: seq<Node>)
    requires forall n :: n in s ==> n.size == old(n.size) && n.data == old(n.data)
    ensures Packets(s) == old(Packets(s))
  {
    forall i: nat | i < |s|
      ensures Packets(s)[i] == old(Packets(s))[i]
    {
      assert s[i] in s;
      assert Packets(s)[i] == PacketAt(s, i);
      assert old(Packets(s))[i] == old(PacketAt(s, i));
    }
  }

  /** The pool after its first k used blocks came back. */
  ghost function Released(p: Pool<MemoryBlock>, k: nat): Pool<MemoryBlock>
    requires k <= |p.used|
  {
    Pool(p.used[k..], p.free + p.used[..k])
  }

  lemma ReleasedNext(p: Pool<MemoryBlock>, k: nat)
    requires k < |p.used|
    ensures Released(p, k + 1) == Pool(Released(p, k).used[1..], Released(p, k).free + [Released(p, k).used[0]])
  {
  }

  class PacketList {
    var writeSize: nat
    var sendSize: nat
    var sendLoop: bool
    var writeLoop: bool
    const memList: MemoryList
    var currentSend: Node?
    var currentWrite: Node?
    ghost var chain: seq<Node>

    /** The chain from currentSend to currentWrite is the pool's used list, node for block: it
        is acyclic, no node is on it twice, and no used buffer is lost. */
    ghost predicate Valid()
      reads this, memList, memList.pool.used, memList.pool.free, chain
    {
      && memList.Valid()
      && BuffersOf(chain, memList.pool.used)
      && Chained(chain)
      && currentSend == (if chain == [] then null else chain[0])
      && (chain != [] ==> currentWrite == chain[|chain| - 1])
      && (chain == [] ==> StaleWrite())
    }

    /** In an empty queue currentWrite still names the node that was unlinked last. */
    ghost predicate StaleWrite()
      reads this, memList
    {
      if memList.pool.free == [] then currentWrite == null
      else currentWrite == memList.pool.free[|memList.pool.free| - 1].buffer
    }

    ghost function View(): Fifo
      reads this, memList, chain
    {
      Fifo(Packets(chain), writeSize, sendSize, writeLoop, sendLoop, |memList.pool.used| + |memList.pool.free|)
    }

    /** packet_list_create; the flags keep whatever the memory held. */
    constructor ()
      ensures Valid() && fresh(memList) && writeSize == 0 && sendSize == 0
      ensures View().packets == [] && View().blocks == 0
    {
      writeSize, sendSize := 0, 0;
      currentSend, currentWrite := null, null;
      memList := new MemoryList();
      chain := [];
    }

    /** packet_list_node_add. Only on a drained queue over a single block is the new node the
        one that currentWrite still names, and gets linked behind itself. */
    method Add(pkt: array?<byte>, size: nat)
      requires Valid()
      requires pkt != null ==> size <= pkt.Length && size <= CAPACITY
      modifies this, memList, memList.pool.used, memList.pool.free, memList.Recycled(), chain, LastWritten()
      ensures pkt == null ==> Valid() && View() == old(View())
      ensures pkt != null && !old(Trap(View())) ==> Valid() && View() == FifoModel.Add(old(View()), old(pkt[..size]))
      ensures pkt != null && old(Trap(View())) ==> currentSend != null && currentSend.next == currentSend == currentWrite
    {
      hide MemoryList.Valid, Packets, Chained, DistinctNodes, BuffersOf, StaleWrite, MemoryList.Recycled;
      if pkt == null {
        return;
      }
      ghost var packet, packets, trap := pkt[..size], Packets(chain), Trap(View());
      ChainLength(chain, memList.pool.used);
      var node := NewPacket(pkt, size);
      assert node == currentWrite <==> trap;
      CountWrite();
      Link(node);
      assert !trap ==> Packets(chain) == packets + [packet];
    }

    /** The node that gets linked to a new one. */
    ghost function LastWritten(): set<Node>
      reads this
    {
      if currentWrite == null then {} else {currentWrite}
    }

    /** packet_list_node_get: the head, whose packet is the first of the queue. */
    method Get() returns (node: Node?)
      requires Valid()
      ensures node == null <==> View().packets == []
      ensures node != null ==> node.size <= |node.data| && node.data[..node.size] == View().packets[0]
    {
      assert chain != [] ==> NextAt(chain, 0) && Packets(chain)[0] == PacketAt(chain, 0);
      node := currentSend;
    }

    /** packet_list_node_offset, asked only while there is a head, which the source does not
        check. The head's block goes back to the pool. */
    method Offset()
      requires Valid() && currentSend != null
      modifies this, memList, memList.pool.used, memList.pool.free
      ensures Valid()
      ensures old(View()).packets != [] && View() == FifoModel.Offset(old(View()))
    {
      hide MemoryList.Valid, Packets, BuffersOf, Chained, MemoryList.Recycled;
      ghost var was, view := chain, View();
      assert |view.packets| == |was| > 0;
      NextInChain(was, 0);
      ChainLength(was, memList.pool.used);
      CountSend();
      var node := currentSend;
      currentSend := currentSend.next;
      assert was == [node] + was[1..];
      Release(node, was[1..]);
      chain := was[1..];
      ChainUntouched(was);
      ChainTail(was);
      assert Packets(chain) == view.packets[1..];
      assert View() == FifoModel.Offset(view);
      assert StaleWrite() || chain != [];
    }

    method CountSend()
      modifies this`sendSize, this`sendLoop
      ensures sendSize == if old(sendSize) == MAX_LOOP_NUM then 0
                          else if old(sendSize) < writeSize then old(sendSize) + 1 else old(sendSize)
      ensures sendLoop == if old(sendSize) == MAX_LOOP_NUM then true else old(sendLoop)
    {
      if sendSize == MAX_LOOP_NUM {
        sendSize, sendLoop := 0, true;
      } else if sendSize < writeSize {
        sendSize := sendSize + 1;
      }
    }

    /** Gives the buffer of the first used block back to the pool. */
    method Release(node: Node, ghost rest: seq<Node>)
      requires memList.Valid() && BuffersOf([node] + rest, memList.pool.used)
      modifies memList, memList.pool.used, memList.pool.free
      ensures memList.Valid() && BuffersOf(rest, memList.pool.used)
      ensures memList.pool == Pool(old(memList.pool.used)[1..], old(memList.pool.free) + [old(memList.pool.used)[0]])
      ensures memList.pool.free[|memList.pool.free| - 1].buffer == node
    {
      ghost var was := memList.pool;
      var ok;
      ghost var block;
      NodesDistinct([node] + rest, was);
      assert ([node] + rest)[0] == node && was.used[0].buffer == node && was.used[0] in was.used;
      ok, block := memList.Free(node);
      HeadOwns(was, node, block);
      assert forall i :: 0 <= i < |rest| ==> ([node] + rest)[i + 1] == rest[i];
    }

    /** packet_list_reset: every linked node goes back and a sentinel is installed. */
    method Reset()
      requires Valid()
      modifies this, memList, memList.pool.used, memList.pool.free, chain, memList.Recycled()
      ensures Valid() && View() == FifoModel.Reset(old(View()))
    {
      hide MemoryList.Valid, Chained, Packets;
      ReleaseAll();
      assert memList.Recycled() <= old(memList.Recycled()) + set n | n in old(chain);
      InstallSentinel();
    }

    /** The links of a node stay readable after its block is free. */
    method ReleaseAll()
      requires Valid()
      modifies memList, memList.pool.used, memList.pool.free
      ensures memList.Valid() && memList.pool == Pool([], old(memList.pool.free + memList.pool.used))
    {
      hide MemoryList.Valid, Chained, BuffersOf;
      ghost var was := memList.pool;
      var node := currentSend;
      ghost var k := 0;
      ChainLength(chain, was.used);
      assert chain[0..] == chain && was.used[0..] == was.used && was.free + was.used[..0] == was.free;
      while node != null
        invariant k <= |chain| && node == (if k < |chain| then chain[k] else null)
        invariant Chained(chain)
        invariant memList.Valid() && BuffersOf(chain[k..], memList.pool.used)
        invariant memList.pool == Released(was, k)
        decreases |chain| - k
      {
        NextInChain(chain, k);
        ChainLength(chain[k..], memList.pool.used);
        assert chain[k..] == [node] + chain[k + 1..];
        Release(node, chain[k + 1..]);
        ReleasedNext(was, k);
        node := node.next;
        k := k + 1;
      }
    }

    method InstallSentinel()
      requires memList.Valid() && memList.pool.used == []
      modifies this, memList, memList.pool.used, memList.pool.free, memList.Recycled()
      ensures Valid() && View() == FifoModel.Reset(old(View()))
    {
      hide MemoryList.Valid, BuffersOf, Valid, StaleWrite;
      chain := [];
      EmptyChain();
      var node := Allocate();
      assert [] + [node] == [node];
      MakeSentinel(node);
    }

    /** The node as the whole queue. */
    method MakeSentinel(node: Node)
      requires memList.Valid() && BuffersOf([node], memList.pool.used)
      modifies this, node
      ensures Valid() && View() == Fifo([[]], 0, 0, false, false, old(View().blocks))
    {
      hide MemoryList.Valid, BuffersOf, Packets, Chained, StaleWrite;
      node.next := null;
      node.size := 0;
      currentSend, currentWrite := node, node;
      writeSize, writeLoop, sendSize, sendLoop := 0, false, 0, false;
      chain := [node];
      SentinelChain(node);
    }

    /** A node with the packet in it, not yet on the chain. */
    method NewPacket(pkt: array<byte>, size: nat) returns (node: Node)
      requires memList.Valid() && BuffersOf(chain, memList.pool.used) && Chained(chain)
      requires size <= pkt.Length && size <= CAPACITY
      modifies memList, memList.pool.used, memList.pool.free, memList.Recycled()
      ensures memList.Valid() && BuffersOf(chain + [node], memList.pool.used)
      requires chain == [] ==> StaleWrite()
      requires chain != [] ==> currentWrite == chain[|chain| - 1]
      ensures node !in chain && DistinctNodes(chain)
      ensures node == currentWrite <==> chain == [] && old(|memList.pool.free|) == 1
      ensures |memList.pool.used| + |memList.pool.free|
           == PoolModel.Max(old(|memList.pool.used| + |memList.pool.free|), |chain| + 1)
      ensures node.next == null && node.size == size <= |node.data| && node.data[..size] == pkt[..size]
      ensures Chained(chain) && Packets(chain) == old(Packets(chain))
    {
      hide Packets, Chained, DistinctNodes, BuffersOf, Linked, Distinct;
      if memList.pool.free != [] {
        FreeEnds(memList.pool);
      }
      node := Allocate();
      Fill(node, pkt, size);
      ChainUntouched(chain);
    }

    method CountWrite()
      modifies this`writeSize, this`writeLoop
      ensures writeLoop <==> old(writeSize) == MAX_LOOP_NUM
      ensures writeSize == if old(writeSize) == MAX_LOOP_NUM then 0 else old(writeSize) + 1
    {
      if writeSize == MAX_LOOP_NUM {
        writeSize, writeLoop := 0, true;
      } else {
        writeSize, writeLoop := writeSize + 1, false;
      }
    }

    /** A buffer from the pool that is not on the chain. */
    method Allocate() returns (node: Node)
      requires memList.Valid() && BuffersOf(chain, memList.pool.used)
      modifies memList, memList.pool.used, memList.pool.free, memList.Recycled()
      ensures memList.Valid() && BuffersOf(chain + [node], memList.pool.used)
      ensures node.Zeroed() && node !in chain && DistinctNodes(chain)
      ensures if old(memList.pool.free) == [] then fresh(node) else node == old(memList.pool.free)[0].buffer
      ensures |memList.pool.used| + |memList.pool.free|
           == PoolModel.Max(old(|memList.pool.used| + |memList.pool.free|), |chain| + 1)
      ensures forall n :: n in chain ==> unchanged(n)
    {
      hide Linked, Distinct;
      NodesDistinct(chain, memList.pool);
      node := memList.Malloc();
      NodesDistinct(chain + [node], memList.pool);
      assert (chain + [node])[|chain|] == node;
      assert forall i :: 0 <= i < |chain| ==> (chain + [node])[i] == chain[i];
    }

    /** Links a node behind currentWrite, or as the only one. */
    method Link(node: Node)
      requires Chained(chain) && node !in chain && node.next == null && node.size <= |node.data|
      requires DistinctNodes(chain)
      requires currentSend == (if chain == [] then null else chain[0])
      requires chain != [] ==> currentWrite == chain[|chain| - 1]
      modifies this`currentSend, this`currentWrite, this`chain, chain, LastWritten()
      ensures chain == old(chain) + [node] && currentSend == chain[0] && currentWrite == node
      ensures old(currentWrite) != node ==>
                Chained(chain) && Packets(chain) == old(Packets(chain)) + [node.data[..node.size]]
      ensures old(currentWrite) == node ==> currentSend == node && node.next == node
    {
      hide Packets;
      ghost var was := chain;
      if currentSend == null {
        currentSend := node;
      }
      if currentWrite == null {
        currentWrite := node;
      } else {
        currentWrite.next := node;
        currentWrite := node;
      }
      chain := was + [node];
      if old(currentWrite) != node {
        forall i: nat | i < |chain|
          ensures NextAt(chain, i)
        {
          if i < |was| {
            assert old(NextAt(was, i));
          }
        }
        SamePackets(was);
        AppendedPackets(was, node);
      }
    }
  }

  /** The first free buffer is the last one only when it is the only one. */
  lemma FreeEnds(p: Pool<MemoryBlock>)
    requires DistinctBuffers(p.used + p.free) && p.free != []
    ensures p.free[0].buffer == p.free[|p.free| - 1].buffer <==> |p.free| == 1
  {
    var all, n := p.used + p.free, |p.used|;
    assert all[n] == p.free[0] && all[n + |p.free| - 1] == p.free[|p.free| - 1];
  }

  twostate lemma ChainUntouched(s: seq<Node>)
    requires old(Chained(s)) && forall n :: n in s ==> unchanged(n)
    ensures Chained(s) && Packets(s) == old(Packets(s))
  {
    forall i: nat | i < |s|
      ensures NextAt(s, i)
    {
      assert old(NextAt(s, i)) && s[i] in s;
    }
    SamePackets(s);
  }

  /** memcpy of a packet into a cleared node. */
  method Fill(node: Node, pkt: array<byte>, size: nat)
    requires size <= pkt.Length && size <= CAPACITY && node.Zeroed()
    modifies node
    ensures node.next == null && node.size == size <= |node.data| && node.data[..size] == pkt[..size]
  {
    node.size := size;
    node.data := pkt[..size] + node.data[size..];
    node.next := null;
  }

  /** The used block that owns the first used buffer is the first block. */
  lemma HeadOwns(p: Pool<MemoryBlock>, node: Node, block: MemoryBlock)
    requires p.used != [] && p.used[0].buffer == node && DistinctBuffers(p.used + p.free)
    requires block in p.used && block.buffer == node
    ensures PoolModel.Free(p, block) == Pool(p.used[1..], p.free + [p.used[0]])
  {
    var i :| 0 <= i < |p.used| && p.used[i] == block;
    assert (p.used + p.free)[i].buffer == (p.used + p.free)[0].buffer;
  }

  lemma EmptyChain()
    ensures BuffersOf([], [])
  {
  }

  lemma ChainLength(s: seq<Node>, blocks: seq<MemoryBlock>)
    requires BuffersOf(s, blocks)
    ensures |s| == |blocks|
  {
  }

  lemma SentinelChain(node: Node)
    requires node.next == null && node.size == 0
    ensures Chained([node]) && Packets([node]) == [[]]
  {
  }

  lemma NextInChain(s: seq<Node>, i: nat)
    requires i < |s| && Chained(s)
    ensures NextAt(s, i)
  {
  }

  lemma ChainTail(s: seq<Node>)
    requires s != [] && Chained(s)
    ensures Chained(s[1..]) && Packets(s[1..]) == Packets(s)[1..]
  {
    var t := s[1..];
    forall i: nat | i < |t|
      ensures NextAt(t, i) && Packets(t)[i] == Packets(s)[1..][i]
    {
      assert NextAt(s, i + 1);
      assert Packets(t)[i] == PacketAt(t, i) && Packets(s)[i + 1] == PacketAt(s, i + 1);
    }
  }

  lemma AppendedPackets(s: seq<Node>, node: Node)
    ensures Packets(s + [node]) == Packets(s) + [if node.size <= |node.data| then node.data[..node.size] else []]
  {
  }
}
