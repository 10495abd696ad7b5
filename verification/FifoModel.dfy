/** The send queue as a sequence of packets and two counters
    (packed/packets_list.c, lines 230-340). */
module FifoModel {
  import opened Bytes
  import PoolModel

  const MAX_LOOP_NUM: nat := 4_000_000_000

  /** Packets linked in the queue, head first, the header's counters and flags, and the blocks
      the pool underneath has ever allocated. */
  datatype Fifo = Fifo(packets: seq<seq<byte>>, writeSize: nat, sendSize: nat, writeLoop: bool, sendLoop: bool, blocks: nat)

  /** packet_list_reset: one empty packet, the sentinel, and cleared counters. */
  function Reset(f: Fifo): Fifo {
    Fifo([[]], 0, 0, false, false, PoolModel.Max(f.blocks, 1))
  }

  /** packet_list_node_add. */
  function Add(f: Fifo, packet: seq<byte>): Fifo {
    var wraps := f.writeSize == MAX_LOOP_NUM;
    f.(packets := f.packets + [packet], writeSize := if wraps then 0 else f.writeSize + 1, writeLoop := wraps,
       blocks := PoolModel.Max(f.blocks, |f.packets| + 1))
  }

  /** packet_list_node_offset, asked only while there is a head. */
  function Offset(f: Fifo): Fifo
    requires f.packets != []
  {
    f.(packets := f.packets[1..],
       sendSize := if f.sendSize == MAX_LOOP_NUM then 0
                   else if f.sendSize < f.writeSize then f.sendSize + 1 else f.sendSize,
       sendLoop := if f.sendSize == MAX_LOOP_NUM then true else f.sendLoop)
  }

  /** Drained, over a pool whose only block is the one that the queue's write pointer still
      names: the next node would be linked behind itself. */
  predicate Trap(f: Fifo) {
    f.packets == [] && f.blocks == 1
  }

  datatype Op = DoAdd(packet: seq<byte>) | DoOffset | DoReset

  function Step(f: Fifo, op: Op): (r: Option<Fifo>) {
    match op
    case DoAdd(p) => if Trap(f) then None else Some(Add(f, p))
    case DoOffset => if f.packets == [] then None else Some(Offset(f))
    case DoReset => Some(Reset(f))
  }

  /** A run of operations; None when some operation would leave the queue's discipline. */
  function Run(f: Fifo, ops: seq<Op>): (r: Option<Fifo>)
    decreases |ops|
  {
    if ops == [] then Some(f)
    else
      match Step(f, ops[0])
      case None => None
      case Some(g) => Run(g, ops[1..])
  }

  predicate NoReset(ops: seq<Op>) {
    forall i :: 0 <= i < |ops| ==> !ops[i].DoReset?
  }

  function Added(ops: seq<Op>): seq<seq<byte>> {
    if ops == [] then []
    else (if ops[0].DoAdd? then [ops[0].packet] else []) + Added(ops[1..])
  }

  /** The heads that offsets left behind, in order. */
  function Passed(f: Fifo, ops: seq<Op>): seq<seq<byte>>
    decreases |ops|
  {
    if ops == [] then []
    else
      match Step(f, ops[0])
      case None => []
      case Some(g) => (if ops[0].DoOffset? then [f.packets[0]] else []) + Passed(g, ops[1..])
  }

  /** First in, first out over any interleaving: the packets passed so far and those still
      linked are the ones linked at first and the ones added since, in order. */
  lemma {:induction false} RunIsFifo(f: Fifo, ops: seq<Op>)
    requires NoReset(ops) && Run(f, ops).Some?
    ensures Passed(f, ops) + Run(f, ops).value.packets == f.packets + Added(ops)
    decreases |ops|
  {
    if ops == [] {
      assert [] + f.packets == f.packets == f.packets + [];
    } else {
      var g := Step(f, ops[0]).value;
      RunIsFifo(g, ops[1..]);
      var rest := Run(g, ops[1..]).value.packets;
      assert [] + Passed(g, ops[1..]) == Passed(g, ops[1..]);
      assert [] + Added(ops[1..]) == Added(ops[1..]);
      if ops[0].DoAdd? {
        ConcatAssociates(f.packets, [ops[0].packet], Added(ops[1..]));
      } else {
        assert f.packets == [f.packets[0]] + g.packets;
        ConcatAssociates([f.packets[0]], Passed(g, ops[1..]), rest);
        ConcatAssociates([f.packets[0]], g.packets, Added(ops[1..]));
      }
    }
  }

  // ----- draining -----

  /** No offset is asked of an empty queue; n nodes are linked at first. */
  predicate NeverStarves(n: nat, ops: seq<Op>)
    decreases |ops|
  {
    ops == []
    || match ops[0]
       case DoAdd(_) => NeverStarves(n + 1, ops[1..])
       case DoOffset => n > 0 && NeverStarves(n - 1, ops[1..])
       case DoReset => NeverStarves(1, ops[1..])
  }

  /** Over a pool of at least two blocks the queue may be drained and filled again at will: a
      run goes through if and only if no offset is asked of an empty queue. */
  lemma {:induction false} TwoBlocksSuffice(f: Fifo, ops: seq<Op>)
    requires f.blocks >= 2
    ensures Run(f, ops).Some? <==> NeverStarves(|f.packets|, ops)
    decreases |ops|
  {
    if ops != [] {
      var next := Step(f, ops[0]);
      if next.Some? {
        TwoBlocksSuffice(next.value, ops[1..]);
      }
    }
  }

  /** One block does not suffice: after a reset, draining the sentinel and adding is a trap. With
      one packet more linked before, the pool has a second block, and the same is none. */
  lemma OneBlockTraps(f: Fifo, p: seq<byte>, q: seq<byte>)
    requires f.blocks <= 1
    ensures Run(f, [DoReset, DoOffset, DoAdd(p)]) == None
    ensures var r := Run(f, [DoReset, DoAdd(p), DoOffset, DoOffset, DoAdd(q)]);
            r.Some? && r.value.packets == [q]
  {
    var g := Reset(f);
    var short, long := [DoOffset, DoAdd(p)], [DoAdd(p), DoOffset, DoOffset, DoAdd(q)];
    assert [DoReset, DoOffset, DoAdd(p)][1..] == short && short[1..] == [DoAdd(p)];
    assert Offset(g).packets == [] && Run(Offset(g), [DoAdd(p)]) == None;
    var g2 := Add(g, p);
    var g3 := Offset(g2);
    assert g3.packets == [p] && Offset(g3).packets == [];
    assert [DoReset, DoAdd(p), DoOffset, DoOffset, DoAdd(q)][1..] == long;
    assert long[1..] == [DoOffset, DoOffset, DoAdd(q)] && long[1..][1..] == [DoOffset, DoAdd(q)];
    assert [DoOffset, DoAdd(q)][1..] == [DoAdd(q)] && [DoAdd(q)][1..] == [];
    assert Run(Offset(g3), [DoAdd(q)]) == Some(Add(Offset(g3), q));
    assert Run(g3, [DoOffset, DoAdd(q)]) == Some(Add(Offset(g3), q));
    assert Run(g2, long[1..]) == Some(Add(Offset(g3), q));
  }
}
