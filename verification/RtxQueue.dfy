/**
 The retransmission queue in memory: a singly linked list whose owner also keeps a pointer to the last
 link.  The C code holds that pointer, and the pointer prevNext of its loops, as the address of a next field
 or of the head field; here such an address is the record that contains the field, or null for the head.
 */
module RtxQueue {
  import opened Bytes
  import opened Sequences
  import opened RtxRecords

  class RtxRecord {
    var next: RtxRecord?
    const epoch: word64
    const htype: byte
    const data: seq<byte>
    var slots: Slots
    var rnIdx: RnIdx

    constructor (epoch: word64, htype: byte, data: seq<byte>, number: word64, junk1: word64, junk2: word64)
      ensures next == null && Value() == NewRec(epoch, htype, data, number, junk1, junk2)
    {
      next := null;
      this.epoch, this.htype, this.data := epoch, htype, data;
      slots, rnIdx := [number, junk1, junk2], 1;
    }

    function Value(): Rec
      reads this`slots, this`rnIdx
    {
      Rec(epoch, htype, data, slots, rnIdx)
    }

    /** The bookkeeping of Dtls13RtxSendBuffered after a record went out under a new number. */
    method Track(number: word64)
      modifies this`slots, this`rnIdx
      ensures Value() == Resent(old(Value()), number)
    {
      var at := if rnIdx >= RETRANS_RN_SIZE then 0 else rnIdx;
      slots := slots[at := number];
      rnIdx := at + 1;
    }
  }

  ghost function NodeAt(nodes: seq<RtxRecord>, i: int): RtxRecord?
  {
    if 0 <= i < |nodes| then nodes[i] else null
  }

  ghost predicate LinkAt(nodes: seq<RtxRecord>, i: int)
    requires 0 <= i < |nodes|
    reads nodes`next
  {
    nodes[i].next == NodeAt(nodes, i + 1)
  }

  ghost predicate Linked(nodes: seq<RtxRecord>)
    reads nodes`next
  {
    forall i :: 0 <= i < |nodes| ==> LinkAt(nodes, i)
  }

  lemma DropEnds(nodes: seq<RtxRecord>, k: nat)
    requires k < |nodes|
    ensures NodeAt(DropAt(nodes, k), 0) == if k == 0 then NodeAt(nodes, 1) else nodes[0]
    ensures NodeAt(DropAt(nodes, k), |nodes| - 2) ==
            if k == |nodes| - 1 then NodeAt(nodes, k - 1) else nodes[|nodes| - 1]
  {
    if |nodes| > 1 {
      DropElement(nodes, k, 0);
      DropElement(nodes, k, |nodes| - 2);
    }
  }

  lemma DropNext(nodes: seq<RtxRecord>, k: nat, i: nat)
    requires k < |nodes| && i < |nodes| - 1
    ensures
      var x := if i < k then i else i + 1;
      && DropAt(nodes, k)[i] == nodes[x]
      && NodeAt(DropAt(nodes, k), i + 1) == if x == k - 1 then NodeAt(nodes, k + 1) else NodeAt(nodes, x + 1)
  {
    DropElement(nodes, k, i);
    if i + 1 < |nodes| - 1 {
      DropElement(nodes, k, i + 1);
    }
  }

  /** The flush loop from index k on. */
  ghost function FlushFrom(recs: seq<Rec>, k: nat, keepTickets: bool): seq<Rec>
    decreases |recs| - k
  {
    if k >= |recs| then recs
    else if keepTickets && recs[k].htype == SESSION_TICKET then FlushFrom(recs, k + 1, keepTickets)
    else FlushFrom(DropAt(recs, k), k, keepTickets)
  }

  lemma {:induction false} FlushFromIs(recs: seq<Rec>, k: nat, keepTickets: bool)
    requires k <= |recs|
    ensures FlushFrom(recs, k, keepTickets) == recs[..k] + Flushed(recs[k..], keepTickets)
    decreases |recs| - k
  {
    if k < |recs| {
      assert recs[k..][1..] == recs[k + 1..];
      if keepTickets && recs[k].htype == SESSION_TICKET {
        FlushFromIs(recs, k + 1, keepTickets);
        assert recs[..k] + [recs[k]] == recs[..k + 1];
      } else {
        var rest := DropAt(recs, k);
        FlushFromIs(rest, k, keepTickets);
        assert rest[..k] == recs[..k] && rest[k..] == recs[k + 1..];
      }
    }
  }

  /** The removal loop from index k on. */
  ghost function RemoveFrom(recs: seq<Rec>, k: nat, rn: RecordNumber): seq<Rec>
    decreases |recs| - k
  {
    if k >= |recs| then recs
    else if IsTrackedByRn(recs[k], rn) then DropAt(recs, k)
    else RemoveFrom(recs, k + 1, rn)
  }

  lemma {:induction false} RemoveFromIs(recs: seq<Rec>, k: nat, rn: RecordNumber)
    requires k <= |recs|
    ensures RemoveFrom(recs, k, rn) == recs[..k] + Remove(recs[k..], rn)
    decreases |recs| - k
  {
    if k < |recs| {
      assert recs[k..][1..] == recs[k + 1..];
      assert recs[..k] + [recs[k]] == recs[..k + 1];
      RemoveFromIs(recs, k + 1, rn);
    }
  }

  lemma DropNextIs(nodes: seq<RtxRecord>, k: nat)
    requires k < |nodes|
    ensures NodeAt(DropAt(nodes, k), k) == NodeAt(nodes, k + 1)
    ensures NodeAt(DropAt(nodes, k), k - 1) == NodeAt(nodes, k - 1)
  {
    if k < |nodes| - 1 {
      DropElement(nodes, k, k);
    }
    if k > 0 {
      DropElement(nodes, k, k - 1);
    }
  }

  class Queue {
    var head: RtxRecord?
    /** rtxRecordTailPtr: the address of this record's next field, or of head when null. */
    var tail: RtxRecord?
    ghost var nodes: seq<RtxRecord>
    /** The contents of the nodes. */
    ghost var recs: seq<Rec>
    /** Every record that was ever queued. */
    ghost var repr: set<RtxRecord>

    /** An acyclic chain from head. */
    ghost predicate Chain()
      reads `head, `nodes, `repr, nodes`next
    {
      && (forall i :: 0 <= i < |nodes| ==> nodes[i] in repr)
      && Distinct(nodes) && Linked(nodes) && head == NodeAt(nodes, 0)
    }

    ghost predicate Holds()
      reads `nodes, `recs, nodes`slots, nodes`rnIdx
    {
      |recs| == |nodes| && forall i :: 0 <= i < |nodes| ==> nodes[i].Value() == recs[i]
    }

    /** The chain, with tail addressing its last link. */
    ghost predicate Valid()
      reads this, nodes
    {
      Chain() && Holds() && tail == NodeAt(nodes, |nodes| - 1)
    }

    constructor ()
      ensures Valid() && recs == [] && nodes == [] && repr == {}
    {
      head, tail, nodes, recs, repr := null, null, [], [], {};
    }

    lemma NodeHere(k: nat)
      requires Chain() && k < |nodes|
      ensures nodes[k].next == NodeAt(nodes, k + 1)
    {
      assert LinkAt(nodes, k);
    }

    /** Dtls13RtxAddRecord */
    method AddRecord(r: RtxRecord)
      requires Valid() && r !in nodes
      modifies this, repr`next, r`next
      ensures Valid() && nodes == old(nodes) + [r] && repr == old(repr) + {r}
      ensures recs == old(recs) + [old(r.Value())]
    {
      recs := recs + [r.Value()];
      LinkLast(r);
    }

    method LinkLast(r: RtxRecord)
      requires Chain() && tail == NodeAt(nodes, |nodes| - 1) && r !in nodes
      modifies `head, `tail, `nodes, `repr, repr`next, r`next
      ensures Chain() && tail == r && nodes == old(nodes) + [r] && repr == old(repr) + {r}
    {
      ghost var was := nodes;
      if tail == null {
        head := r;
      } else {
        tail.next := r;
      }
      tail := r;
      r.next := null;
      nodes := nodes + [r];
      repr := repr + {r};
      forall i, j | 0 <= i < j < |nodes|
        ensures Apart(nodes, i, j)
      {
        assert j < |was| ==> Apart(was, i, j);
      }
      forall i | 0 <= i < |nodes|
        ensures LinkAt(nodes, i)
      {
        assert i < |was| ==> old(LinkAt(was, i));
        assert i < |was| - 1 ==> Apart(was, i, |was| - 1);
      }
    }

    /** *prevNext = r->next, with prev the record that prevNext points into (null for head). */
    method Skip(prev: RtxRecord?, r: RtxRecord, ghost k: nat)
      requires Chain() && Holds() && k < |nodes| && nodes[k] == r && prev == NodeAt(nodes, k - 1)
      modifies `head, `nodes, `recs, repr`next
      ensures Chain() && Holds() && nodes == DropAt(old(nodes), k) && recs == DropAt(old(recs), k)
    {
      assert LinkAt(nodes, k);
      if prev == null {
        head := r.next;
      } else {
        prev.next := r.next;
      }
      ghost var was := nodes;
      nodes, recs := DropAt(nodes, k), DropAt(recs, k);
      DropKeepsDistinct(was, k);
      DropEnds(was, k);
      forall i | 0 <= i < |nodes|
        ensures LinkAt(nodes, i) && nodes[i] in repr
        ensures nodes[i].Value() == recs[i]
      {
        ghost var x := if i < k then i else i + 1;
        DropNext(was, k, i);
        DropElement(old(recs), k, i);
        assert old(LinkAt(was, x));
        assert x < k - 1 ==> Apart(was, x, k - 1);
        assert 0 <= k - 1 < x ==> Apart(was, k - 1, x);
      }
    }

    /** Dtls13RtxRecordUnlink */
    method Unlink(prev: RtxRecord?, r: RtxRecord, ghost k: nat)
      requires Valid() && k < |nodes| && nodes[k] == r && prev == NodeAt(nodes, k - 1)
      modifies this, repr`next
      ensures Valid() && nodes == DropAt(old(nodes), k) && repr == old(repr)
      ensures recs == DropAt(old(recs), k)
    {
      NodeHere(k);
      DropEnds(nodes, k);
      if r.next == null {
        tail := prev;
      }
      assert tail == NodeAt(DropAt(nodes, k), |nodes| - 2);
      Skip(prev, r, k);
    }

    /** Dtls13RtxMoveToEndOfList */
    method MoveToEnd(prev: RtxRecord?, r: RtxRecord, ghost k: nat)
      requires Valid() && k < |nodes| && nodes[k] == r && prev == NodeAt(nodes, k - 1)
      modifies this, repr`next
      ensures Valid() && nodes == DropAt(old(nodes), k) + [r] && repr == old(repr)
      ensures recs == DropAt(old(recs), k) + [old(recs)[k]]
    {
      NodeHere(k);
      if r.next == null {
        return;
      }
      DropKeepsDistinct(nodes, k);
      Unlink(prev, r, k);
      AddRecord(r);
    }

    /** Unlinks r and hands back the record that follows. */
    method FreeRecord(prev: RtxRecord?, r: RtxRecord, ghost k: nat) returns (next: RtxRecord?)
      requires Chain() && Holds() && k < |nodes| && nodes[k] == r && prev == NodeAt(nodes, k - 1)
      modifies `head, `nodes, `recs, repr`next
      ensures Chain() && Holds() && recs == DropAt(old(recs), k)
      ensures next == NodeAt(nodes, k) && prev == NodeAt(nodes, k - 1)
    {
      NodeHere(k);
      DropNextIs(nodes, k);
      next := r.next;
      Skip(prev, r, k);
    }

    /** Records the number under which record k was just resent. */
    method TrackSend(r: RtxRecord, number: word64, ghost k: nat)
      requires Valid() && k < |nodes| && nodes[k] == r
      modifies `recs, r`slots, r`rnIdx
      ensures Valid() && recs == old(recs)[k := Resent(old(recs)[k], number)]
    {
      r.Track(number);
      recs := recs[k := r.Value()];
      forall i | 0 <= i < |nodes|
        ensures nodes[i].Value() == recs[i]
      {
        assert i < k ==> Apart(nodes, i, k);
        assert k < i ==> Apart(nodes, k, i);
      }
    }

    /** Dtls13RtxFlushBuffered */
    method FlushBuffered(keepTickets: bool)
      requires Valid()
      modifies this, repr`next
      ensures Valid() && recs == Flushed(old(recs), keepTickets)
      ensures repr == old(repr)
    {
      FlushFromIs(recs, 0, keepTickets);
      var last := FlushChain(keepTickets);
      SetTail(last);
    }

    method SetTail(last: RtxRecord?)
      requires Chain() && Holds() && last == NodeAt(nodes, |nodes| - 1)
      modifies `tail
      ensures Valid()
    {
      tail := last;
    }

    /** The loop of Dtls13RtxFlushBuffered: the record at whose next field the list then ends. */
    method FlushChain(keepTickets: bool) returns (prev: RtxRecord?)
      requires Chain() && Holds()
      modifies `head, `nodes, `recs, repr`next
      ensures Chain() && Holds() && prev == NodeAt(nodes, |nodes| - 1)
      ensures recs == FlushFrom(old(recs), 0, keepTickets)
    {
      prev := null;
      var r := head;
      ghost var k := 0;
      while r != null
        invariant Chain() && Holds() && k <= |nodes|
        invariant prev == NodeAt(nodes, k - 1) && r == NodeAt(nodes, k)
        invariant FlushFrom(recs, k, keepTickets) == FlushFrom(old(recs), 0, keepTickets)
        decreases |nodes| - k
      {
        if keepTickets && r.htype == SESSION_TICKET {
          NodeHere(k);
          prev, r, k := r, r.next, k + 1;
        } else {
          r := FreeRecord(prev, r, k);
        }
      }
    }

    /** Dtls13RtxRemoveRecord */
    method RemoveRecord(rn: RecordNumber)
      requires Valid()
      modifies this, repr`next
      ensures Valid() && recs == Remove(old(recs), rn)
      ensures repr == old(repr)
    {
      RemoveFromIs(recs, 0, rn);
      var prev, r;
      ghost var k;
      prev, r, k := FindTracked(rn);
      if r != null {
        Unlink(prev, r, k);
      }
    }

    /** The search of Dtls13RtxRemoveRecord, with Dtls13RtxIsTrackedByRn: the record to unlink and the one before it. */
    method FindTracked(rn: RecordNumber) returns (prev: RtxRecord?, r: RtxRecord?, ghost k: nat)
      requires Valid()
      ensures k <= |nodes| && prev == NodeAt(nodes, k - 1) && r == NodeAt(nodes, k)
      ensures RemoveFrom(recs, 0, rn) == if r == null then recs else DropAt(recs, k)
    {
      prev, r, k := null, head, 0;
      while r != null
        invariant k <= |nodes| && prev == NodeAt(nodes, k - 1) && r == NodeAt(nodes, k)
        invariant RemoveFrom(recs, 0, rn) == RemoveFrom(recs, k, rn)
        decreases |nodes| - k
      {
        NodeHere(k);
        if r.epoch == rn.epoch {
          var i := 0;
          while i < r.rnIdx && r.slots[i] != rn.seqNum
            invariant i <= r.rnIdx
            invariant rn.seqNum !in r.slots[..i]
          {
            i := i + 1;
          }
          if i < r.rnIdx {
            assert r.slots[..r.rnIdx][i] == rn.seqNum;
            return;
          }
        }
        prev, r, k := r, r.next, k + 1;
      }
    }
  }
}
