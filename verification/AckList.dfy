/** The list of record numbers to acknowledge in memory, and the loops that write and read an ACK message. */
module AckList {
  import opened Buffers
  import opened Bytes
  import opened Sequences
  import opened FixedCodec
  import opened RtxRecords
  import RtxQueue
  import opened AckMessage

  class NumberNode {
    var next: NumberNode?
    const rn: RecordNumber

    constructor (rn: RecordNumber)
      ensures this.rn == rn
    {
      next, this.rn := null, rn;
    }
  }

  ghost function NodeAt(nodes: seq<NumberNode>, i: int): NumberNode?
  {
    if 0 <= i < |nodes| then nodes[i] else null
  }

  ghost predicate LinkAt(nodes: seq<NumberNode>, i: int)
    requires 0 <= i < |nodes|
    reads nodes`next
  {
    nodes[i].next == NodeAt(nodes, i + 1)
  }

  datatype Added = Ok | MemoryError

  /** In an increasing list the search stops at the number if it is there. */
  lemma FoundIffPresent(nums: seq<RecordNumber>, rn: RecordNumber)
    requires Increasing(nums)
    ensures
      var i := InsertAt(nums, rn, 0);
      rn in nums <==> i < |nums| && nums[i] == rn
  {
    var i := InsertAt(nums, rn, 0);
    if rn in nums {
      var j :| 0 <= j < |nums| && nums[j] == rn;
      assert i < j ==> Below(nums, i, j);
    }
  }

  /** The search of Dtls13RtxRemoveCurAck from index k on. */
  ghost function DropFrom(nums: seq<RecordNumber>, k: nat, rn: RecordNumber): seq<RecordNumber>
    decreases |nums| - k
  {
    if k >= |nums| then nums else if nums[k] == rn then DropAt(nums, k) else DropFrom(nums, k + 1, rn)
  }

  lemma {:induction false} DropFromIs(nums: seq<RecordNumber>, k: nat, rn: RecordNumber)
    requires k <= |nums|
    ensures DropFrom(nums, k, rn) == nums[..k] + Dropped(nums[k..], rn)
    decreases |nums| - k
  {
    if k < |nums| {
      assert nums[k..][1..] == nums[k + 1..];
      assert nums[..k] + [nums[k]] == nums[..k + 1];
      DropFromIs(nums, k + 1, rn);
    }
  }

  class SeenRecords {
    var head: NumberNode?
    ghost var nodes: seq<NumberNode>
    ghost var nums: seq<RecordNumber>
    ghost var repr: set<NumberNode>

    ghost predicate Chain()
      reads this, nodes`next
    {
      && (forall i :: 0 <= i < |nodes| ==> nodes[i] in repr)
      && Distinct(nodes) && head == NodeAt(nodes, 0)
      && (forall i :: 0 <= i < |nodes| ==> LinkAt(nodes, i))
      && |nums| == |nodes| && (forall i :: 0 <= i < |nodes| ==> nodes[i].rn == nums[i])
    }

    /** An acyclic chain whose numbers increase. */
    ghost predicate Valid()
      reads this, nodes`next
    {
      Chain() && Increasing(nums)
    }

    constructor ()
      ensures Valid() && nums == [] && repr == {}
    {
      head, nodes, nums, repr := null, [], [], {};
    }

    /** Dtls13RtxAddAck: memory says whether an allocation succeeds. */
    method AddAck(rn: RecordNumber, memory: bool) returns (ret: Added)
      requires Valid()
      modifies this, repr`next
      ensures Valid() && fresh(repr - old(repr))
      ensures ret == (if rn in old(nums) || memory then Ok else MemoryError)
      ensures nums == if ret == Ok then Inserted(old(nums), rn) else old(nums)
    {
      FoundIffPresent(nums, rn);
      InsertKeepsIncreasing(nums, rn);
      var prev: NumberNode? := null;
      var cur := head;
      ghost var k := 0;
      while cur != null
        invariant k <= |nodes| && prev == NodeAt(nodes, k - 1) && cur == NodeAt(nodes, k)
        invariant InsertAt(nums, rn, 0) == InsertAt(nums, rn, k)
        decreases |nodes| - k
      {
        if cur.rn == rn {
          return Ok;
        }
        if Less(rn, cur.rn) {
          break;
        }
        assert LinkAt(nodes, k);
        prev, cur, k := cur, cur.next, k + 1;
      }
      if !memory {
        return MemoryError;
      }
      var node := new NumberNode(rn);
      LinkIn(prev, node, cur, k);
      ret := Ok;
    }

    method LinkIn(prev: NumberNode?, node: NumberNode, cur: NumberNode?, ghost k: nat)
      requires Chain() && k <= |nodes| && prev == NodeAt(nodes, k - 1) && cur == NodeAt(nodes, k)
      requires node !in nodes
      modifies this, repr`next, node`next
      ensures Chain() && repr == old(repr) + {node}
      ensures nums == old(nums)[..k] + [node.rn] + old(nums)[k..]
    {
      if prev == null {
        head := node;
      } else {
        prev.next := node;
      }
      node.next := cur;
      ghost var was := nodes;
      nodes := nodes[..k] + [node] + nodes[k..];
      nums := nums[..k] + [node.rn] + nums[k..];
      repr := repr + {node};
      InsertKeepsDistinct(was, node, k);
      forall i | 0 <= i < |nodes|
        ensures LinkAt(nodes, i)
      {
        var x := if i < k then i else i - 1;
        assert i != k ==> old(LinkAt(was, x));
        assert x < k - 1 ==> Apart(was, x, k - 1);
        assert 0 <= k - 1 < x < |was| ==> Apart(was, k - 1, x);
      }
    }

    /** Dtls13RtxRemoveCurAck, for the record being processed. */
    method RemoveCurAck(rn: RecordNumber)
      requires Valid()
      modifies this, repr`next
      ensures Valid() && repr == old(repr) && nums == Dropped(old(nums), rn)
    {
      DropKeepsIncreasing(nums, rn);
      DropFromIs(nums, 0, rn);
      ghost var rest := Dropped(nums, rn);
      assert DropFrom(nums, 0, rn) == rest;
      var prev: NumberNode? := null;
      var cur := head;
      ghost var k := 0;
      while cur != null
        invariant k <= |nodes| && prev == NodeAt(nodes, k - 1) && cur == NodeAt(nodes, k)
        invariant DropFrom(nums, 0, rn) == DropFrom(nums, k, rn)
        decreases |nodes| - k
      {
        if cur.rn == rn {
          assert DropAt(nums, k) == rest;
          LinkOut(prev, cur, k);
          return;
        }
        assert LinkAt(nodes, k);
        prev, cur, k := cur, cur.next, k + 1;
      }
    }

    method LinkOut(prev: NumberNode?, cur: NumberNode, ghost k: nat)
      requires Chain() && k < |nodes| && prev == NodeAt(nodes, k - 1) && cur == nodes[k]
      modifies this, repr`next
      ensures Chain() && repr == old(repr) && nums == DropAt(old(nums), k)
    {
      assert LinkAt(nodes, k);
      if prev == null {
        head := cur.next;
      } else {
        prev.next := cur.next;
      }
      ghost var was := nodes;
      nodes, nums := DropAt(nodes, k), DropAt(nums, k);
      DropKeepsDistinct(was, k);
      forall i | 0 <= i < |nodes|
        ensures LinkAt(nodes, i) && nodes[i] in repr && nodes[i].rn == nums[i]
      {
        ghost var x := if i < k then i else i + 1;
        DropElement(was, k, i);
        DropElement(old(nums), k, i);
        if i + 1 < |nodes| {
          DropElement(was, k, i + 1);
        }
        assert old(LinkAt(was, x));
        assert x < k - 1 ==> Apart(was, x, k - 1);
        assert 0 <= k - 1 < x ==> Apart(was, k - 1, x);
      }
    }

    /** Dtls13RtxFlushAcks */
    method FlushAcks()
      requires Valid()
      modifies this
      ensures Valid() && nums == [] && repr == old(repr)
    {
      var list := head;
      ghost var k := 0;
      while list != null
        invariant k <= |nodes| && list == NodeAt(nodes, k)
        decreases |nodes| - k
      {
        assert LinkAt(nodes, k);
        list, k := list.next, k + 1;
      }
      head, nodes, nums := null, [], [];
    }

    /** Dtls13GetAckListLength */
    method GetAckListLength() returns (length: word16)
      requires Valid()
      ensures length == ListLength(|nums|)
    {
      var n := 0;
      var list := head;
      while list != null
        invariant n <= |nodes| && list == NodeAt(nodes, n)
        decreases |nodes| - n
      {
        assert LinkAt(nodes, n);
        list, n := list.next, n + 1;
      }
      length := (16 * n) % 0x1_0000;
    }

    /** Dtls13WriteAckMessage into a buffer with room for every entry. */
    method WriteAckMessage(out: array<byte>) returns (length: nat)
      requires Valid() && 2 + 16 * |nums| <= out.Length
      modifies out
      ensures length == 2 + ListLength(|nums|) <= out.Length
      ensures out[..2 + 16 * |nums|] == Written(nums)
      ensures out[..length] == AckBytes(nums)
      ensures forall i :: 2 + 16 * |nums| <= i < out.Length ==> out[i] == old(out[i])
    {
      var size := GetAckListLength();
      WriteBytes(out, 0, Put16(size));
      WriteEntries(out);
      length := size + 2;
      SentBytes(nums, out[..], length);
    }

    /** The loop of Dtls13WriteAckMessage. */
    method WriteEntries(out: array<byte>)
      requires Valid() && 2 + 16 * |nums| <= out.Length
      modifies out
      ensures out[..2 + 16 * |nums|] == old(out[..2]) + Entries(nums)
      ensures forall i :: 2 + 16 * |nums| <= i < out.Length ==> out[i] == old(out[i])
    {
      var list := head;
      ghost var k := 0;
      var at := 2;
      while list != null
        invariant k <= |nodes| && list == NodeAt(nodes, k) && at == 2 + 16 * k
        invariant out[..at] == old(out[..2]) + Entries(nums[..k])
        invariant forall i :: 2 + 16 * |nums| <= i < out.Length ==> out[i] == old(out[i])
        decreases |nodes| - k
      {
        assert LinkAt(nodes, k);
        EntriesStep(nums, k);
        WriteBytes(out, at, PutEntry(list.rn));
        list, at, k := list.next, at + 16, k + 1;
      }
      assert nums[..k] == nums;
    }
  }

  lemma SentBytes(nums: seq<RecordNumber>, out: seq<byte>, length: nat)
    requires length == 2 + ListLength(|nums|) && |Written(nums)| <= |out| && out[..|Written(nums)|] == Written(nums)
    ensures length <= |Written(nums)| == 2 + 16 * |nums|
    ensures out[..length] == AckBytes(nums)
  {
    EntriesLength(nums);
    ListLengthIs(|nums|);
  }

  lemma EntriesStep(nums: seq<RecordNumber>, k: nat)
    requires k < |nums|
    ensures Entries(nums[..k + 1]) == Entries(nums[..k]) + PutEntry(nums[k])
  {
    assert nums[..k + 1][..k] == nums[..k];
  }

  const KEY_UPDATE: byte := 24

  datatype AckOutcome = Processed(size: nat, finished: bool, keysMayAdvance: bool) | Refused(why: Parsed)

  /** Dtls13RtxHasKeyUpdateBuffered */
  method HasKeyUpdateBuffered(queue: RtxQueue.Queue) returns (found: bool)
    requires queue.Valid()
    ensures found <==> exists i :: 0 <= i < |queue.recs| && queue.recs[i].htype == KEY_UPDATE
  {
    var r := queue.head;
    ghost var k := 0;
    while r != null
      invariant k <= |queue.nodes| && r == RtxQueue.NodeAt(queue.nodes, k)
      invariant forall i :: 0 <= i < k ==> queue.recs[i].htype != KEY_UPDATE
      decreases |queue.nodes| - k
    {
      assert queue.nodes[k].Value() == queue.recs[k];
      if r.htype == KEY_UPDATE {
        return true;
      }
      queue.NodeHere(k);
      r, k := r.next, k + 1;
    }
    found := false;
  }

  /**
   DoDtls13Ack: waitFinished says that a client awaits the acknowledgement of its last flight, waitKeyUpdate
   that a KeyUpdate is outstanding.
   */
  method DoAck(queue: RtxQueue.Queue, input: seq<byte>, waitFinished: bool, waitKeyUpdate: bool)
    returns (res: AckOutcome)
    requires queue.Valid()
    modifies queue, queue.repr`next
    ensures queue.Valid() && queue.repr == old(queue.repr)
    ensures !ParseAck(input).Numbers? ==> res == Refused(ParseAck(input)) && queue.recs == old(queue.recs)
    ensures ParseAck(input).Numbers? ==>
      && queue.recs == RemoveAll(old(queue.recs), ParseAck(input).nums)
      && res.Processed? && res.size == 2 + Get16(input)
      && (res.finished <==> waitFinished && queue.recs == [])
      && (res.keysMayAdvance <==>
          waitKeyUpdate && forall i :: 0 <= i < |queue.recs| ==> queue.recs[i].htype != KEY_UPDATE)
  {
    if |input| < 2 {
      return Refused(BufferError);
    }
    var length: int := Get16(input);
    if |input| < 2 + length {
      return Refused(BufferError);
    }
    if length % 16 != 0 {
      return Refused(ParseError);
    }
    RemoveEntries(queue, input[2..2 + length]);
    var finished := waitFinished && queue.head == null;
    var buffered := HasKeyUpdateBuffered(queue);
    res := Processed(length + 2, finished, waitKeyUpdate && !buffered);
  }

  /** The loop of DoDtls13Ack. */
  method RemoveEntries(queue: RtxQueue.Queue, list: seq<byte>)
    requires queue.Valid() && |list| % 16 == 0
    modifies queue, queue.repr`next
    ensures queue.Valid() && queue.repr == old(queue.repr)
    ensures queue.recs == RemoveAll(old(queue.recs), DecodeAll(list, 16, GetEntry))
  {
    var i := 0;
    ghost var acks := [];
    ghost var was := queue.recs;
    while i < |list|
      invariant queue.Valid() && queue.repr == old(queue.repr)
      invariant i <= |list| && (|list| - i) % 16 == 0
      invariant acks == DecodeAll(list[..i], 16, GetEntry) && queue.recs == RemoveAll(was, acks)
    {
      acks := RemoveEntry(queue, list, i, was, acks);
      i := i + 16;
    }
    assert list[..i] == list;
  }

  method RemoveEntry(queue: RtxQueue.Queue, list: seq<byte>, i: nat, ghost was: seq<Rec>, ghost acks: seq<RecordNumber>)
    returns (ghost acks': seq<RecordNumber>)
    requires queue.Valid() && i + 16 <= |list|
    requires acks == DecodeAll(list[..i], 16, GetEntry) && queue.recs == RemoveAll(was, acks)
    modifies queue, queue.repr`next
    ensures queue.Valid() && queue.repr == old(queue.repr)
    ensures acks' == DecodeAll(list[..i + 16], 16, GetEntry) && queue.recs == RemoveAll(was, acks')
  {
    var rn := GetEntry(list[i..i + 16]);
    DecodeStep(list, 16, i, GetEntry);
    RemoveAllStep(was, acks, rn);
    queue.RemoveRecord(rn);
    acks' := acks + [rn];
  }
}
