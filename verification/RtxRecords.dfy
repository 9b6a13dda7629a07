/**
 Retransmission records as values: the record numbers a record remembers, and what acknowledgements remove.
 Dtls13RtxNewRecord, the tracking in Dtls13RtxSendBuffered, Dtls13RtxIsTrackedByRn, Dtls13RtxRemoveRecord and
 the loop of DoDtls13Ack in boot/src/dtls13.c.
 */
module RtxRecords {
  import opened Bytes

  const RETRANS_RN_SIZE := 3
  const SESSION_TICKET: byte := 4

  type Slots = s: seq<word64> | |s| == RETRANS_RN_SIZE witness [0, 0, 0]

  type RnIdx = i: nat | 1 <= i <= RETRANS_RN_SIZE witness 1

  datatype Rec = Rec(epoch: word64, htype: byte, data: seq<byte>, slots: Slots, rnIdx: RnIdx) {
    /** The numbers the lookup scans. */
    function Tracked(): seq<word64> { slots[..rnIdx] }
  }

  datatype RecordNumber = RecordNumber(epoch: word64, seqNum: word64)

  /** Dtls13RtxNewRecord; the slots beyond the first are not initialised by the code. */
  function NewRec(epoch: word64, htype: byte, data: seq<byte>, number: word64, junk1: word64, junk2: word64): (r: Rec)
    ensures r.Tracked() == [number]
  {
    Rec(epoch, htype, data, [number, junk1, junk2], 1)
  }

  /** What a retransmission does to the record it sent under a new number. */
  function Resent(r: Rec, number: word64): (r': Rec)
    ensures r'.epoch == r.epoch && r'.htype == r.htype && r'.data == r.data
    ensures r'.Tracked() == if r.rnIdx >= RETRANS_RN_SIZE then [number] else r.Tracked() + [number]
  {
    var at := if r.rnIdx >= RETRANS_RN_SIZE then 0 else r.rnIdx;
    r.(slots := r.slots[at := number], rnIdx := at + 1)
  }

  /** Dtls13RtxIsTrackedByRn */
  predicate IsTrackedByRn(r: Rec, rn: RecordNumber)
  {
    r.epoch == rn.epoch && rn.seqNum in r.Tracked()
  }

  // ---------- flushing ----------

  /** Dtls13RtxFlushBuffered as a filter. */
  function Flushed(recs: seq<Rec>, keepTickets: bool): seq<Rec>
  {
    if recs == [] then []
    else if keepTickets && recs[0].htype == SESSION_TICKET then [recs[0]] + Flushed(recs[1..], keepTickets)
    else Flushed(recs[1..], keepTickets)
  }

  // ---------- how much of its history a record remembers ----------

  /** The record after being sent under first and resent under the further numbers. */
  function AfterSends(epoch: word64, htype: byte, data: seq<byte>, first: word64, again: seq<word64>,
                      junk1: word64, junk2: word64): (r: Rec)
    ensures r.epoch == epoch && r.htype == htype && r.data == data
  {
    if again == [] then NewRec(epoch, htype, data, first, junk1, junk2)
    else Resent(AfterSends(epoch, htype, data, first, again[..|again| - 1], junk1, junk2), again[|again| - 1])
  }

  /** How many of n transmissions are still tracked. */
  function Window(n: nat): (w: nat)
    requires n > 0
    ensures 1 <= w <= n && w <= RETRANS_RN_SIZE
  {
    (n - 1) % RETRANS_RN_SIZE + 1
  }

  /** After n transmissions exactly the last ((n - 1) mod 3) + 1 numbers are tracked, in order. */
  lemma {:induction false} TracksLatest(epoch: word64, htype: byte, data: seq<byte>, first: word64, again: seq<word64>,
                                        junk1: word64, junk2: word64)
    ensures
      var sent := [first] + again;
      AfterSends(epoch, htype, data, first, again, junk1, junk2).Tracked() == sent[|sent| - Window(|sent|)..]
  {
    if again != [] {
      var before, last := again[..|again| - 1], again[|again| - 1];
      TracksLatest(epoch, htype, data, first, before, junk1, junk2);
      assert [first] + again == [first] + before + [last];
      WindowSlides([first] + before, last);
    }
  }

  lemma WindowSlides(sent: seq<word64>, last: word64)
    requires sent != []
    ensures
      var n := |sent|;
      (sent + [last])[n + 1 - Window(n + 1)..] ==
      (if Window(n) == RETRANS_RN_SIZE then [last] else sent[n - Window(n)..] + [last])
  {
  }

  /** The latest transmission is always acknowledgeable, and no number matches that was never used. */
  lemma LatestIsTracked(epoch: word64, htype: byte, data: seq<byte>, first: word64, again: seq<word64>,
                        junk1: word64, junk2: word64, rn: RecordNumber)
    ensures
      var sent := [first] + again;
      var r := AfterSends(epoch, htype, data, first, again, junk1, junk2);
      && IsTrackedByRn(r, RecordNumber(epoch, sent[|sent| - 1]))
      && (IsTrackedByRn(r, rn) ==> rn.epoch == epoch && rn.seqNum in sent)
  {
    var sent := [first] + again;
    TracksLatest(epoch, htype, data, first, again, junk1, junk2);
    var tracked := sent[|sent| - Window(|sent|)..];
    assert tracked[|tracked| - 1] == sent[|sent| - 1];
  }

  // ---------- acknowledgements ----------

  /** Dtls13RtxRemoveRecord: the first record tracked by the number goes. */
  function Remove(recs: seq<Rec>, rn: RecordNumber): (r: seq<Rec>)
  {
    if recs == [] then []
    else if IsTrackedByRn(recs[0], rn) then recs[1..]
    else
      [recs[0]] + Remove(recs[1..], rn)
  }

  /** The loop of DoDtls13Ack. */
  function RemoveAll(recs: seq<Rec>, acks: seq<RecordNumber>): (r: seq<Rec>)
    decreases |acks|
  {
    if acks == [] then recs else RemoveAll(Remove(recs, acks[0]), acks[1..])
  }

  lemma {:induction false} RemoveAllStep(recs: seq<Rec>, acks: seq<RecordNumber>, rn: RecordNumber)
    ensures RemoveAll(recs, acks + [rn]) == Remove(RemoveAll(recs, acks), rn)
    decreases |acks|
  {
    var all := acks + [rn];
    if acks == [] {
      assert RemoveAll(recs, all) == RemoveAll(Remove(recs, rn), []);
    } else {
      assert all[1..] == acks[1..] + [rn];
      RemoveAllStep(Remove(recs, acks[0]), acks[1..], rn);
    }
  }

  ghost predicate Acked(r: Rec, acks: set<RecordNumber>)
  {
    exists rn :: rn in acks && IsTrackedByRn(r, rn)
  }

  /** The records none of whose tracked numbers is acknowledged, in their old order. */
  ghost function Unacked(recs: seq<Rec>, acks: set<RecordNumber>): (r: seq<Rec>)
    ensures forall x :: x in r ==> x in recs
  {
    if recs == [] then []
    else
      var rest := Unacked(recs[1..], acks);
      if Acked(recs[0], acks) then rest else [recs[0]] + rest
  }

  /** No record number is tracked by two queued records. */
  ghost predicate NumbersDistinct(recs: seq<Rec>)
  {
    forall i, j, rn :: 0 <= i < j < |recs| && IsTrackedByRn(recs[i], rn) ==> !IsTrackedByRn(recs[j], rn)
  }

  lemma {:induction false} RemoveUntracked(recs: seq<Rec>, rn: RecordNumber)
    requires forall i :: 0 <= i < |recs| ==> !IsTrackedByRn(recs[i], rn)
    ensures Unacked(recs, {rn}) == recs
  {
    if recs != [] {
      assert forall i :: 0 <= i < |recs| - 1 ==> recs[1..][i] == recs[i + 1];
      RemoveUntracked(recs[1..], rn);
      assert !Acked(recs[0], {rn});
    }
  }

  lemma {:induction false} RemoveIsUnacked(recs: seq<Rec>, rn: RecordNumber)
    requires NumbersDistinct(recs)
    ensures Remove(recs, rn) == Unacked(recs, {rn})
  {
    if recs != [] {
      var rest := recs[1..];
      assert forall i :: 0 <= i < |rest| ==> rest[i] == recs[i + 1];
      assert Acked(recs[0], {rn}) <==> IsTrackedByRn(recs[0], rn);
      if IsTrackedByRn(recs[0], rn) {
        RemoveUntracked(rest, rn);
      } else {
        RemoveIsUnacked(rest, rn);
      }
    }
  }

  lemma {:induction false} UnackedTwice(recs: seq<Rec>, a: set<RecordNumber>, b: set<RecordNumber>)
    ensures Unacked(Unacked(recs, a), b) == Unacked(recs, a + b)
  {
    if recs != [] {
      UnackedTwice(recs[1..], a, b);
      assert Acked(recs[0], a + b) <==> Acked(recs[0], a) || Acked(recs[0], b);
      var rest := Unacked(recs[1..], a);
      assert ([recs[0]] + rest)[1..] == rest;
    }
  }

  lemma {:induction false} UnackedNone(recs: seq<Rec>)
    ensures Unacked(recs, {}) == recs
  {
    if recs != [] {
      UnackedNone(recs[1..]);
      assert !Acked(recs[0], {});
    }
  }

  lemma {:induction false} UnackedDistinct(recs: seq<Rec>, acks: set<RecordNumber>)
    requires NumbersDistinct(recs)
    ensures NumbersDistinct(Unacked(recs, acks))
  {
    if recs != [] {
      var rest := recs[1..];
      assert forall i :: 0 <= i < |rest| ==> rest[i] == recs[i + 1];
      UnackedDistinct(rest, acks);
      var u := Unacked(rest, acks);
      forall j, rn | 0 <= j < |u| && IsTrackedByRn(recs[0], rn)
        ensures !IsTrackedByRn(u[j], rn)
      {
        assert u[j] in rest;
      }
    }
  }

  ghost function ToSet(acks: seq<RecordNumber>): set<RecordNumber>
  {
    set a | a in acks
  }

  /** Processing an ACK leaves exactly the records none of whose tracked numbers it names, in their old order. */
  lemma {:induction false} AckExact(recs: seq<Rec>, acks: seq<RecordNumber>)
    requires NumbersDistinct(recs)
    ensures RemoveAll(recs, acks) == Unacked(recs, ToSet(acks))
    decreases |acks|
  {
    if acks == [] {
      assert ToSet(acks) == {};
      UnackedNone(recs);
    } else {
      RemoveIsUnacked(recs, acks[0]);
      UnackedDistinct(recs, {acks[0]});
      AckExact(Remove(recs, acks[0]), acks[1..]);
      UnackedTwice(recs, {acks[0]}, ToSet(acks[1..]));
      assert acks == [acks[0]] + acks[1..];
      assert {acks[0]} + ToSet(acks[1..]) == ToSet(acks);
    }
  }

  /** The result does not depend on the order or repetition of the numbers in the ACK. */
  lemma AckOrderIrrelevant(recs: seq<Rec>, acks: seq<RecordNumber>, acks': seq<RecordNumber>)
    requires NumbersDistinct(recs) && ToSet(acks) == ToSet(acks')
    ensures RemoveAll(recs, acks) == RemoveAll(recs, acks')
  {
    AckExact(recs, acks);
    AckExact(recs, acks');
  }

  lemma AckIdempotent(recs: seq<Rec>, acks: seq<RecordNumber>)
    requires NumbersDistinct(recs)
    ensures RemoveAll(RemoveAll(recs, acks), acks) == RemoveAll(recs, acks)
  {
    AckExact(recs, acks);
    UnackedDistinct(recs, ToSet(acks));
    AckExact(Unacked(recs, ToSet(acks)), acks);
    UnackedTwice(recs, ToSet(acks), ToSet(acks));
    assert ToSet(acks) + ToSet(acks) == ToSet(acks);
  }

  lemma {:induction false} UnackedShrinks(recs: seq<Rec>, rn: RecordNumber, i: nat, j: nat)
    requires i < j < |recs| && IsTrackedByRn(recs[i], rn) && IsTrackedByRn(recs[j], rn)
    ensures |Unacked(recs, {rn})| <= |recs| - 2
  {
    assert Unacked(recs, {rn}) ==
      if Acked(recs[0], {rn}) then Unacked(recs[1..], {rn}) else [recs[0]] + Unacked(recs[1..], {rn});
    if i == 0 {
      assert Acked(recs[0], {rn});
      UnackedDropsOne(recs[1..], rn, j - 1);
    } else {
      UnackedShrinks(recs[1..], rn, i - 1, j - 1);
    }
  }

  lemma {:induction false} UnackedDropsOne(recs: seq<Rec>, rn: RecordNumber, j: nat)
    requires j < |recs| && IsTrackedByRn(recs[j], rn)
    ensures |Unacked(recs, {rn})| <= |recs| - 1
  {
    UnackedLength(recs[1..], rn);
    if j == 0 {
      assert Acked(recs[0], {rn});
    } else {
      UnackedDropsOne(recs[1..], rn, j - 1);
    }
  }

  lemma {:induction false} UnackedLength(recs: seq<Rec>, rn: RecordNumber)
    ensures |Unacked(recs, {rn})| <= |recs|
  {
    if recs != [] {
      UnackedLength(recs[1..], rn);
    }
  }

  lemma {:induction false} RemoveLength(recs: seq<Rec>, rn: RecordNumber)
    ensures |Remove(recs, rn)| >= |recs| - 1
  {
    if recs != [] && !IsTrackedByRn(recs[0], rn) {
      RemoveLength(recs[1..], rn);
    }
  }

  /** Distinct numbers are exactly what makes the removal of one record per number right. */
  lemma RemoveExactIffDistinct(recs: seq<Rec>)
    ensures (forall rn :: Remove(recs, rn) == Unacked(recs, {rn})) <==> NumbersDistinct(recs)
  {
    if NumbersDistinct(recs) {
      forall rn
        ensures Remove(recs, rn) == Unacked(recs, {rn})
      {
        RemoveIsUnacked(recs, rn);
      }
    } else {
      var i, j, rn :| 0 <= i < j < |recs| && IsTrackedByRn(recs[i], rn) && IsTrackedByRn(recs[j], rn);
      UnackedShrinks(recs, rn, i, j);
      RemoveLength(recs, rn);
    }
  }
}
