/**
 Record numbers to acknowledge: the sorted list as a value, and the ACK message it becomes (section 7 of
 RFC 9147).  Dtls13RtxAddAck, Dtls13RtxRemoveCurAck, Dtls13WriteAckMessage and the parser in DoDtls13Ack.
 */
module AckMessage {
  import opened Bytes
  import opened RtxRecords
  import opened FixedCodec

  predicate Less(a: RecordNumber, b: RecordNumber)
  {
    a.epoch < b.epoch || (a.epoch == b.epoch && a.seqNum < b.seqNum)
  }

  ghost predicate Below(nums: seq<RecordNumber>, i: int, j: int)
    requires 0 <= i < |nums| && 0 <= j < |nums|
  {
    Less(nums[i], nums[j])
  }

  /** Strictly increasing by epoch and then sequence number. */
  ghost predicate Increasing(nums: seq<RecordNumber>)
  {
    forall i, j :: 0 <= i < j < |nums| ==> Below(nums, i, j)
  }

  /** Where Dtls13RtxAddAck stops: at the number itself or at the first larger one. */
  function InsertAt(nums: seq<RecordNumber>, rn: RecordNumber, k: nat): (i: nat)
    requires k <= |nums|
    ensures k <= i <= |nums|
    ensures forall j :: k <= j < i ==> nums[j] != rn && !Less(rn, nums[j])
    ensures i < |nums| ==> nums[i] == rn || Less(rn, nums[i])
    decreases |nums| - k
  {
    if k == |nums| || nums[k] == rn || Less(rn, nums[k]) then k else InsertAt(nums, rn, k + 1)
  }

  /** Dtls13RtxAddAck when memory can be had. */
  function Inserted(nums: seq<RecordNumber>, rn: RecordNumber): seq<RecordNumber>
  {
    var i := InsertAt(nums, rn, 0);
    if i < |nums| && nums[i] == rn then nums else nums[..i] + [rn] + nums[i..]
  }

  /** Dtls13RtxRemoveCurAck */
  function Dropped(nums: seq<RecordNumber>, rn: RecordNumber): seq<RecordNumber>
  {
    if nums == [] then []
    else if nums[0] == rn then nums[1..]
    else [nums[0]] + Dropped(nums[1..], rn)
  }

  lemma InsertKeepsIncreasing(nums: seq<RecordNumber>, rn: RecordNumber)
    requires Increasing(nums)
    ensures Increasing(Inserted(nums, rn))
    ensures ToSet(Inserted(nums, rn)) == ToSet(nums) + {rn}
  {
    var i := InsertAt(nums, rn, 0);
    var r := Inserted(nums, rn);
    if i < |nums| && nums[i] == rn {
      assert rn in nums;
    } else {
      forall x, y | 0 <= x < y < |r|
        ensures Below(r, x, y)
      {
        InsertedOrder(nums, rn, x, y);
      }
      assert forall x :: x in r <==> x in nums[..i] || x == rn || x in nums[i..];
      assert nums == nums[..i] + nums[i..];
      assert forall x :: x in nums <==> x in nums[..i] || x in nums[i..];
    }
  }

  lemma InsertedOrder(nums: seq<RecordNumber>, rn: RecordNumber, x: nat, y: nat)
    requires Increasing(nums) && x < y <= |nums|
    requires var i := InsertAt(nums, rn, 0); !(i < |nums| && nums[i] == rn)
    ensures Below(Inserted(nums, rn), x, y)
  {
    var i := InsertAt(nums, rn, 0);
    var r := Inserted(nums, rn);
    assert r[x] == if x < i then nums[x] else if x == i then rn else nums[x - 1];
    assert r[y] == if y < i then nums[y] else if y == i then rn else nums[y - 1];
    if x < i < y {
      assert Below(nums, x, y - 1);
    } else if y < i {
      assert Below(nums, x, y);
    } else if i < x {
      assert Below(nums, x - 1, y - 1);
    } else if x == i {
      assert y - 1 > i ==> Below(nums, i, y - 1);
    }
  }

  lemma {:induction false} DropKeepsIncreasing(nums: seq<RecordNumber>, rn: RecordNumber)
    requires Increasing(nums)
    ensures Increasing(Dropped(nums, rn))
    ensures ToSet(Dropped(nums, rn)) == ToSet(nums) - {rn}
  {
    if nums != [] {
      var rest := nums[1..];
      forall i, j | 0 <= i < j < |rest|
        ensures Below(rest, i, j)
      {
        assert Below(nums, i + 1, j + 1);
      }
      forall x | x in rest
        ensures Less(nums[0], x)
      {
        var j :| 0 <= j < |rest| && rest[j] == x;
        assert Below(nums, 0, j + 1);
      }
      assert ToSet(nums) == {nums[0]} + ToSet(rest);
      if nums[0] == rn {
        assert rn !in rest;
      } else {
        DropKeepsIncreasing(rest, rn);
        var r := Dropped(nums, rn);
        assert r[1..] == Dropped(rest, rn) && ToSet(r) == {nums[0]} + ToSet(Dropped(rest, rn));
        forall i, j | 0 <= i < j < |r|
          ensures Below(r, i, j)
        {
          if i == 0 {
            assert r[j] == Dropped(rest, rn)[j - 1];
            assert r[j] in ToSet(Dropped(rest, rn));
          } else {
            assert Below(Dropped(rest, rn), i - 1, j - 1);
          }
        }
      }
    }
  }

  // ---------- histories ----------

  datatype Event = Seen(rn: RecordNumber) | Forget(rn: RecordNumber) | FlushAll

  function After(events: seq<Event>): seq<RecordNumber>
  {
    if events == [] then []
    else
      var nums := After(events[..|events| - 1]);
      match events[|events| - 1]
      case Seen(rn) => Inserted(nums, rn)
      case Forget(rn) => Dropped(nums, rn)
      case FlushAll => []
  }

  ghost function SetAfter(events: seq<Event>): set<RecordNumber>
  {
    if events == [] then {}
    else
      var s := SetAfter(events[..|events| - 1]);
      match events[|events| - 1]
      case Seen(rn) => s + {rn}
      case Forget(rn) => s - {rn}
      case FlushAll => {}
  }

  /** Whatever happens, the list is the set of numbers seen and not dropped since, in increasing order. */
  lemma {:induction false} ListIsSortedSet(events: seq<Event>)
    ensures Increasing(After(events)) && ToSet(After(events)) == SetAfter(events)
  {
    if events != [] {
      var before := events[..|events| - 1];
      ListIsSortedSet(before);
      match events[|events| - 1]
      case Seen(rn) => InsertKeepsIncreasing(After(before), rn);
      case Forget(rn) => DropKeepsIncreasing(After(before), rn);
      case FlushAll => assert ToSet([]) == {};
    }
  }

  // ---------- the message ----------

  function PutEntry(rn: RecordNumber): (s: seq<byte>)
    ensures |s| == 16
  {
    Put64(rn.epoch) + Put64(rn.seqNum)
  }

  function GetEntry(s: seq<byte>): RecordNumber
  {
    if |s| != 16 then RecordNumber(0, 0) else RecordNumber(Get64(s[..8]), Get64(s[8..]))
  }

  lemma EntryRoundTrip(rn: RecordNumber)
    ensures GetEntry(PutEntry(rn)) == rn
  {
    var s := PutEntry(rn);
    assert s[..8] == Put64(rn.epoch) && s[8..] == Put64(rn.seqNum);
    GetPut64(rn.epoch);
    GetPut64(rn.seqNum);
  }

  /** The 16-bit length Dtls13GetAckListLength arrives at. */
  function ListLength(n: nat): word16
  {
    (16 * n) % 0x1_0000
  }

  function Entries(nums: seq<RecordNumber>): seq<byte>
  {
    EncodeAll(nums, PutEntry)
  }

  /** The bytes Dtls13WriteAckMessage puts into the output buffer. */
  function Written(nums: seq<RecordNumber>): seq<byte>
  {
    Put16(ListLength(|nums|)) + Entries(nums)
  }

  lemma EntriesLength(nums: seq<RecordNumber>)
    ensures |Entries(nums)| == 16 * |nums|
  {
    EncodeLength(nums, PutEntry);
  }

  /** The bytes that are sent: as many as the reported length says. */
  function AckBytes(nums: seq<RecordNumber>): seq<byte>
  {
    EntriesLength(nums);
    Written(nums)[..2 + ListLength(|nums|)]
  }

  datatype Parsed = Numbers(nums: seq<RecordNumber>) | BufferError | ParseError

  /** The parser of DoDtls13Ack. */
  function ParseAck(input: seq<byte>): Parsed
  {
    if |input| < 2 then BufferError
    else
      var length: int := Get16(input);
      if |input| < 2 + length then BufferError
      else if length % 16 != 0 then ParseError
      else Numbers(DecodeAll(input[2..2 + length], 16, GetEntry))
  }

  lemma ParsePut(length: nat, rest: seq<byte>, body: seq<byte>)
    requires length < 0x1_0000 && length <= |rest| && body == rest[..length] && length % 16 == 0
    ensures ParseAck((Put16(length) + rest)[..2 + length]) == Numbers(DecodeAll(body, 16, GetEntry))
  {
    var s := (Put16(length) + rest)[..2 + length];
    assert s == Put16(length) + body;
    assert s[2..2 + length] == body;
  }

  lemma EntriesRoundTrip(nums: seq<RecordNumber>)
    ensures DecodeAll(Entries(nums), 16, GetEntry) == nums
  {
    forall rn
      ensures GetEntry(PutEntry(rn)) == rn
    {
      EntryRoundTrip(rn);
    }
    DecodeEncode(nums, 16, PutEntry, GetEntry);
  }

  lemma ListLengthIs(n: nat)
    ensures ListLength(n) == 16 * (n % 4096)
  {
    assert 16 * n == 0x1_0000 * (n / 4096) + 16 * (n % 4096);
  }

  lemma EntriesPrefix(nums: seq<RecordNumber>, m: nat)
    requires m <= |nums|
    ensures 16 * m <= |Entries(nums)| && Entries(nums[..m]) == Entries(nums)[..16 * m]
  {
    EncodePrefix(nums, m, PutEntry);
    EntriesLength(nums);
    EntriesLength(nums[..m]);
  }

  /** A list of n numbers comes back as its first n mod 4096: the length field has 16 bits. */
  lemma AckRoundTrip(nums: seq<RecordNumber>)
    ensures ParseAck(AckBytes(nums)) == Numbers(nums[..|nums| % 4096])
  {
    var m := |nums| % 4096;
    ListLengthIs(|nums|);
    EntriesPrefix(nums, m);
    EntriesRoundTrip(nums[..m]);
    ParsePut(16 * m, Entries(nums), Entries(nums[..m]));
  }

  /** The ACK says what the list says exactly when the list has fewer than 4096 entries. */
  lemma AckFaithfulIffShort(nums: seq<RecordNumber>)
    ensures ParseAck(AckBytes(nums)) == Numbers(nums) <==> |nums| < 4096
  {
    AckRoundTrip(nums);
    if |nums| < 4096 {
      assert nums[..|nums|] == nums;
    } else {
      assert |nums[..|nums| % 4096]| < |nums|;
    }
  }

  /** The room asked for, taken from the same length, holds all that is written exactly for such a list. */
  lemma RoomIffShort(nums: seq<RecordNumber>)
    ensures |Written(nums)| <= 2 + ListLength(|nums|) <==> |nums| < 4096
  {
    EntriesLength(nums);
    ListLengthIs(|nums|);
  }

  /** From the receiver's list to the sender's queue: exactly the records seen under a tracked number go. */
  lemma SeenRecordsLeaveQueue(events: seq<Event>, recs: seq<Rec>)
    requires |After(events)| < 4096 && NumbersDistinct(recs)
    ensures ParseAck(AckBytes(After(events))).Numbers?
    ensures RemoveAll(recs, ParseAck(AckBytes(After(events))).nums) == Unacked(recs, SetAfter(events))
  {
    var nums := After(events);
    AckFaithfulIffShort(nums);
    ListIsSortedSet(events);
    AckExact(recs, nums);
  }
}
