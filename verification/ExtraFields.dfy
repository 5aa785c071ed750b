/**
 The extra field of a header as a list of records, and what the reader's walk makes of it.
 */
module ExtraFields {
  import opened Bytes
  import opened Wrappers
  import opened Clock
  import opened ZipFormat
  import opened ZipRecords
  import opened ReaderModel

  datatype Record = Record(tag: uint16, payload: bytes)

  predicate Fits(rs: seq<Record>) {
    forall r :: r in rs ==> |r.payload| <= UINT16_MAX
  }

  function Encode(r: Record): bytes
    requires |r.payload| <= UINT16_MAX
  {
    Put16(r.tag) + Put16(|r.payload|) + r.payload
  }

  function EncodeAll(rs: seq<Record>): bytes
    requires Fits(rs)
  {
    if rs == [] then [] else Encode(rs[0]) + EncodeAll(rs[1..])
  }

  // The walk ends here: no room for a tag and a size, or a size that runs past the end.
  predicate Stuck(b: bytes) {
    |b| < 4 || |b| - 4 < Get16(b, 2)
  }

  // The complete records at the start of an extra field, and the bytes the walk gives up on.
  function Records(extra: bytes): (rs: seq<Record>)
    ensures Fits(rs)
    decreases |extra|
  {
    if Stuck(extra) then []
    else
      var size := Get16(extra, 2);
      [Record(Get16(extra, 0), extra[4..4 + size])] + Records(extra[4 + size..])
  }

  // Nothing but complete records.
  predicate WellFormed(extra: bytes) { EncodeAll(Records(extra)) == extra }

  function Fold(x: Extras, rs: seq<Record>): Result<Extras, Error>
    decreases |rs|
  {
    if rs == [] then Ok(x)
    else
      match TakeRecord(x, rs[0].tag, rs[0].payload)
      case Err(e) => Err(e)
      case Ok(x1) => Fold(x1, rs[1..])
  }

  lemma EncodeFields(r: Record, tail: bytes)
    requires |r.payload| <= UINT16_MAX
    ensures var b := Encode(r) + tail;
            && |b| >= 4 && Get16(b, 0) == r.tag && Get16(b, 2) == |r.payload|
            && b[4..4 + |r.payload|] == r.payload && b[4 + |r.payload|..] == tail
  {
  }

  // Every extra field is its records followed by what the walk gives up on.
  lemma {:induction false} RecordsThenRest(extra: bytes) returns (rest: bytes)
    ensures Stuck(rest) && extra == EncodeAll(Records(extra)) + rest
    decreases |extra|
  {
    hide EncodeAll;
    if Stuck(extra) {
      rest := extra;
      NothingEncoded(rest);
    } else {
      var size := Get16(extra, 2);
      var first, more := Record(Get16(extra, 0), extra[4..4 + size]), extra[4 + size..];
      rest := RecordsThenRest(more);
      FirstRecord(extra);
      hide Encode;
      EncodedFirst(first, Records(more));
      Associative(Encode(first), EncodeAll(Records(more)), rest);
    }
  }

  lemma NothingEncoded(rest: bytes)
    ensures EncodeAll([]) + rest == rest
  {
  }

  lemma EncodedFirst(r: Record, rs: seq<Record>)
    requires |r.payload| <= UINT16_MAX && Fits(rs)
    ensures EncodeAll([r] + rs) == Encode(r) + EncodeAll(rs)
  {
    assert ([r] + rs)[1..] == rs;
  }

  lemma FirstRecord(extra: bytes)
    requires !Stuck(extra)
    ensures var size := Get16(extra, 2);
            extra == Encode(Record(Get16(extra, 0), extra[4..4 + size])) + extra[4 + size..]
  {
    var size := Get16(extra, 2);
    var payload, more := extra[4..4 + size], extra[4 + size..];
    assert extra == extra[..2] + extra[2..4] + payload + more;
    TwoBytes(extra, 0);
    TwoBytes(extra, 2);
    assert extra[0..2] == extra[..2];
  }

  lemma TwoBytes(b: bytes, i: nat)
    requires i + 2 <= |b|
    ensures Put16(Get16(b, i)) == b[i..i + 2]
  {
  }

  // Whatever list of records was encoded, in front of anything the walk gives up on, is the
  // list that is found: each record once and in order.
  lemma {:induction false} RecordsOfEncoded(rs: seq<Record>, rest: bytes)
    requires Fits(rs) && Stuck(rest)
    ensures Records(EncodeAll(rs) + rest) == rs
  {
    if rs == [] {
      assert EncodeAll(rs) + rest == rest;
    } else {
      var tail := EncodeAll(rs[1..]) + rest;
      Associative(Encode(rs[0]), EncodeAll(rs[1..]), rest);
      EncodeFields(rs[0], tail);
      RecordsOfEncoded(rs[1..], rest);
    }
  }

  // The walk is the fold over the records, on every extra field.
  lemma {:induction false} WalkIsFold(x: Extras, extra: bytes)
    ensures WalkExtras(x, extra) == Fold(x, Records(extra))
    decreases |extra|
  {
    if !Stuck(extra) {
      var size := Get16(extra, 2);
      assert extra[4..][..size] == extra[4..4 + size] && extra[4..][size..] == extra[4 + size..];
      var rs := Records(extra);
      assert rs[1..] == Records(extra[4 + size..]);
      var step := TakeRecord(x, rs[0].tag, rs[0].payload);
      if step.Ok? {
        WalkIsFold(step.value, extra[4 + size..]);
      }
    }
  }

  lemma {:induction false} RecordsConcat(a: bytes, b: bytes)
    requires WellFormed(a)
    ensures Records(a + b) == Records(a) + Records(b)
    ensures WellFormed(b) ==> WellFormed(a + b)
  {
    var rest := RecordsThenRest(b);
    Associative(a, EncodeAll(Records(b)), rest);
    EncodeAllConcat(Records(a), Records(b));
    RecordsOfEncoded(Records(a) + Records(b), rest);
  }

  lemma {:induction false} EncodeAllConcat(rs: seq<Record>, ts: seq<Record>)
    requires Fits(rs) && Fits(ts)
    ensures EncodeAll(rs + ts) == EncodeAll(rs) + EncodeAll(ts)
  {
    if rs == [] {
      assert rs + ts == ts;
    } else {
      assert (rs + ts)[1..] == rs[1..] + ts;
      EncodeAllConcat(rs[1..], ts);
      Associative(Encode(rs[0]), EncodeAll(rs[1..]), EncodeAll(ts));
    }
  }

  lemma OneRecord(r: Record)
    requires |r.payload| <= UINT16_MAX
    ensures Records(Encode(r)) == [r] && WellFormed(Encode(r))
  {
    EncodeFields(r, []);
    assert Encode(r) + [] == Encode(r);
    assert EncodeAll([r]) == Encode(r);
    assert Stuck([]);
    RecordsOfEncoded([r], []);
  }

  // ---- time stamps ----

  // Does this record carry a modification time the reader accepts?
  predicate NtfsSets(field: bytes)
    decreases |field|
  {
    if |field| < 4 then false
    else
      var tag, size, rest := Get16(field, 0), Get16(field, 2), field[4..];
      |rest| >= size && ((tag == 1 && size == 24) || NtfsSets(rest[size..]))
  }

  predicate SetsTime(r: Record) {
    if r.tag == NTFS_EXTRA_ID then |r.payload| >= 4 && NtfsSets(r.payload[4..])
    else if r.tag == UNIX_EXTRA_ID || r.tag == INFO_ZIP_UNIX_EXTRA_ID then |r.payload| >= 8
    else r.tag == EXT_TIME_EXTRA_ID && |r.payload| >= 5 && r.payload[0] % 2 == 1
  }

  lemma {:induction false} NtfsTimeOrDefault(m: Time, n: Time, field: bytes)
    ensures !NtfsSets(field) ==> NtfsAttributes(m, field) == m
    ensures NtfsSets(field) ==> NtfsAttributes(m, field) == NtfsAttributes(n, field)
    decreases |field|
  {
    if |field| >= 4 {
      var tag, size, rest := Get16(field, 0), Get16(field, 2), field[4..];
      if |rest| >= size {
        if tag == 1 && size == 24 {
          NtfsTimeOrDefault(NtfsTime(Get64(rest, 0)), NtfsTime(Get64(rest, 0)), rest[size..]);
        } else {
          NtfsTimeOrDefault(m, n, rest[size..]);
        }
      }
    }
  }

  // A record sets the time it carries, or leaves the time alone.
  lemma TimeOrDefault(m: Time, n: Time, r: Record)
    ensures !SetsTime(r) ==> TakeTime(m, r.tag, r.payload) == m
    ensures SetsTime(r) ==> TakeTime(m, r.tag, r.payload) == TakeTime(n, r.tag, r.payload)
  {
    if r.tag == NTFS_EXTRA_ID && |r.payload| >= 4 {
      NtfsTimeOrDefault(m, n, r.payload[4..]);
    }
  }

  // The time after all records.
  function FoldTime(m: Time, rs: seq<Record>): Time
    decreases |rs|
  {
    if rs == [] then m else FoldTime(TakeTime(m, rs[0].tag, rs[0].payload), rs[1..])
  }

  lemma {:induction false} FoldTimeConcat(m: Time, rs: seq<Record>, ts: seq<Record>)
    ensures FoldTime(m, rs + ts) == FoldTime(FoldTime(m, rs), ts)
    decreases |rs|
  {
    if rs == [] {
      assert rs + ts == ts;
    } else {
      assert (rs + ts)[1..] == rs[1..] + ts;
      FoldTimeConcat(TakeTime(m, rs[0].tag, rs[0].payload), rs[1..], ts);
    }
  }

  // The last record with a time wins; with none the time stays.
  lemma {:induction false} LastTimeWins(m: Time, rs: seq<Record>, i: nat)
    requires i < |rs| && SetsTime(rs[i]) && forall j :: i < j < |rs| ==> !SetsTime(rs[j])
    ensures FoldTime(m, rs) == TakeTime(m, rs[i].tag, rs[i].payload)
    decreases |rs|
  {
    if i > 0 {
      LastTimeWins(TakeTime(m, rs[0].tag, rs[0].payload), rs[1..], i - 1);
      TimeOrDefault(m, TakeTime(m, rs[0].tag, rs[0].payload), rs[i]);
    } else {
      NoTimeNoChange(TakeTime(m, rs[0].tag, rs[0].payload), rs[1..]);
    }
  }

  lemma {:induction false} NoTimeNoChange(m: Time, rs: seq<Record>)
    requires forall r :: r in rs ==> !SetsTime(r)
    ensures FoldTime(m, rs) == m
    decreases |rs|
  {
    if rs != [] {
      TimeOrDefault(m, m, rs[0]);
      NoTimeNoChange(m, rs[1..]);
    }
  }

  // The last record with a time, and that time; the zero time counts as none.
  function LastStamp(rs: seq<Record>): Option<Record>
    decreases |rs|
  {
    if rs == [] then None
    else if LastStamp(rs[1..]).Some? then LastStamp(rs[1..])
    else if SetsTime(rs[0]) then Some(rs[0])
    else None
  }

  function StampTime(rs: seq<Record>): Option<Time> {
    match LastStamp(rs)
    case None => None
    case Some(r) => var t := TakeTime(ZERO, r.tag, r.payload); if IsZero(t) then None else Some(t)
  }

  lemma {:induction false} FoldTimeIsLast(m: Time, rs: seq<Record>)
    ensures FoldTime(m, rs) ==
            match LastStamp(rs)
            case None => m
            case Some(r) => TakeTime(ZERO, r.tag, r.payload)
    decreases |rs|
  {
    hide TakeTime, SetsTime;
    if rs != [] {
      TimeOrDefault(m, ZERO, rs[0]);
      FoldTimeIsLast(TakeTime(m, rs[0].tag, rs[0].payload), rs[1..]);
    }
  }

  // ---- zip64 values ----

  predicate NoNeeds(x: Extras) { !x.needUSize && !x.needCSize && !x.needHeaderOffset }

  lemma TakeWithoutNeeds(x: Extras, r: Record)
    requires NoNeeds(x) || r.tag != ZIP64_EXTRA_ID
    ensures TakeRecord(x, r.tag, r.payload) == Ok(x.(modified := TakeTime(x.modified, r.tag, r.payload)))
  {
  }

  // Without a need, or without a zip64 record, the walk cannot fail and touches only the time.
  lemma {:induction false} FoldWithoutNeeds(x: Extras, rs: seq<Record>)
    requires NoNeeds(x) || forall r :: r in rs ==> r.tag != ZIP64_EXTRA_ID
    ensures Fold(x, rs) == Ok(x.(modified := FoldTime(x.modified, rs)))
    decreases |rs|
  {
    hide TakeRecord, TakeTime;
    if rs != [] {
      TakeWithoutNeeds(x, rs[0]);
      FoldWithoutNeeds(x.(modified := TakeTime(x.modified, rs[0].tag, rs[0].payload)), rs[1..]);
    }
  }

  // The first zip64 record.
  function FirstZip64(rs: seq<Record>): Option<Record>
    decreases |rs|
  {
    if rs == [] then None else if rs[0].tag == ZIP64_EXTRA_ID then Some(rs[0]) else FirstZip64(rs[1..])
  }

  lemma {:induction false} FirstZip64Concat(rs: seq<Record>, ts: seq<Record>)
    ensures FirstZip64(rs + ts) == if FirstZip64(rs).Some? then FirstZip64(rs) else FirstZip64(ts)
    decreases |rs|
  {
    if rs == [] {
      assert rs + ts == ts;
    } else {
      assert (rs + ts)[1..] == rs[1..] + ts;
      FirstZip64Concat(rs[1..], ts);
    }
  }

  lemma TakenLeavesNoNeeds(x: Extras, field: bytes, m: Time)
    ensures var r := TakeZip64(x, field); r.Ok? ==> NoNeeds(r.value) && r.value.modified == x.modified
    ensures TakeZip64(x.(modified := m), field) ==
            match TakeZip64(x, field)
            case Err(e) => Err(e)
            case Ok(y) => Ok(y.(modified := m))
  {
    hide Get64;
  }

  // Only the first zip64 record can matter, and the records with a time.
  lemma {:induction false} FoldIsFirst(x: Extras, rs: seq<Record>)
    ensures Fold(x, rs) ==
            match FirstZip64(rs)
            case None => Ok(x.(modified := FoldTime(x.modified, rs)))
            case Some(r) =>
              match TakeZip64(x, r.payload)
              case Err(e) => Err(e)
              case Ok(y) => Ok(y.(modified := FoldTime(x.modified, rs)))
    decreases |rs|
  {
    hide TakeZip64, TakeTime;
    if rs != [] {
      var r := rs[0];
      if r.tag == ZIP64_EXTRA_ID {
        TakenLeavesNoNeeds(x, r.payload, x.modified);
        if TakeZip64(x, r.payload).Ok? {
          FoldWithoutNeeds(TakeZip64(x, r.payload).value, rs[1..]);
          assert TakeTime(x.modified, r.tag, r.payload) == x.modified by { Zip64HasNoTime(x.modified, r.payload); }
        }
      } else {
        var m := TakeTime(x.modified, r.tag, r.payload);
        FoldIsFirst(x.(modified := m), rs[1..]);
        if FirstZip64(rs).Some? {
          TakenLeavesNoNeeds(x, FirstZip64(rs).value.payload, m);
        }
      }
    }
  }

  lemma Zip64HasNoTime(m: Time, field: bytes)
    ensures TakeTime(m, ZIP64_EXTRA_ID, field) == m
  {
  }

  function Zip64Record(h: FileHeader, offset: uint64): Record {
    Record(ZIP64_EXTRA_ID, Put64(h.uncompressedSize64) + Put64(h.compressedSize64) + Put64(offset))
  }

  lemma Zip64ExtraIsRecord(h: FileHeader, offset: uint64)
    ensures Zip64Extra(h, offset) == Encode(Zip64Record(h, offset))
    ensures Records(Zip64Extra(h, offset)) == [Zip64Record(h, offset)] && WellFormed(Zip64Extra(h, offset))
  {
    OneRecord(Zip64Record(h, offset));
  }

  // The record says what the entry h at `offset` wants to know.
  predicate Tells(r: Record, h: FileHeader, offset: uint64) {
    && |r.payload| >= (if offset >= UINT32_MAX then 24 else 16)
    && Get64(r.payload, 0) == h.uncompressedSize64
    && Get64(r.payload, 8) == h.compressedSize64
    && (offset >= UINT32_MAX ==> Get64(r.payload, 16) == offset)
  }

  lemma WrittenTells(h: FileHeader, offset: uint64)
    ensures Tells(Zip64Record(h, offset), h, offset)
  {
    hide Put64, Get64;
    var p := Zip64Record(h, offset).payload;
    var u, c, o := Put64(h.uncompressedSize64), Put64(h.compressedSize64), Put64(offset);
    GetPut64([], h.uncompressedSize64, c + o);
    GetPut64(u, h.compressedSize64, o);
    GetPut64(u + c, offset, []);
    assert p == [] + u + (c + o) && p == u + c + o && p == (u + c) + o + [];
  }

  // How many of the three values are needed.
  function Needs(x: Extras): nat {
    (if x.needUSize then 1 else 0) + (if x.needCSize then 1 else 0) + (if x.needHeaderOffset then 1 else 0)
  }

  // A zip64 record holds the needed values and no others, eight bytes each, in the order of
  // uncompressed size, compressed size and offset. It is refused exactly if it is too short.
  lemma TakeNeeded(x: Extras, p: bytes)
    ensures TakeZip64(x, p) == Err(ErrFormat) <==> |p| < 8 * Needs(x)
    ensures
      var csizeAt := if x.needUSize then 8 else 0;
      var offsetAt := csizeAt + if x.needCSize then 8 else 0;
      |p| >= 8 * Needs(x) ==>
        TakeZip64(x, p) ==
        Ok(Extras(if x.needUSize then Get64(p, 0) else x.uncompressedSize64,
                  if x.needCSize then Get64(p, csizeAt) else x.compressedSize64,
                  if x.needHeaderOffset then Int64(Get64(p, offsetAt)) else x.headerOffset,
                  false, false, false, x.modified))
  {
    if |p| >= 8 {
      NextField(p, 0);
    }
    if |p| >= 16 {
      NextField(p, 8);
    }
    if |p| >= 24 {
      NextField(p, 16);
      assert p[8..][8..] == p[16..];
    }
    hide Get64;
  }

  lemma NextField(p: bytes, i: nat)
    requires i + 8 <= |p|
    ensures Get64(p[i..], 0) == Get64(p, i)
  {
  }
}
