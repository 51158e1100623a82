/**
 * The scan decoder of `Client.scan`: the response stream is a run of
 * `[4-byte length][8-byte offset][payload]` records, read through a
 * `DataInputStream` into a 12-byte header array and a reusable payload buffer,
 * and handed to `consumer.accept(buffer, len, offset)` one record at a time.
 *
 * The stream is the whole sequence of bytes the server sends before closing
 * the connection. The consumer is a function of the calls it has seen so far
 * and of the new call; it answers false where `accept` throws. Each call is
 * recorded as an `Event` holding what the consumer can observe: the buffer's
 * first `len` bytes, `len`, the offset, and the buffer's length.
 */
module ScanDecoder {
  import opened Wire

  /** `new byte[65535]` before the first record. */
  const INITIAL_BUFFER_SIZE: nat := 65535
  /** The 4-byte length and the 8-byte offset. */
  const HEADER_SIZE: nat := 12

  datatype Event = Event(payload: seq<byte>, len: int, offset: int, capacity: nat)

  /** Returns normally (true) or throws (false) on a call, given the calls before it. */
  type Consumer = (seq<Event>, Event) -> bool

  /** Why `scan` throws. */
  datatype Failure =
    | NegativeLength     // a length with the top bit set: `readFully(buffer, 0, len)` throws
    | TruncatedPayload   // the stream ends inside a payload: `readFully` throws EOFException
    | ConsumerFailed     // `accept` threw

  datatype Outcome = Done | Error(cause: Failure)

  /** How a scan ends, with every call the consumer received. */
  datatype Run = Run(outcome: Outcome, trace: seq<Event>)

  /** The buffer length once a record of `len` bytes is about to be read:
      replaced by one of exactly `len` bytes only when it is too short. */
  function Grow(capacity: nat, len: int): (c: nat)
    ensures c >= capacity && c >= len
    ensures c == capacity || (c == len && capacity < len)
  {
    if capacity < len then len else capacity
  }

  /** A call as `scan` makes it: a Java `long` offset, a non-negative `int`
      length, exactly `len` payload bytes, and a buffer that holds them. */
  predicate Delivered(e: Event)
  {
    IsInt64(e.offset) && 0 <= e.len <= INT32_MAX && |e.payload| == e.len && e.len <= e.capacity
  }

  /** Scanning the stream `s` with a buffer of `capacity` bytes, after the
      consumer has already received `trace`. */
  function ScanFrom(s: seq<byte>, capacity: nat, trace: seq<Event>, accept: Consumer): (r: Run)
    ensures trace <= r.trace
    ensures forall i :: |trace| <= i < |r.trace| ==> Delivered(r.trace[i])
    decreases |s|
  {
    if |s| < HEADER_SIZE then Run(Done, trace)
    else
      var len := Int32At(s, 0);
      var offset := Int64At(s, 4);
      var cap := Grow(capacity, len);
      if len < 0 then Run(Error(NegativeLength), trace)
      else if |s| - HEADER_SIZE < len then Run(Error(TruncatedPayload), trace)
      else
        var e := Event(s[HEADER_SIZE..HEADER_SIZE + len], len, offset, cap);
        if !accept(trace, e) then Run(Error(ConsumerFailed), trace + [e])
        else ScanFrom(s[HEADER_SIZE + len..], cap, trace + [e], accept)
  }

  /** A whole scan: a fresh 65535-byte buffer, and no call made yet. */
  function ScanStream(s: seq<byte>, accept: Consumer): (r: Run)
  {
    ScanFrom(s, INITIAL_BUFFER_SIZE, [], accept)
  }

  datatype ReadStatus = Filled | EndOfStream | OutOfBounds

  /** The `DataInputStream` over the response: the bytes the server sends
      and how many of them have been consumed. */
  class DataStream {
    const data: seq<byte>
    var pos: nat

    ghost predicate Valid()
      reads this
    {
      pos <= |data|
    }

    constructor (data: seq<byte>)
      ensures Valid() && this.data == data && pos == 0
    {
      this.data := data;
      pos := 0;
    }

    /** `readFully(dst, 0, n)`: a negative `n` throws IndexOutOfBoundsException
        and reads nothing; otherwise bytes are read into `dst[0..n)` until
        there are `n` of them or the stream ends, which throws EOFException
        and leaves the stream at its end. */
    method ReadFully(dst: array<byte>, n: int) returns (r: ReadStatus)
      requires Valid() && n <= dst.Length
      modifies this, dst
      ensures Valid()
      ensures r == (if n < 0 then OutOfBounds else if |data| - old(pos) < n then EndOfStream else Filled)
      ensures r == OutOfBounds ==> pos == old(pos) && dst[..] == old(dst[..])
      ensures r == Filled ==> pos == old(pos) + n && dst[..n] == data[old(pos)..pos]
      ensures r == Filled ==> dst[n..] == old(dst[n..])
      ensures r == EndOfStream ==> pos == |data|
    {
      if n < 0 {
        return OutOfBounds;
      }
      var k := 0;
      while k < n
        invariant 0 <= k <= n && pos == old(pos) + k <= |data|
        invariant dst[..k] == data[old(pos)..pos]
        invariant forall j :: k <= j < dst.Length ==> dst[j] == old(dst[j])
      {
        if pos == |data| {
          return EndOfStream;
        }
        dst[k] := data[pos];
        pos := pos + 1;
        k := k + 1;
        assert dst[..k] == dst[..k - 1] + [data[pos - 1]];
      }
      assert dst[n..] == old(dst[n..]);
      return Filled;
    }
  }

  /** `scan(url, namespace, consumer)` once the connection is open: `stream`
      is everything the server sends before it closes the connection. */
  method Scan(stream: seq<byte>, accept: Consumer) returns (outcome: Outcome, trace: seq<Event>)
    ensures Run(outcome, trace) == ScanStream(stream, accept)
  {
    var input := new DataStream(stream);
    var buffer := new byte[INITIAL_BUFFER_SIZE];
    var header := new byte[HEADER_SIZE];
    trace := [];
    while true
      invariant input.Valid() && input.data == stream
      invariant fresh(buffer)
      invariant ScanFrom(stream[input.pos..], buffer.Length, trace, accept) == ScanStream(stream, accept)
      decreases |stream| - input.pos
    {
      ghost var start := input.pos;
      var status := input.ReadFully(header, HEADER_SIZE);
      if status == EndOfStream {
        ScanStops(stream, start, buffer.Length, trace, accept);
        break;
      }
      var len := Int32At(header[..], 0);
      var offset := Int64At(header[..], 4);
      HeaderFields(stream, start, header[..]);
      ghost var capacity := buffer.Length;
      if buffer.Length < len {
        buffer := new byte[len];
      }
      status := input.ReadFully(buffer, len);
      if status == OutOfBounds {
        ScanFails(stream, start, capacity, trace, accept);
        return Error(NegativeLength), trace;
      }
      if status == EndOfStream {
        ScanFails(stream, start, capacity, trace, accept);
        return Error(TruncatedPayload), trace;
      }
      var e := Event(buffer[..len], len, offset, buffer.Length);
      ScanRecordStep(stream, start, capacity, trace, accept, e, input.pos);
      var accepted := accept(trace, e);
      trace := trace + [e];
      if !accepted {
        return Error(ConsumerFailed), trace;
      }
    }
    return Done, trace;
  }

  /** Fewer than 12 bytes left end the scan without error. */
  lemma ScanStops(s: seq<byte>, start: nat, capacity: nat, trace: seq<Event>, accept: Consumer)
    requires start <= |s| && |s| - start < HEADER_SIZE
    ensures ScanFrom(s[start..], capacity, trace, accept) == Run(Done, trace)
  {
  }

  /** A negative length, or one that runs past the stream, ends the scan in
      the matching error. */
  lemma ScanFails(s: seq<byte>, start: nat, capacity: nat, trace: seq<Event>, accept: Consumer)
    requires start + HEADER_SIZE <= |s|
    requires var len := Int32At(s[start..], 0); len < 0 || |s| - start - HEADER_SIZE < len
    ensures var len := Int32At(s[start..], 0);
      ScanFrom(s[start..], capacity, trace, accept)
        == Run(Error(if len < 0 then NegativeLength else TruncatedPayload), trace)
  {
  }

  /** A header read into its own array decodes as it does in the stream. */
  lemma HeaderFields(s: seq<byte>, start: nat, header: seq<byte>)
    requires start + HEADER_SIZE <= |s| && header == s[start..start + HEADER_SIZE]
    ensures Int32At(header, 0) == Int32At(s[start..], 0) && Int64At(header, 4) == Int64At(s[start..], 4)
  {
    var at := s[start..];
    assert header[0..4] == s[start..start + 4] == at[0..4];
    assert header[4..12] == s[start + 4..start + 12] == at[4..12];
  }

  /** One record of the stream, read where it starts in it: the call `e`
      the scan makes for it, and the position `next` after it. */
  lemma ScanRecordStep(s: seq<byte>, start: nat, capacity: nat, trace: seq<Event>, accept: Consumer,
                       e: Event, next: nat)
    requires start + HEADER_SIZE <= |s|
    requires e.len == Int32At(s[start..], 0) && e.offset == Int64At(s[start..], 4)
    requires 0 <= e.len && next == start + HEADER_SIZE + e.len <= |s|
    requires e.payload == s[start + HEADER_SIZE..next] && e.capacity == Grow(capacity, e.len)
    ensures ScanFrom(s[start..], capacity, trace, accept)
        == if accept(trace, e) then ScanFrom(s[next..], e.capacity, trace + [e], accept)
           else Run(Error(ConsumerFailed), trace + [e])
  {
    var at := s[start..];
    assert at[HEADER_SIZE..HEADER_SIZE + e.len] == e.payload;
    assert at[HEADER_SIZE + e.len..] == s[next..];
  }

  /** The buffer length the consumer saw on call `i`'s predecessor. */
  function CapacityBefore(trace: seq<Event>, initial: nat, i: nat): (capacity: nat)
    requires i < |trace|
  {
    if i == 0 then initial else trace[i - 1].capacity
  }

  /** The buffer length after the calls of `trace`. */
  function CapacityAfter(trace: seq<Event>, initial: nat): (capacity: nat)
  {
    if trace == [] then initial else trace[|trace| - 1].capacity
  }

  /** Call `i` saw the buffer of the call before, grown only if its record
      did not fit. */
  ghost predicate GrownAt(trace: seq<Event>, initial: nat, i: nat)
    requires i < |trace|
  {
    trace[i].capacity == Grow(CapacityBefore(trace, initial, i), trace[i].len)
  }

  /** Every call saw the buffer grown on demand. */
  ghost predicate ResizedOnDemand(trace: seq<Event>, initial: nat)
  {
    forall i :: 0 <= i < |trace| ==> GrownAt(trace, initial, i)
  }

  /** Appending a call that saw the buffer grown on demand keeps the rule. */
  lemma ResizedOnDemandExtend(trace: seq<Event>, initial: nat, e: Event)
    requires ResizedOnDemand(trace, initial)
    requires e.capacity == Grow(CapacityAfter(trace, initial), e.len)
    ensures ResizedOnDemand(trace + [e], initial)
    ensures CapacityAfter(trace + [e], initial) == e.capacity
  {
    var next := trace + [e];
    forall i | 0 <= i < |next|
      ensures GrownAt(next, initial, i)
    {
      if i < |trace| {
        assert GrownAt(trace, initial, i);
        assert next[i] == trace[i];
        assert CapacityBefore(next, initial, i) == CapacityBefore(trace, initial, i);
      }
    }
  }

  /** Scanning keeps the buffer rule for every call it adds. */
  lemma {:induction false} ScanResizesOnDemand(s: seq<byte>, trace: seq<Event>, initial: nat, accept: Consumer)
    requires ResizedOnDemand(trace, initial)
    ensures ResizedOnDemand(ScanFrom(s, CapacityAfter(trace, initial), trace, accept).trace, initial)
    decreases |s|
  {
    var capacity := CapacityAfter(trace, initial);
    if |s| >= HEADER_SIZE {
      var len := Int32At(s, 0);
      if 0 <= len <= |s| - HEADER_SIZE {
        var e := Event(s[HEADER_SIZE..HEADER_SIZE + len], len, Int64At(s, 4), Grow(capacity, len));
        ResizedOnDemandExtend(trace, initial, e);
        if accept(trace, e) {
          ScanResizesOnDemand(s[HEADER_SIZE + len..], trace + [e], initial, accept);
        }
      }
    }
  }

  /** Under the buffer rule the buffer is never below its first size. */
  lemma {:induction false} NeverBelowInitial(trace: seq<Event>, initial: nat, j: nat)
    requires ResizedOnDemand(trace, initial) && j < |trace|
    ensures initial <= trace[j].capacity
  {
    assert GrownAt(trace, initial, j);
    if j > 0 {
      NeverBelowInitial(trace, initial, j - 1);
    }
  }

  /** Under the buffer rule the buffer never shrinks and holds every record
      read so far. */
  lemma {:induction false} NeverShrinks(trace: seq<Event>, initial: nat, i: nat, j: nat)
    requires ResizedOnDemand(trace, initial) && i <= j < |trace|
    ensures trace[i].capacity <= trace[j].capacity && trace[i].len <= trace[j].capacity
    decreases j
  {
    if i < j {
      NeverShrinks(trace, initial, i, j - 1);
    }
    assert GrownAt(trace, initial, j);
  }

  /** Under the buffer rule the buffer is either its first size or exactly
      as long as a record read so far: the index of that record, or -1. */
  lemma {:induction false} SizedBySomeRecord(trace: seq<Event>, initial: nat, j: nat) returns (i: int)
    requires ResizedOnDemand(trace, initial) && j < |trace|
    ensures i == -1 ==> trace[j].capacity == initial
    ensures i != -1 ==> 0 <= i <= j && trace[j].capacity == trace[i].len
  {
    assert GrownAt(trace, initial, j);
    if trace[j].capacity == trace[j].len {
      i := j;
    } else if j == 0 {
      i := -1;
    } else {
      i := SizedBySomeRecord(trace, initial, j - 1);
    }
  }

  /** What the buffer rule means: the buffer never shrinks, is never smaller
      than its first size or than any record already read, and is never
      larger than the larger of its first size and the longest record read. */
  lemma ResizedBufferBounds(trace: seq<Event>, initial: nat)
    requires ResizedOnDemand(trace, initial)
    ensures forall j :: 0 <= j < |trace| ==> initial <= trace[j].capacity
    ensures forall i, j :: 0 <= i <= j < |trace| ==>
      trace[i].capacity <= trace[j].capacity && trace[i].len <= trace[j].capacity
    ensures forall j :: 0 <= j < |trace| ==>
      trace[j].capacity == initial || exists i :: 0 <= i <= j && trace[j].capacity == trace[i].len
  {
    forall j | 0 <= j < |trace| ensures initial <= trace[j].capacity {
      NeverBelowInitial(trace, initial, j);
    }
    forall i, j | 0 <= i <= j < |trace|
      ensures trace[i].capacity <= trace[j].capacity && trace[i].len <= trace[j].capacity
    {
      NeverShrinks(trace, initial, i, j);
    }
    forall j | 0 <= j < |trace|
      ensures trace[j].capacity == initial || exists i :: 0 <= i <= j && trace[j].capacity == trace[i].len
    {
      var i := SizedBySomeRecord(trace, initial, j);
      if i != -1 {
        assert trace[j].capacity == trace[i].len;
      }
    }
  }

  /** The buffer a whole scan hands the consumer: at least 65535 bytes and at
      least `len` on every call, never shrinking, and at each call either
      65535 bytes or exactly as long as some record already read. */
  lemma ScanBuffer(s: seq<byte>, accept: Consumer)
    ensures var t := ScanStream(s, accept).trace;
      && (forall j :: 0 <= j < |t| ==> Delivered(t[j]) && INITIAL_BUFFER_SIZE <= t[j].capacity)
      && (forall i, j :: 0 <= i <= j < |t| ==> t[i].capacity <= t[j].capacity && t[i].len <= t[j].capacity)
      && (forall j :: 0 <= j < |t| ==>
            t[j].capacity == INITIAL_BUFFER_SIZE || exists i :: 0 <= i <= j && t[j].capacity == t[i].len)
  {
    ScanResizesOnDemand(s, [], INITIAL_BUFFER_SIZE, accept);
    ResizedBufferBounds(ScanStream(s, accept).trace, INITIAL_BUFFER_SIZE);
  }

  /** The consumer is called once per record, and each call returned
      normally except possibly the last one, which threw exactly when the
      scan ended with `ConsumerFailed`; the calls before it stay recorded. */
  lemma {:induction false} ScanConsumerCalls(s: seq<byte>, capacity: nat, trace: seq<Event>, accept: Consumer)
    ensures var r := ScanFrom(s, capacity, trace, accept);
      && (forall i :: |trace| <= i < |r.trace| ==>
            (accept(r.trace[..i], r.trace[i]) <==> !(i == |r.trace| - 1 && r.outcome == Error(ConsumerFailed))))
      && (r.outcome == Error(ConsumerFailed) ==> |r.trace| > |trace|)
    decreases |s|
  {
    if |s| >= HEADER_SIZE {
      var len := Int32At(s, 0);
      if 0 <= len <= |s| - HEADER_SIZE {
        var cap := Grow(capacity, len);
        var e := Event(s[HEADER_SIZE..HEADER_SIZE + len], len, Int64At(s, 4), cap);
        var next := trace + [e];
        assert next[..|trace|] == trace;
        if accept(trace, e) {
          var rest := s[HEADER_SIZE + len..];
          ScanConsumerCalls(rest, cap, next, accept);
          var r := ScanFrom(rest, cap, next, accept);
          assert r.trace[..|trace|] == trace by {
            assert next <= r.trace;
          }
          assert r.trace[|trace|] == e;
        }
      }
    }
  }

  /** A record as the server stores it. */
  datatype Record = Record(offset: int, payload: seq<byte>)

  predicate StorableRecords(rs: seq<Record>)
  {
    forall i :: 0 <= i < |rs| ==> IsInt64(rs[i].offset) && |rs[i].payload| <= INT32_MAX
  }

  /** The stream the server writes for `rs`. */
  function EncodeStream(rs: seq<Record>): (s: seq<byte>)
    requires StorableRecords(rs)
  {
    if rs == [] then []
    else Int32Bytes(|rs[0].payload|) + Int64Bytes(rs[0].offset) + rs[0].payload + EncodeStream(rs[1..])
  }

  /** The calls a scan makes for `rs`, starting with a buffer of `capacity` bytes. */
  function Deliveries(rs: seq<Record>, capacity: nat): (evs: seq<Event>)
    ensures |evs| == |rs|
    ensures forall i :: 0 <= i < |rs| ==>
      evs[i].payload == rs[i].payload && evs[i].len == |rs[i].payload| && evs[i].offset == rs[i].offset
  {
    if rs == [] then []
    else
      var cap := Grow(capacity, |rs[0].payload|);
      [Event(rs[0].payload, |rs[0].payload|, rs[0].offset, cap)] + Deliveries(rs[1..], cap)
  }

  /** The consumer never throws. */
  ghost predicate AcceptsAll(accept: Consumer)
  {
    forall t, e :: accept(t, e)
  }

  /** The bytes of one record as the server writes them. */
  function Frame(r: Record): (s: seq<byte>)
    requires IsInt64(r.offset) && |r.payload| <= INT32_MAX
    ensures |s| == HEADER_SIZE + |r.payload|
  {
    Int32Bytes(|r.payload|) + Int64Bytes(r.offset) + r.payload
  }

  /** A header read back from a written record gives its length and offset,
      and the payload follows it. */
  lemma ReadFrame(r: Record, tail: seq<byte>)
    requires IsInt64(r.offset) && |r.payload| <= INT32_MAX
    ensures var s := Frame(r) + tail;
      && Int32At(s, 0) == |r.payload| && Int64At(s, 4) == r.offset
      && s[HEADER_SIZE..HEADER_SIZE + |r.payload|] == r.payload
      && s[HEADER_SIZE + |r.payload|..] == tail
  {
    var s := Frame(r) + tail;
    assert s[0..4] == Int32Bytes(|r.payload|);
    assert s[4..12] == Int64Bytes(r.offset);
    Int32RoundTrip(|r.payload|, s, 0);
    Int64RoundTrip(r.offset, s, 4);
  }

  /** Conversely, a header and the payload it announces are the written
      form of the record they decode to. */
  lemma WriteFrame(s: seq<byte>)
    requires |s| >= HEADER_SIZE && 0 <= Int32At(s, 0) <= |s| - HEADER_SIZE
    ensures var len := Int32At(s, 0);
      s == Frame(Record(Int64At(s, 4), s[HEADER_SIZE..HEADER_SIZE + len])) + s[HEADER_SIZE + len..]
  {
    var len := Int32At(s, 0);
    Int32BytesAt(s, 0);
    Int64BytesAt(s, 4);
    assert s == s[0..4] + s[4..12] + s[12..12 + len] + s[12 + len..];
  }

  lemma EncodeStreamCons(rs: seq<Record>, rest: seq<byte>)
    requires StorableRecords(rs) && rs != []
    ensures StorableRecords(rs[1..])
    ensures EncodeStream(rs) == Frame(rs[0]) + EncodeStream(rs[1..])
    ensures EncodeStream(rs) + rest == Frame(rs[0]) + (EncodeStream(rs[1..]) + rest)
  {
    var tail := rs[1..];
    assert forall i :: 0 <= i < |tail| ==> tail[i] == rs[i + 1];
    var f := Frame(rs[0]);
    var e := EncodeStream(tail);
    assert EncodeStream(rs) == f + e;
    ConcatAssoc(f, e, rest);
  }

  /** A scan reads one written record with one call, then goes on after it. */
  lemma ScanFrame(r: Record, tail: seq<byte>, capacity: nat, trace: seq<Event>, accept: Consumer)
    requires IsInt64(r.offset) && |r.payload| <= INT32_MAX
    requires AcceptsAll(accept)
    ensures var cap := Grow(capacity, |r.payload|);
      ScanFrom(Frame(r) + tail, capacity, trace, accept)
        == ScanFrom(tail, cap, trace + [Event(r.payload, |r.payload|, r.offset, cap)], accept)
  {
    ReadFrame(r, tail);
  }

  /** A scan runs through well-formed records, one call each, and carries on
      with whatever follows them. */
  lemma {:induction false} ScanAfterRecords(rs: seq<Record>, rest: seq<byte>, capacity: nat, trace: seq<Event>, accept: Consumer)
    requires StorableRecords(rs) && AcceptsAll(accept)
    ensures var evs := Deliveries(rs, capacity);
      ScanFrom(EncodeStream(rs) + rest, capacity, trace, accept)
        == ScanFrom(rest, CapacityAfter(evs, capacity), trace + evs, accept)
  {
    if rs == [] {
      assert EncodeStream(rs) + rest == rest;
      assert trace + [] == trace;
    } else {
      var r := rs[0];
      var cap := Grow(capacity, |r.payload|);
      var e := Event(r.payload, |r.payload|, r.offset, cap);
      var later := Deliveries(rs[1..], cap);
      EncodeStreamCons(rs, rest);
      ScanFrame(r, EncodeStream(rs[1..]) + rest, capacity, trace, accept);
      ScanAfterRecords(rs[1..], rest, cap, trace + [e], accept);
      assert Deliveries(rs, capacity) == [e] + later;
      ConcatAssoc(trace, [e], later);
      CapacityAfterCons(e, later, capacity);
    }
  }

  lemma CapacityAfterCons(e: Event, later: seq<Event>, initial: nat)
    ensures CapacityAfter([e] + later, initial) == CapacityAfter(later, e.capacity)
  {
  }

  /** A stream of well-formed records that ends on a record boundary, or 1
      to 11 bytes into a header, ends the scan without error after one call
      per record, in stream order, each with that record's payload, length
      and offset. */
  lemma ScanEncodedStream(rs: seq<Record>, trailer: seq<byte>, accept: Consumer)
    requires StorableRecords(rs) && AcceptsAll(accept) && |trailer| < HEADER_SIZE
    ensures ScanStream(EncodeStream(rs) + trailer, accept) == Run(Done, Deliveries(rs, INITIAL_BUFFER_SIZE))
  {
    ScanAfterRecords(rs, trailer, INITIAL_BUFFER_SIZE, [], accept);
    assert [] + Deliveries(rs, INITIAL_BUFFER_SIZE) == Deliveries(rs, INITIAL_BUFFER_SIZE);
  }

  /** A stream that ends inside a payload ends the scan in an error; the
      records before it have all been delivered. */
  lemma ScanTruncatedPayload(rs: seq<Record>, len: int, offset: int, partial: seq<byte>, accept: Consumer)
    requires StorableRecords(rs) && AcceptsAll(accept)
    requires 0 <= len <= INT32_MAX && IsInt64(offset) && |partial| < len
    ensures ScanStream(EncodeStream(rs) + Int32Bytes(len) + Int64Bytes(offset) + partial, accept)
         == Run(Error(TruncatedPayload), Deliveries(rs, INITIAL_BUFFER_SIZE))
  {
    var after := Int32Bytes(len) + Int64Bytes(offset) + partial;
    assert EncodeStream(rs) + Int32Bytes(len) + Int64Bytes(offset) + partial == EncodeStream(rs) + after;
    ScanAfterRecords(rs, after, INITIAL_BUFFER_SIZE, [], accept);
    assert after[0..4] == Int32Bytes(len);
    assert [] + Deliveries(rs, INITIAL_BUFFER_SIZE) == Deliveries(rs, INITIAL_BUFFER_SIZE);
  }

  /** A length whose top bit is set ends the scan in an error; the records
      before it have all been delivered. */
  lemma ScanNegativeLength(rs: seq<Record>, header: seq<byte>, rest: seq<byte>, accept: Consumer)
    requires StorableRecords(rs) && AcceptsAll(accept)
    requires |header| == HEADER_SIZE && header[0] >= 128
    ensures ScanStream(EncodeStream(rs) + header + rest, accept)
         == Run(Error(NegativeLength), Deliveries(rs, INITIAL_BUFFER_SIZE))
  {
    var after := header + rest;
    assert EncodeStream(rs) + header + rest == EncodeStream(rs) + after;
    ScanAfterRecords(rs, after, INITIAL_BUFFER_SIZE, [], accept);
    Int32NegativeIffTopBit(after, 0);
    assert [] + Deliveries(rs, INITIAL_BUFFER_SIZE) == Deliveries(rs, INITIAL_BUFFER_SIZE);
  }

  /** The records the calls of a scan carried. */
  function RecordsOf(evs: seq<Event>): (rs: seq<Record>)
    requires forall i :: 0 <= i < |evs| ==> Delivered(evs[i])
    ensures |rs| == |evs|
    ensures forall i :: 0 <= i < |evs| ==> rs[i] == Record(evs[i].offset, evs[i].payload)
    ensures StorableRecords(rs)
  {
    if evs == [] then []
    else
      var rs := [Record(evs[0].offset, evs[0].payload)] + RecordsOf(evs[1..]);
      assert forall i :: 0 <= i < |rs| ==> rs[i] == Record(evs[i].offset, evs[i].payload) && Delivered(evs[i]);
      rs
  }

  /** The first step of a scan that ends without error: a whole record,
      accepted. */
  lemma ScanDoneStep(s: seq<byte>, capacity: nat, trace: seq<Event>, accept: Consumer)
    requires |s| >= HEADER_SIZE && ScanFrom(s, capacity, trace, accept).outcome == Done
    ensures var len := Int32At(s, 0);
      && 0 <= len <= |s| - HEADER_SIZE
      && var e := Event(s[HEADER_SIZE..HEADER_SIZE + len], len, Int64At(s, 4), Grow(capacity, len));
         ScanFrom(s, capacity, trace, accept) == ScanFrom(s[HEADER_SIZE + len..], Grow(capacity, len), trace + [e], accept)
  {
  }

  lemma TraceCons(trace: seq<Event>, e: Event, t: seq<Event>)
    requires trace + [e] <= t
    ensures t[|trace|..] == [e] + t[|trace| + 1..]
  {
  }

  lemma RecordsOfCons(evs: seq<Event>)
    requires evs != [] && forall i :: 0 <= i < |evs| ==> Delivered(evs[i])
    ensures RecordsOf(evs) == [Record(evs[0].offset, evs[0].payload)] + RecordsOf(evs[1..])
  {
  }

  lemma PrefixAfter(f: seq<byte>, a: seq<byte>, b: seq<byte>)
    requires a <= b
    ensures f + a <= f + b && |f + b| - |f + a| == |b| - |a|
  {
    assert (f + b)[..|f + a|] == f + a;
  }

  /** Conversely, a scan that ends without error has read a stream of
      records, one per call it made, followed by fewer than 12 bytes. */
  lemma {:induction false} ScanDoneReadRecords(s: seq<byte>, capacity: nat, trace: seq<Event>, accept: Consumer)
    requires ScanFrom(s, capacity, trace, accept).outcome == Done
    ensures var evs := ScanFrom(s, capacity, trace, accept).trace[|trace|..];
      var encoded := EncodeStream(RecordsOf(evs));
      encoded <= s && |s| - |encoded| < HEADER_SIZE
    decreases |s|
  {
    var r := ScanFrom(s, capacity, trace, accept);
    if |s| < HEADER_SIZE {
      assert r.trace[|trace|..] == [];
    } else {
      ScanDoneStep(s, capacity, trace, accept);
      var len := Int32At(s, 0);
      var cap := Grow(capacity, len);
      var e := Event(s[HEADER_SIZE..HEADER_SIZE + len], len, Int64At(s, 4), cap);
      var rest := s[HEADER_SIZE + len..];
      ScanDoneReadRecords(rest, cap, trace + [e], accept);
      TraceCons(trace, e, r.trace);
      var evs := r.trace[|trace|..];
      var later := r.trace[|trace| + 1..];
      RecordsOfCons(evs);
      var rs := RecordsOf(evs);
      EncodeStreamCons(rs, []);
      WriteFrame(s);
      PrefixAfter(Frame(rs[0]), EncodeStream(RecordsOf(later)), rest);
    }
  }

  /** Whatever a scan's outcome and whatever its consumer, the calls it made
      carried the records written at the front of the stream, in stream
      order, each with its own header's length and offset and the payload
      bytes after that header. A scan that stops on a bad header stops with
      at least a header's worth of bytes left after those records. */
  lemma {:induction false} ScanReadRecords(s: seq<byte>, capacity: nat, trace: seq<Event>, accept: Consumer)
    ensures var r := ScanFrom(s, capacity, trace, accept);
      var encoded := EncodeStream(RecordsOf(r.trace[|trace|..]));
      && encoded <= s
      && (r.outcome == Error(NegativeLength) || r.outcome == Error(TruncatedPayload) ==> |s| - |encoded| >= HEADER_SIZE)
    decreases |s|
  {
    var r := ScanFrom(s, capacity, trace, accept);
    if |s| < HEADER_SIZE || Int32At(s, 0) < 0 || |s| - HEADER_SIZE < Int32At(s, 0) {
      assert r.trace[|trace|..] == [];
    } else {
      var len := Int32At(s, 0);
      var cap := Grow(capacity, len);
      var e := Event(s[HEADER_SIZE..HEADER_SIZE + len], len, Int64At(s, 4), cap);
      var rest := s[HEADER_SIZE + len..];
      WriteFrame(s);
      var evs := r.trace[|trace|..];
      if !accept(trace, e) {
        assert evs == [e];
        RecordsOfCons(evs);
        var rs := RecordsOf(evs);
        EncodeStreamCons(rs, []);
        assert RecordsOf(evs[1..]) == [];
        PrefixAfter(Frame(rs[0]), [], rest);
      } else {
        ScanReadRecords(rest, cap, trace + [e], accept);
        TraceCons(trace, e, r.trace);
        var later := r.trace[|trace| + 1..];
        RecordsOfCons(evs);
        var rs := RecordsOf(evs);
        EncodeStreamCons(rs, []);
        PrefixAfter(Frame(rs[0]), EncodeStream(RecordsOf(later)), rest);
      }
    }
  }

  /** A record the consumer accepts moves the scan past it. */
  lemma ScanAcceptedRecord(s: seq<byte>, capacity: nat, trace: seq<Event>, accept: Consumer)
    requires |s| >= HEADER_SIZE && 0 <= Int32At(s, 0) <= |s| - HEADER_SIZE
    requires var len := Int32At(s, 0);
      accept(trace, Event(s[HEADER_SIZE..HEADER_SIZE + len], len, Int64At(s, 4), Grow(capacity, len)))
    ensures var len := Int32At(s, 0);
      var e := Event(s[HEADER_SIZE..HEADER_SIZE + len], len, Int64At(s, 4), Grow(capacity, len));
      ScanFrom(s, capacity, trace, accept) == ScanFrom(s[HEADER_SIZE + len..], Grow(capacity, len), trace + [e], accept)
  {
  }

  /** Two records, `[00 00 00 01][offset 10] "Z"` and
      `[00 00 00 02][offset 20] "hi"`, then the connection closes: the consumer
      sees `("Z", 1, 10)` and then `("hi", 2, 20)`, and the scan ends without
      error. */
  lemma TwoRecordStream(accept: Consumer)
    requires AcceptsAll(accept)
    ensures var r := ScanStream([0, 0, 0, 1, 0, 0, 0, 0, 0, 0, 0, 10, 90,
                                 0, 0, 0, 2, 0, 0, 0, 0, 0, 0, 0, 20, 104, 105], accept);
      && r.outcome == Done && |r.trace| == 2
      && r.trace[0].payload == [90] && r.trace[0].len == 1 && r.trace[0].offset == 10
      && r.trace[1].payload == [104, 105] && r.trace[1].len == 2 && r.trace[1].offset == 20
  {
    var s: seq<byte> := [0, 0, 0, 1, 0, 0, 0, 0, 0, 0, 0, 10, 90,
                         0, 0, 0, 2, 0, 0, 0, 0, 0, 0, 0, 20, 104, 105];
    TwoRecordHeaders(s);
    var e1 := Event([90], 1, 10, INITIAL_BUFFER_SIZE);
    ScanAcceptedRecord(s, INITIAL_BUFFER_SIZE, [], accept);
    ScanAcceptedRecord(s[13..], INITIAL_BUFFER_SIZE, [e1], accept);
  }

  /** The two headers and payloads of the stream above. */
  lemma TwoRecordHeaders(s: seq<byte>)
    requires s == [0, 0, 0, 1, 0, 0, 0, 0, 0, 0, 0, 10, 90,
                   0, 0, 0, 2, 0, 0, 0, 0, 0, 0, 0, 20, 104, 105]
    ensures Int32At(s, 0) == 1 && Int64At(s, 4) == 10 && s[12..13] == [90]
    ensures var second := s[13..];
      && Int32At(second, 0) == 2 && Int64At(second, 4) == 20
      && second[12..14] == [104, 105] && second[14..] == []
  {
    SmallHeader(s);
    SmallHeader(s[13..]);
  }

  /** A header whose length and offset fit their last byte. */
  lemma SmallHeader(h: seq<byte>)
    requires |h| >= HEADER_SIZE && h[3] < 128 && h[11] < 128
    requires forall i :: 0 <= i < 3 || 4 <= i < 11 ==> h[i] == 0
    ensures Int32At(h, 0) == h[3] && Int64At(h, 4) == h[11]
  {
    SmallValue(h, 0, 4);
    SmallValue(h, 4, 8);
  }
}
