/**
 * The batch-get decoder of `Client.getMulti`: a response body is a run of
 * `[4-byte length][payload]` records, and decoding it yields the payloads in
 * order. `DecodeRecords` is the specification, `GetMulti` the cursor loop of
 * the client, and `EncodeRecords` the layout the server writes.
 */
module BatchGet {
  import opened Wire

  datatype Result<+T, +E> = Ok(value: T) | Err(error: E)

  /** Why `getMulti` throws. */
  datatype Failure =
    | RemoteStatus(code: int)   // the response status was not 200
    | ZeroLengthRecord          // a record declared length 0
    | NegativeLength            // a length with the top bit set: `new byte[len]` throws
    | PayloadOverrun            // the length runs past the body: `System.arraycopy` throws

  /** Puts `done` in front of the payloads of a successful decode; a failure
      stays a failure and carries no payloads. */
  function Prepend(done: seq<seq<byte>>, r: Result<seq<seq<byte>>, Failure>): (joined: Result<seq<seq<byte>>, Failure>)
  {
    match r
    case Ok(rest) => Ok(done + rest)
    case Err(e) => Err(e)
  }

  lemma PrependNothing(r: Result<seq<seq<byte>>, Failure>)
    ensures Prepend([], r) == r
  {
    if r.Ok? {
      assert [] + r.value == r.value;
    }
  }

  lemma PrependTwice(a: seq<seq<byte>>, b: seq<seq<byte>>, r: Result<seq<seq<byte>>, Failure>)
    ensures Prepend(a, Prepend(b, r)) == Prepend(a + b, r)
  {
    if r.Ok? {
      assert a + (b + r.value) == (a + b) + r.value;
    }
  }

  /** The payloads the server may put in a batch response. */
  predicate StorablePayloads(ps: seq<seq<byte>>)
  {
    forall i :: 0 <= i < |ps| ==> 0 < |ps[i]| <= INT32_MAX
  }

  /** The body the server writes for `ps`: each payload behind its length. */
  function EncodeRecords(ps: seq<seq<byte>>): (body: seq<byte>)
    requires forall i :: 0 <= i < |ps| ==> |ps[i]| <= INT32_MAX
  {
    if ps == [] then [] else Int32Bytes(|ps[0]|) + ps[0] + EncodeRecords(ps[1..])
  }

  /** What decoding `data` from its first byte yields. */
  function DecodeRecords(data: seq<byte>): (r: Result<seq<seq<byte>>, Failure>)
    ensures r.Ok? ==> StorablePayloads(r.value)
    ensures r.Err? ==> !r.error.RemoteStatus?
    decreases |data|
  {
    if |data| < 4 then Ok([])
    else
      var len := Int32At(data, 0);
      if len == 0 then Err(ZeroLengthRecord)
      else if len < 0 then Err(NegativeLength)
      else if |data| - 4 < len then Err(PayloadOverrun)
      else Prepend([data[4..4 + len]], DecodeRecords(data[4 + len..]))
  }

  /** `getMulti(url, namespace, encodedOffsets)` once the response has
      arrived: `status` is its status code and `data` its whole body. */
  method GetMulti(status: int, data: array<byte>) returns (r: Result<seq<seq<byte>>, Failure>)
    ensures status != 200 ==> r == Err(RemoteStatus(status))
    ensures status == 200 ==> r == DecodeRecords(data[..])
  {
    if status != 200 {
      return Err(RemoteStatus(status));
    }
    var body := data[..];
    var out: seq<seq<byte>> := [];
    var offset := 0;
    assert body[offset..] == body;
    PrependNothing(DecodeRecords(body));
    while true
      invariant 0 <= offset <= data.Length
      invariant DecodeRecords(body) == Prepend(out, DecodeRecords(body[offset..]))
      decreases data.Length - offset
    {
      if data.Length < offset + 4 {
        DecodeEnd(body, offset);
        assert out + [] == out;
        return Ok(out);
      }
      ghost var start := offset;
      var len := Int32At(body, offset);
      offset := offset + 4;
      if len == 0 {
        DecodeFails(body, start);
        return Err(ZeroLengthRecord);
      }
      if len < 0 {
        DecodeFails(body, start);
        return Err(NegativeLength);
      }
      if data.Length - offset < len {
        DecodeFails(body, start);
        return Err(PayloadOverrun);
      }
      var stored := body[offset..offset + len];
      DecodeStep(body, out, start, stored, offset + len);
      out := out + [stored];
      offset := offset + len;
      if offset == data.Length {
        break;
      }
    }
    assert body[offset..] == [];
    assert out + [] == out;
    return Ok(out);
  }

  /** Fewer than four bytes left: nothing more to decode. */
  lemma DecodeEnd(body: seq<byte>, start: nat)
    requires start <= |body| < start + 4
    ensures DecodeRecords(body[start..]) == Ok([])
  {
  }

  /** A record header at `start` that `getMulti` rejects. */
  lemma DecodeFails(body: seq<byte>, start: nat)
    requires start + 4 <= |body|
    requires var len := Int32At(body, start); len <= 0 || |body| - start - 4 < len
    ensures var len := Int32At(body, start);
      DecodeRecords(body[start..])
        == Err(if len == 0 then ZeroLengthRecord else if len < 0 then NegativeLength else PayloadOverrun)
  {
    DecodeAt(body, start);
  }

  /** One loop step: the record at `start`, with payload `stored`, moves
      from the rest of the body to the decoded payloads. */
  lemma DecodeStep(body: seq<byte>, out: seq<seq<byte>>, start: nat, stored: seq<byte>, next: nat)
    requires start + 4 <= |body| && Int32At(body, start) > 0
    requires next == start + 4 + Int32At(body, start) <= |body|
    requires stored == body[start + 4..next]
    ensures Prepend(out, DecodeRecords(body[start..])) == Prepend(out + [stored], DecodeRecords(body[next..]))
  {
    DecodeAt(body, start);
    PrependTwice(out, [stored], DecodeRecords(body[next..]));
  }

  /** The body of `ps` is its first record followed by the body of the rest. */
  lemma EncodeRecordsCons(ps: seq<seq<byte>>, rest: seq<byte>)
    requires StorablePayloads(ps) && ps != []
    ensures StorablePayloads(ps[1..])
    ensures EncodeRecords(ps) + rest == Int32Bytes(|ps[0]|) + ps[0] + (EncodeRecords(ps[1..]) + rest)
  {
  }

  /** Decoding a record written in front of `tail` yields its payload and
      carries on with `tail`. */
  lemma DecodeRecord(p: seq<byte>, tail: seq<byte>)
    requires 0 < |p| <= INT32_MAX
    ensures DecodeRecords(Int32Bytes(|p|) + p + tail) == Prepend([p], DecodeRecords(tail))
  {
    var data := Int32Bytes(|p|) + p + tail;
    assert data[0..4] == Int32Bytes(|p|);
    Int32RoundTrip(|p|, data, 0);
    assert data[4..4 + |p|] == p;
    assert data[4 + |p|..] == tail;
  }

  /** Decoding from the record header at `offset` of `data`. */
  lemma DecodeAt(data: seq<byte>, offset: nat)
    requires offset + 4 <= |data|
    ensures var len := Int32At(data, offset);
      DecodeRecords(data[offset..])
        == if len == 0 then Err(ZeroLengthRecord)
           else if len < 0 then Err(NegativeLength)
           else if |data| - offset - 4 < len then Err(PayloadOverrun)
           else Prepend([data[offset + 4..offset + 4 + len]], DecodeRecords(data[offset + 4 + len..]))
  {
    var at := data[offset..];
    assert at[0..4] == data[offset..offset + 4];
    var len := Int32At(data, offset);
    if 0 < len <= |data| - offset - 4 {
      assert at[4..4 + len] == data[offset + 4..offset + 4 + len];
      assert at[4 + len..] == data[offset + 4 + len..];
    }
  }

  /** Decoding runs through well-formed records and then carries on with
      whatever follows them. */
  lemma {:induction false} DecodeAfterRecords(ps: seq<seq<byte>>, rest: seq<byte>)
    requires StorablePayloads(ps)
    ensures DecodeRecords(EncodeRecords(ps) + rest) == Prepend(ps, DecodeRecords(rest))
  {
    if ps == [] {
      assert EncodeRecords(ps) + rest == rest;
      PrependNothing(DecodeRecords(rest));
    } else {
      EncodeRecordsCons(ps, rest);
      DecodeRecord(ps[0], EncodeRecords(ps[1..]) + rest);
      DecodeAfterRecords(ps[1..], rest);
      PrependTwice([ps[0]], ps[1..], DecodeRecords(rest));
      assert [ps[0]] + ps[1..] == ps;
    }
  }

  /** Round trip: a body built from non-empty payloads decodes to exactly
      those payloads in order, also when fewer than four stray bytes follow. */
  lemma DecodeEncodedRecords(ps: seq<seq<byte>>, trailer: seq<byte>)
    requires StorablePayloads(ps) && |trailer| < 4
    ensures DecodeRecords(EncodeRecords(ps) + trailer) == Ok(ps)
  {
    DecodeAfterRecords(ps, trailer);
    assert ps + [] == ps;
  }

  /** A zero length fails the whole decode, whatever valid records precede
      it: no partial list comes back. */
  lemma DecodeZeroLengthAfterRecords(ps: seq<seq<byte>>, rest: seq<byte>)
    requires StorablePayloads(ps)
    ensures DecodeRecords(EncodeRecords(ps) + Int32Bytes(0) + rest) == Err(ZeroLengthRecord)
  {
    var after := Int32Bytes(0) + rest;
    assert EncodeRecords(ps) + Int32Bytes(0) + rest == EncodeRecords(ps) + after;
    DecodeAfterRecords(ps, after);
    assert after[0..4] == Int32Bytes(0);
    Int32RoundTrip(0, after, 0);
  }

  /** A length larger than the bytes after its header fails the decode
      instead of yielding a short payload. */
  lemma DecodeOverrunAfterRecords(ps: seq<seq<byte>>, len: int, rest: seq<byte>)
    requires StorablePayloads(ps)
    requires 0 < len <= INT32_MAX && |rest| < len
    ensures DecodeRecords(EncodeRecords(ps) + Int32Bytes(len) + rest) == Err(PayloadOverrun)
  {
    var after := Int32Bytes(len) + rest;
    assert EncodeRecords(ps) + Int32Bytes(len) + rest == EncodeRecords(ps) + after;
    DecodeAfterRecords(ps, after);
    assert after[0..4] == Int32Bytes(len);
    Int32RoundTrip(len, after, 0);
  }

  /** A length whose top bit is set fails the decode. */
  lemma DecodeNegativeAfterRecords(ps: seq<seq<byte>>, header: seq<byte>, rest: seq<byte>)
    requires StorablePayloads(ps)
    requires |header| == 4 && header[0] >= 128
    ensures DecodeRecords(EncodeRecords(ps) + header + rest) == Err(NegativeLength)
  {
    var after := header + rest;
    assert EncodeRecords(ps) + header + rest == EncodeRecords(ps) + after;
    DecodeAfterRecords(ps, after);
    Int32NegativeIffTopBit(after, 0);
  }

  /** Conversely, a successful decode has read a body built from the
      payloads it returns, followed by fewer than four bytes. */
  lemma {:induction false} DecodedBodyIsEncoding(data: seq<byte>)
    requires DecodeRecords(data).Ok?
    ensures var ps := DecodeRecords(data).value;
      EncodeRecords(ps) <= data && |data| - |EncodeRecords(ps)| < 4
    decreases |data|
  {
    if |data| >= 4 {
      var len := Int32At(data, 0);
      var rest := data[4 + len..];
      DecodedBodyIsEncoding(rest);
      var ps := DecodeRecords(data).value;
      var qs := DecodeRecords(rest).value;
      assert ps == [data[4..4 + len]] + qs;
      assert ps[0] == data[4..4 + len] && ps[1..] == qs;
      Int32BytesAt(data, 0);
      assert EncodeRecords(ps) == data[0..4] + data[4..4 + len] + EncodeRecords(qs);
      assert data == data[0..4] + data[4..4 + len] + rest;
    }
  }

  /** The body `[00 00 00 03] "abc" [00 00 00 02] "xy"` decodes to
      `["abc", "xy"]`. */
  lemma TwoRecordBody()
    ensures DecodeRecords([0, 0, 0, 3, 97, 98, 99, 0, 0, 0, 2, 120, 121]) == Ok([[97, 98, 99], [120, 121]])
  {
    var body: seq<byte> := [0, 0, 0, 3, 97, 98, 99, 0, 0, 0, 2, 120, 121];
    var second := body[7..];
    SmallValue(body, 0, 4);
    SmallValue(second, 0, 4);
    assert DecodeRecords(second[6..]) == Ok([]);
    assert second[4..6] == [120, 121];
    assert [second[4..6]] + [] == [[120, 121]];
    assert DecodeRecords(second) == Ok([[120, 121]]);
    assert body[4..7] == [97, 98, 99];
    assert [body[4..7]] + [[120, 121]] == [[97, 98, 99], [120, 121]];
  }
}
