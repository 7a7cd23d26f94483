/** What an open log is configured with, and the two things the environment supplies. */
module Config {
  import opened ByteString

  const MAX_LSN: nat := 0xFFFF_FFFF_FFFF_FFFF

  /**
    `crc` is the checksum the format uses. It stays a parameter, so every result that does not
    name a particular checksum holds for all of them; module Crc supplies CRC-32C.
    `stamp(b)` is the wall-clock value found when the segment with base `b` is created.
   */
  datatype Env = Env(segmentSize: nat, maxRecordSize: u32, crc: Bytes -> u32, stamp: nat -> u64) {
    /** The configuration check of open: any single record fits a fresh segment. */
    predicate Valid() {
      maxRecordSize + 91 <= segmentSize
    }
  }

  /** A configuration small enough to write files out by hand. */
  predicate Small(c: Env) {
    c.segmentSize == 200 && c.maxRecordSize == 100
  }

  /** The next LSN, or none once the LSN space is used up. */
  function CheckedNext(lsn: nat): (r: Option<nat>)
    requires lsn <= MAX_LSN
    ensures r.None? <==> lsn == MAX_LSN
    ensures r.Some? ==> lsn < r.value <= MAX_LSN
  {
    if lsn == MAX_LSN then None else Some(lsn + 1)
  }
}

/** The record codec: framing, encoding and decoding of one record. */
module Record {
  import opened ByteString
  import opened Config

  const RECORD_HEADER_SIZE: nat := 20

  function PaddingFor(len: nat): (pad: nat)
    ensures pad < 8
  {
    (8 - (RECORD_HEADER_SIZE + len) % 8) % 8
  }

  function FramedSize(len: nat): (n: nat)
    ensures n % 8 == 0
    ensures RECORD_HEADER_SIZE + len <= n < RECORD_HEADER_SIZE + len + 8
  {
    RECORD_HEADER_SIZE + len + PaddingFor(len)
  }

  /** The part of a frame that the checksum covers. */
  function Body(lsn: nat, payload: Bytes): (b: Bytes)
    ensures |b| == FramedSize(|payload|) - 4
  {
    Le(|payload|, 4) + Le(lsn, 8) + [1, 0, 0, 0] + payload + Zeros(PaddingFor(|payload|))
  }

  function Frame(crc: Bytes -> u32, lsn: nat, payload: Bytes): (f: Bytes)
    ensures |f| == FramedSize(|payload|)
  {
    Le(crc(Body(lsn, payload)), 4) + Body(lsn, payload)
  }

  datatype DecodeError = LengthTooLarge | BadCrc | UnknownRecType

  datatype Decoded =
    | Record(lsn: nat, payload: Bytes, framedLen: nat)
    | Sentinel
    | Incomplete
    | Invalid(error: DecodeError)

  /** Decode the record at the front of `buf`. */
  function Decode(crc: Bytes -> u32, buf: Bytes, maxRecordSize: u32): (d: Decoded)
    ensures d.Record? ==> |d.payload| <= maxRecordSize && d.framedLen == FramedSize(|d.payload|) <= |buf|
  {
    if |buf| < RECORD_HEADER_SIZE then Incomplete
    else if buf[16] == 0 && AllZero(buf[..RECORD_HEADER_SIZE]) then Sentinel
    else
      var length := FromLe(buf[4..8]);
      if length > maxRecordSize then Invalid(LengthTooLarge)
      else
        var framed := FramedSize(length);
        if framed > |buf| then Incomplete
        else if crc(buf[4..framed]) != FromLe(buf[..4]) then Invalid(BadCrc)
        else if buf[16] != 1 then Invalid(UnknownRecType)
        else Record(FromLe(buf[8..16]), buf[20..20 + length], framed)
  }

  /** Where the fields of an encoded frame lie. */
  lemma FrameFields(crc: Bytes -> u32, lsn: u64, payload: Bytes)
    requires |payload| < 0x1_0000_0000
    ensures var f := Frame(crc, lsn, payload);
            && f[..4] == Le(crc(f[4..]), 4)
            && FromLe(f[..4]) == crc(f[4..])
            && FromLe(f[4..8]) == |payload|
            && FromLe(f[8..16]) == lsn
            && f[16..20] == [1, 0, 0, 0]
            && f[20..20 + |payload|] == payload
            && AllZero(f[20 + |payload|..])
  {
    var f := Frame(crc, lsn, payload);
    var b := Body(lsn, payload);
    assert f[4..] == b && f[..4] == Le(crc(b), 4);
    assert f[4..8] == b[..4] == Le(|payload|, 4);
    assert f[8..16] == b[4..12] == Le(lsn, 8);
    assert f[16..20] == b[12..16];
    assert f[20..20 + |payload|] == b[16..16 + |payload|];
    assert f[20 + |payload|..] == b[16 + |payload|..] == Zeros(PaddingFor(|payload|));
    LeRoundTrip4(crc(b));
    LeRoundTrip4(|payload|);
    LeRoundTrip8(lsn);
  }

  /** Decoding undoes encoding, whatever follows the frame. */
  lemma DecodeFrame(crc: Bytes -> u32, lsn: u64, payload: Bytes, rest: Bytes, maxRecordSize: u32)
    requires |payload| <= maxRecordSize
    ensures Decode(crc, Frame(crc, lsn, payload) + rest, maxRecordSize)
            == Record(lsn, payload, FramedSize(|payload|))
  {
    FrameFields(crc, lsn, payload);
    var f := Frame(crc, lsn, payload);
    var b := f + rest;
    assert b[16] == f[16..20][0] == 1;
    assert b[4..8] == f[4..8] && b[..4] == f[..4] && b[8..16] == f[8..16];
    assert b[4..|f|] == f[4..];
    assert b[20..20 + |payload|] == f[20..20 + |payload|];
  }

  /** Bytes whose fields are those of an encoded frame are that frame. */
  lemma FrameFromFields(crc: Bytes -> u32, g: Bytes, lsn: nat, payload: Bytes)
    requires |g| == FramedSize(|payload|)
    requires g[..4] == Le(crc(g[4..]), 4)
    requires g[4..8] == Le(|payload|, 4) && g[8..16] == Le(lsn, 8) && g[16..20] == [1, 0, 0, 0]
    requires g[20..20 + |payload|] == payload && AllZero(g[20 + |payload|..])
    ensures g == Frame(crc, lsn, payload)
  {
    hide Le;
    var len := |payload|;
    assert g[20 + len..] == Zeros(PaddingFor(len));
    InFive(g, 4, 8, 16, 20, 20 + len);
    assert g == g[..4] + g[4..];
  }

  lemma InFive(g: Bytes, i: nat, j: nat, k: nat, l: nat, m: nat)
    requires i <= j <= k <= l <= m <= |g|
    ensures g[i..] == g[i..j] + g[j..k] + g[k..l] + g[l..m] + g[m..]
  {
  }

  /**
    The codec's only slack: a decoded frame is the encoder's frame exactly when the flag bytes
    and the padding, which the decoder never looks at, are zero.
   */
  lemma DecodedIsEncoded(crc: Bytes -> u32, buf: Bytes, maxRecordSize: u32)
    requires Decode(crc, buf, maxRecordSize).Record?
    ensures var d := Decode(crc, buf, maxRecordSize);
            buf[..d.framedLen] == Frame(crc, d.lsn, d.payload)
            <==> AllZero(buf[17..20]) && AllZero(buf[20 + |d.payload|..d.framedLen])
  {
    var d := Decode(crc, buf, maxRecordSize);
    var n, len := d.framedLen, |d.payload|;
    var g := buf[..n];
    assert g[..4] == buf[..4] && g[4..8] == buf[4..8] && g[8..16] == buf[8..16];
    assert g[4..] == buf[4..n] && g[20..20 + len] == buf[20..20 + len];
    assert g[20 + len..] == buf[20 + len..n] && g[16..20] == [buf[16]] + buf[17..20];
    FromLe8(buf[8..16]);
    if g == Frame(crc, d.lsn, d.payload) {
      FrameFields(crc, d.lsn, d.payload);
      assert buf[17..20] == g[16..20][1..];
    }
    if AllZero(buf[17..20]) && AllZero(buf[20 + len..n]) {
      assert buf[17..20] == [0, 0, 0];
      LeInverse(buf[4..8]);
      LeInverse(buf[8..16]);
      LeInverse(buf[..4]);
      FrameFromFields(crc, g, d.lsn, d.payload);
    }
  }

  // ----- Exactly what the decoder accepts -----

  /** A frame with any type, flag and padding bytes, and the checksum that goes with them. */
  function AnyFrame(crc: Bytes -> u32, lsn: nat, kind: byte, flags: Bytes, payload: Bytes, pad: Bytes): (f: Bytes)
    requires |flags| == 3 && |pad| == PaddingFor(|payload|)
    ensures |f| == FramedSize(|payload|)
  {
    var body := Le(|payload|, 4) + Le(lsn, 8) + [kind] + flags + payload + pad;
    Le(crc(body), 4) + body
  }

  lemma AnyFields(crc: Bytes -> u32, lsn: u64, kind: byte, flags: Bytes, payload: Bytes, pad: Bytes)
    requires |flags| == 3 && |pad| == PaddingFor(|payload|) && |payload| < 0x1_0000_0000
    ensures var f := AnyFrame(crc, lsn, kind, flags, payload, pad);
            && FromLe(f[..4]) == crc(f[4..]) && FromLe(f[4..8]) == |payload| && FromLe(f[8..16]) == lsn
            && f[16] == kind && f[17..20] == flags && f[20..20 + |payload|] == payload && f[20 + |payload|..] == pad
  {
    hide Le;
    var f := AnyFrame(crc, lsn, kind, flags, payload, pad);
    var b := Le(|payload|, 4) + Le(lsn, 8) + [kind] + flags + payload + pad;
    assert f[4..] == b && f[..4] == Le(crc(b), 4);
    assert f[4..8] == Le(|payload|, 4);
    assert f[8..16] == Le(lsn, 8);
    LeRoundTrip4(crc(b));
    LeRoundTrip4(|payload|);
    LeRoundTrip8(lsn);
  }

  /** Such a frame decodes to its record if its type is 1, and to UnknownRecType otherwise. */
  lemma DecodeAny(
    crc: Bytes -> u32, lsn: u64, kind: byte, flags: Bytes, payload: Bytes, pad: Bytes, rest: Bytes, max: u32)
    requires |flags| == 3 && |pad| == PaddingFor(|payload|) && |payload| <= max
    requires !AllZero(AnyFrame(crc, lsn, kind, flags, payload, pad)[..20])
    ensures Decode(crc, AnyFrame(crc, lsn, kind, flags, payload, pad) + rest, max)
            == if kind == 1 then Record(lsn, payload, FramedSize(|payload|)) else Invalid(UnknownRecType)
  {
    hide AnyFrame, FromLe;
    AnyFields(crc, lsn, kind, flags, payload, pad);
    var f := AnyFrame(crc, lsn, kind, flags, payload, pad);
    var b := f + rest;
    assert b[..20] == f[..20] && b[4..8] == f[4..8] && b[..4] == f[..4] && b[8..16] == f[8..16];
    assert b[4..|f|] == f[4..] && b[20..20 + |payload|] == f[20..20 + |payload|];
  }

  /** Nothing else decodes to a record, or to UnknownRecType. */
  lemma DecodedIsAny(crc: Bytes -> u32, buf: Bytes, max: u32)
    ensures var d := Decode(crc, buf, max);
            d.Record? || d == Invalid(UnknownRecType) ==>
              && |buf| >= 20
              && var n, len := FramedSize(FromLe(buf[4..8])), FromLe(buf[4..8]);
              && n <= |buf| && len <= max && (d.Record? <==> buf[16] == 1)
              && (d.Record? ==> d.lsn == FromLe(buf[8..16]) && d.payload == buf[20..20 + len] && d.framedLen == n)
              && var payload, pad := buf[20..20 + len], buf[20 + len..n];
              && buf[..n] == AnyFrame(crc, FromLe(buf[8..16]), buf[16], buf[17..20], payload, pad)
  {
    var d := Decode(crc, buf, max);
    if d.Record? || d == Invalid(UnknownRecType) {
      AnyFromFields(crc, buf[..FramedSize(FromLe(buf[4..8]))], buf, FromLe(buf[4..8]));
    }
  }

  lemma AnyFromFields(crc: Bytes -> u32, g: Bytes, buf: Bytes, len: nat)
    requires 20 <= FramedSize(len) <= |buf| && g == buf[..FramedSize(len)] && len == FromLe(buf[4..8])
    requires crc(buf[4..FramedSize(len)]) == FromLe(buf[..4])
    ensures var payload, pad := buf[20..20 + len], buf[20 + len..FramedSize(len)];
            g == AnyFrame(crc, FromLe(buf[8..16]), buf[16], buf[17..20], payload, pad)
  {
    hide Le, FromLe;
    var n := FramedSize(len);
    LeInverse(buf[..4]);
    LeInverse(buf[4..8]);
    LeInverse(buf[8..16]);
    var body := buf[4..8] + buf[8..16] + [buf[16]] + buf[17..20] + buf[20..20 + len] + buf[20 + len..n];
    assert buf[4..n] == body;
    assert g == buf[..4] + buf[4..n];
  }

  /** The other answers, each with its exact cause, in the order the decoder looks. */
  lemma DecodeKinds(crc: Bytes -> u32, buf: Bytes, max: u32)
    ensures var d := Decode(crc, buf, max);
            var short := |buf| < 20;
            var zero := !short && forall i :: 0 <= i < 20 ==> buf[i] == 0;
            var len := if short then 0 else FromLe(buf[4..8]);
            && (d.Sentinel? <==> zero)
            && (d == Invalid(LengthTooLarge) <==> !short && !zero && len > max)
            && (d.Incomplete? <==> short || (!zero && len <= max && |buf| < FramedSize(len)))
            && (d == Invalid(BadCrc) <==>
                  && !short && !zero && len <= max && FramedSize(len) <= |buf|
                  && Le(crc(buf[4..FramedSize(len)]), 4) != buf[..4])
  {
    hide FromLe, Le, FramedSize;
    if |buf| >= 20 {
      assert forall i :: 0 <= i < 20 ==> buf[..20][i] == buf[i];
      LeInverse(buf[..4]);
      if FramedSize(FromLe(buf[4..8])) <= |buf| {
        LeRoundTrip4(crc(buf[4..FramedSize(FromLe(buf[4..8]))]));
      }
    }
  }

  /** The slack is real: for every record there is a frame that decodes to it and that no encoder wrote. */
  lemma FlagsAreIgnored(crc: Bytes -> u32, lsn: u64, payload: Bytes, max: u32)
    requires |payload| <= max
    ensures var f := AnyFrame(crc, lsn, 1, [1, 0, 0], payload, Zeros(PaddingFor(|payload|)));
            && Decode(crc, f, max) == Record(lsn, payload, FramedSize(|payload|))
            && f != Frame(crc, lsn, payload)
  {
    hide AnyFrame, Decode, Frame;
    var pad := Zeros(PaddingFor(|payload|));
    var f := AnyFrame(crc, lsn, 1, [1, 0, 0], payload, pad);
    AnyFields(crc, lsn, 1, [1, 0, 0], payload, pad);
    FrameFields(crc, lsn, payload);
    assert f[..20][16] == 1;
    DecodeAny(crc, lsn, 1, [1, 0, 0], payload, pad, [], max);
    NilJoin(f);
    assert f[17..20][0] == f[17] && Frame(crc, lsn, payload)[16..20][1] == Frame(crc, lsn, payload)[17];
  }

  /** Append the frame of `payload` to `buf`: lay the body down, then backfill the checksum. */
  method EncodeInto(crc: Bytes -> u32, buf: Bytes, lsn: u64, payload: Bytes) returns (out: Bytes, framed: nat)
    requires |payload| < 0x1_0000_0000
    ensures out == buf + Frame(crc, lsn, payload)
    ensures framed == FramedSize(|payload|)
  {
    hide Le;
    var start := |buf|;
    out := buf + Zeros(4);
    out := out + Le(|payload|, 4);
    out := out + Le(lsn, 8);
    out := out + [1] + [0] + Zeros(2);
    out := out + payload;
    out := out + Zeros(PaddingFor(|payload|));
    framed := |out| - start;
    assert out[start + 4..start + framed] == Body(lsn, payload);
    var sum := crc(out[start + 4..start + framed]);
    assert out[..start] == buf && out[start + 4..] == out[start + 4..start + framed];
    out := out[..start] + Le(sum, 4) + out[start + 4..];
    JoinAssoc(buf, Le(sum, 4), Body(lsn, payload));
  }

  /** LSN and framed length of the whole record at the front of `buf`; nothing is validated. */
  function Peek(buf: Bytes): (r: (nat, nat))
    requires |buf| >= RECORD_HEADER_SIZE
  {
    (FromLe(buf[8..16]), FramedSize(FromLe(buf[4..8])))
  }

  /** Concatenated frames of `recs`, numbered from `lsn`: what a staging buffer holds. */
  function Frames(crc: Bytes -> u32, lsn: nat, recs: seq<Bytes>): (b: Bytes)
    decreases recs
  {
    if recs == [] then [] else Frame(crc, lsn, recs[0]) + Frames(crc, lsn + 1, recs[1..])
  }

  lemma FramesNil(crc: Bytes -> u32, lsn: nat)
    ensures Frames(crc, lsn, []) == []
  {
  }

  /** Every frame has bytes, so only an empty batch stages none. */
  lemma FramesEmpty(crc: Bytes -> u32, lsn: nat, recs: seq<Bytes>)
    ensures Frames(crc, lsn, recs) == [] <==> recs == []
  {
    hide Frame, FramedSize;
  }

  lemma {:induction false} FramesJoin(crc: Bytes -> u32, lsn: nat, a: seq<Bytes>, b: seq<Bytes>)
    ensures Frames(crc, lsn, a + b) == Frames(crc, lsn, a) + Frames(crc, lsn + |a|, b)
    decreases a
  {
    if a == [] {
      assert a + b == b;
    } else {
      assert (a + b)[0] == a[0] && (a + b)[1..] == a[1..] + b;
      FramesJoin(crc, lsn + 1, a[1..], b);
    }
  }

  lemma FramesCons(crc: Bytes -> u32, lsn: nat, recs: seq<Bytes>)
    requires recs != []
    ensures Frames(crc, lsn, recs) == Frame(crc, lsn, recs[0]) + Frames(crc, lsn + 1, recs[1..])
  {
    hide Frame;
  }

  lemma FramesOne(crc: Bytes -> u32, lsn: nat, p: Bytes)
    ensures Frames(crc, lsn, [p]) == Frame(crc, lsn, p)
  {
    hide Frame, Frames;
    FramesCons(crc, lsn, [p]);
    assert [p][1..] == [];
    FramesNil(crc, lsn + 1);
    NilJoin(Frame(crc, lsn, p));
  }

  /** Peeking at any record boundary of a staging buffer finds that record's LSN and size. */
  lemma PeekFrames(crc: Bytes -> u32, lsn: nat, recs: seq<Bytes>, rest: Bytes)
    requires recs != [] && lsn <= MAX_LSN && |recs[0]| < 0x1_0000_0000
    ensures |Frames(crc, lsn, recs) + rest| >= RECORD_HEADER_SIZE
    ensures Peek(Frames(crc, lsn, recs) + rest) == (lsn, FramedSize(|recs[0]|))
  {
    var f := Frame(crc, lsn, recs[0]);
    var b := Frames(crc, lsn, recs) + rest;
    FrameFields(crc, lsn, recs[0]);
    assert b[4..8] == f[4..8] && b[8..16] == f[8..16];
  }
}
