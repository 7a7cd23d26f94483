/** Intra-segment recovery: the dense run of a segment and the verdict on what ends it. */
module Recovery {
  import opened ByteString
  import opened Config
  import opened Segment
  import R = Record

  datatype Run = Run(payloads: seq<Bytes>, end: nat)

  /**
    The longest chain of back-to-back valid records from `off` whose LSNs are `lsn`, `lsn + 1`, ...
    No scanned LSN exceeds MAX_LSN, so nothing can extend a run that has reached it.
   */
  function DenseRun(c: Env, file: Bytes, off: nat, lsn: nat): (r: Run)
    ensures off <= r.end
    ensures r.end == off || (r.end <= c.segmentSize && r.end <= |file|)
    ensures r.payloads == [] <==> r.end == off
    decreases c.segmentSize - off
  {
    var s := ScanAt(c, file, off);
    if s.Rec? && s.lsn == lsn then
      var rest := DenseRun(c, file, off + s.framed, lsn + 1);
      Run([s.payload] + rest.payloads, rest.end)
    else Run([], off)
  }

  predicate Sized(c: Env, recs: seq<Bytes>) {
    forall i :: 0 <= i < |recs| ==> |recs[i]| <= c.maxRecordSize
  }

  /** Distance limit of the forward scan: the largest frame one record can occupy. */
  function ScanBound(c: Env): (b: nat)
    ensures R.FramedSize(c.maxRecordSize) <= b
  {
    c.maxRecordSize + 28
  }

  /** Some 8-aligned offset within the bound past `x` holds a valid record that continues the log. */
  predicate Continues(c: Env, file: Bytes, x: nat, want: nat) {
    exists p :: x + 8 <= p <= x + 8 + ScanBound(c) && (p - x) % 8 == 0
                && ScanAt(c, file, p).Rec? && ScanAt(c, file, p).lsn >= want
  }

  datatype Verdict =
    | Clean(maxLsn: nat, writeOffset: nat)
    | Truncated(offset: nat, maxLsn: nat)
    | Corruption(offset: nat)
    | TornMidLog(offset: nat)

  /** The file ends within a record header of `x` and holds only zeros from there. */
  predicate ZeroCut(file: Bytes, x: nat) {
    |file| < x + R.RECORD_HEADER_SIZE && ZeroOn(file, x, |file|)
  }

  /** The verdict when the dense run stops at `x`, wanting LSN `want` there. */
  function Judge(c: Env, file: Bytes, x: nat, want: nat, active: bool): (v: Verdict)
    requires want >= 1
  {
    var s := ScanAt(c, file, x);
    if s.CleanEnd? then Clean(want - 1, x)
    else if !active then Corruption(x)
    else if want > MAX_LSN then
      if s.Invalid? && ZeroCut(file, x) then Truncated(x, want - 1) else Corruption(x)
    else if Continues(c, file, x, want) then TornMidLog(x)
    else Truncated(x, want - 1)
  }

  /** The verdict on a segment. */
  function Classify(c: Env, file: Bytes, base: nat, active: bool): (v: Verdict)
    requires base >= 1
  {
    var run := DenseRun(c, file, HEADER_SIZE, base);
    Judge(c, file, run.end, base + |run.payloads|, active)
  }

  /** The file after recovery: a truncated tail is overwritten with zeros up to the segment size. */
  function Repaired(c: Env, file: Bytes, v: Verdict): (r: Bytes)
    requires v.Truncated? ==> v.offset <= |file| && v.offset <= c.segmentSize
  {
    if v.Truncated? then Overwrite(file, v.offset, Zeros(c.segmentSize - v.offset)) else file
  }

  /** No record's frame is larger than the largest the configuration allows. */
  lemma FrameBound(c: Env, payload: Bytes)
    requires |payload| <= c.maxRecordSize
    ensures 8 <= R.FramedSize(|payload|) <= R.FramedSize(c.maxRecordSize)
  {
    Monotone(|payload|, c.maxRecordSize);
  }

  lemma RoundedUp(n: nat)
    ensures R.FramedSize(n) == 8 * ((n + 27) / 8)
  {
  }

  lemma Monotone(a: nat, b: nat)
    requires a <= b
    ensures R.FramedSize(a) <= R.FramedSize(b)
  {
    hide R.FramedSize;
    RoundedUp(a);
    RoundedUp(b);
  }

  // ----- Facts about dense runs -----

  /** A run never passes the last LSN. */
  lemma {:induction false} RunFits(c: Env, file: Bytes, off: nat, lsn: nat)
    requires lsn <= MAX_LSN + 1
    ensures lsn + |DenseRun(c, file, off, lsn).payloads| <= MAX_LSN + 1
    decreases c.segmentSize - off
  {
    hide ScanAt;
    var s := ScanAt(c, file, off);
    ScannedLsnFits(c, file, off);
    if s.Rec? && s.lsn == lsn {
      RunFits(c, file, off + s.framed, lsn + 1);
    }
  }

  lemma Aligned8(a: nat, b: nat)
    requires a % 8 == 0 && b % 8 == 0
    ensures (a + b) % 8 == 0
  {
  }

  /** Runs are 8-aligned, because frames are. */
  lemma {:induction false} RunAligned(c: Env, file: Bytes, off: nat, lsn: nat)
    ensures (DenseRun(c, file, off, lsn).end - off) % 8 == 0
    decreases c.segmentSize - off
  {
    hide ScanAt, R.FramedSize;
    var s := ScanAt(c, file, off);
    if s.Rec? && s.lsn == lsn {
      RunAligned(c, file, off + s.framed, lsn + 1);
      Aligned8(s.framed, DenseRun(c, file, off + s.framed, lsn + 1).end - off - s.framed);
    }
  }

  /** Nothing at the end of a run is the record the run wants next. */
  lemma {:induction false} RunMaximal(c: Env, file: Bytes, off: nat, lsn: nat)
    ensures var r := DenseRun(c, file, off, lsn);
            var s := ScanAt(c, file, r.end);
            !(s.Rec? && s.lsn == lsn + |r.payloads|)
    decreases c.segmentSize - off
  {
    hide ScanAt;
    var s := ScanAt(c, file, off);
    if s.Rec? && s.lsn == lsn {
      RunMaximal(c, file, off + s.framed, lsn + 1);
    }
  }

  lemma RunNext(c: Env, f: Bytes, off: nat)
    requires ScanAt(c, f, off).Rec?
    ensures var s := ScanAt(c, f, off);
            var rest := DenseRun(c, f, off + s.framed, s.lsn + 1);
            DenseRun(c, f, off, s.lsn) == Run([s.payload] + rest.payloads, rest.end)
  {
    hide ScanAt, R.FramedSize;
  }

  /** A file that agrees with `f` up to the end of `f`'s run has that run, and maybe more after it. */
  lemma {:induction false} RunExtends(c: Env, f: Bytes, g: Bytes, off: nat, lsn: nat)
    requires SameOn(f, g, off, DenseRun(c, f, off, lsn).end)
    ensures var r := DenseRun(c, f, off, lsn);
            var more := DenseRun(c, g, r.end, lsn + |r.payloads|);
            DenseRun(c, g, off, lsn) == Run(r.payloads + more.payloads, more.end)
    decreases c.segmentSize - off
  {
    hide ScanAt, R.FramedSize, SameOn, DenseRun;
    var r := DenseRun(c, f, off, lsn);
    var s := ScanAt(c, f, off);
    var more := DenseRun(c, g, r.end, lsn + |r.payloads|);
    if s.Rec? && s.lsn == lsn {
      RunNext(c, f, off);
      SameWithin(f, g, off, r.end, off, off + s.framed);
      SameWithin(f, g, off, r.end, off + s.framed, r.end);
      ScanLocal(c, f, g, off);
      RunNext(c, g, off);
      RunExtends(c, f, g, off + s.framed, lsn + 1);
      ConsJoin(s.payload, DenseRun(c, f, off + s.framed, lsn + 1).payloads, more.payloads);
    } else {
      RunStops(c, f, off, lsn);
      NilJoin(more.payloads);
    }
  }

  /** One step of a run: a frame at `off`, then the run from its end. */
  lemma RunStep(c: Env, f: Bytes, off: nat, lsn: u64, payload: Bytes)
    requires |payload| <= c.maxRecordSize
    requires var n := R.FramedSize(|payload|);
             off + n <= |f| && off + n <= c.segmentSize && f[off..off + n] == R.Frame(c.crc, lsn, payload)
    ensures var more := DenseRun(c, f, off + R.FramedSize(|payload|), lsn + 1);
            DenseRun(c, f, off, lsn) == Run([payload] + more.payloads, more.end)
  {
    hide ScanAt, R.Frame, R.FramedSize;
    ScanFrame(c, f, off, lsn, payload);
  }

  /** The frames of `recs`, numbered from `lsn`, lie at `off` of the file and inside the segment. */
  ghost predicate FramesAt(c: Env, f: Bytes, off: nat, lsn: nat, recs: seq<Bytes>) {
    var b := R.Frames(c.crc, lsn, recs);
    off + |b| <= |f| && off + |b| <= c.segmentSize && f[off..off + |b|] == b
  }

  lemma FramesAtHead(c: Env, f: Bytes, off: nat, lsn: nat, recs: seq<Bytes>)
    requires recs != [] && FramesAt(c, f, off, lsn, recs)
    ensures var n := R.FramedSize(|recs[0]|);
            && off + n <= |f| && off + n <= c.segmentSize
            && f[off..off + n] == R.Frame(c.crc, lsn, recs[0])
            && |R.Frames(c.crc, lsn, recs)| == n + |R.Frames(c.crc, lsn + 1, recs[1..])|
            && FramesAt(c, f, off + n, lsn + 1, recs[1..])
  {
    hide R.Frame, R.FramedSize;
    SplitSlice(f, off, R.Frame(c.crc, lsn, recs[0]), R.Frames(c.crc, lsn + 1, recs[1..]));
  }

  /** Frames laid down at `off` are read back as a run, which goes on with whatever follows them. */
  lemma {:induction false} RunOfFrames(c: Env, f: Bytes, off: nat, lsn: nat, recs: seq<Bytes>)
    requires Sized(c, recs) && lsn + |recs| <= MAX_LSN + 1
    requires FramesAt(c, f, off, lsn, recs)
    ensures var more := DenseRun(c, f, off + |R.Frames(c.crc, lsn, recs)|, lsn + |recs|);
            DenseRun(c, f, off, lsn) == Run(recs + more.payloads, more.end)
    decreases recs
  {
    hide DenseRun, R.FramedSize, R.Frames, FramesAt;
    if recs == [] {
      R.FramesNil(c.crc, lsn);
      NilJoin(DenseRun(c, f, off, lsn).payloads);
    } else {
      FramesAtHead(c, f, off, lsn, recs);
      RunStep(c, f, off, lsn, recs[0]);
      RunOfFrames(c, f, off + R.FramedSize(|recs[0]|), lsn + 1, recs[1..]);
      var more := DenseRun(c, f, off + |R.Frames(c.crc, lsn, recs)|, lsn + |recs|);
      ConsJoin(recs[0], recs[1..], more.payloads);
      HeadTail(recs);
    }
  }

  lemma RunStops(c: Env, f: Bytes, off: nat, lsn: nat)
    requires var s := ScanAt(c, f, off);
             !(s.Rec? && s.lsn == lsn)
    ensures DenseRun(c, f, off, lsn) == Run([], off)
  {
    hide ScanAt;
  }

  /** A run does not start in a zeroed region. */
  lemma RunInZeros(c: Env, f: Bytes, off: nat, lsn: nat, from: nat)
    requires from <= off && c.segmentSize <= |f| && ZeroOn(f, from, c.segmentSize)
    ensures DenseRun(c, f, off, lsn) == Run([], off)
  {
    ScanZeros(c, f, off, from);
  }

  /** The scan has read exactly `read` from the front of the run and stands at `x`. */
  ghost predicate ReadSoFar(c: Env, f: Bytes, base: nat, read: seq<Bytes>, x: nat) {
    var rest := DenseRun(c, f, x, base + |read|);
    DenseRun(c, f, HEADER_SIZE, base) == Run(read + rest.payloads, rest.end)
  }

  lemma ReadNothing(c: Env, f: Bytes, base: nat)
    ensures ReadSoFar(c, f, base, [], HEADER_SIZE)
  {
    hide DenseRun;
    NilJoin(DenseRun(c, f, HEADER_SIZE, base).payloads);
  }

  lemma ReadOne(c: Env, f: Bytes, base: nat, read: seq<Bytes>, x: nat)
    requires ReadSoFar(c, f, base, read, x)
    requires ScanAt(c, f, x).Rec? && ScanAt(c, f, x).lsn == base + |read|
    ensures var s := ScanAt(c, f, x);
            ReadSoFar(c, f, base, read + [s.payload], x + s.framed)
  {
    hide ScanAt;
    var s := ScanAt(c, f, x);
    JoinAssoc(read, [s.payload], DenseRun(c, f, x + s.framed, base + |read| + 1).payloads);
  }

  /** The verdict, once the scan has read `read` from the front and stopped at `x`. */
  lemma VerdictAt(c: Env, f: Bytes, base: nat, active: bool, read: seq<Bytes>, x: nat)
    requires base >= 1 && ReadSoFar(c, f, base, read, x)
    requires var s := ScanAt(c, f, x);
             !(s.Rec? && s.lsn == base + |read|)
    ensures Classify(c, f, base, active) == Judge(c, f, x, base + |read|, active)
  {
    hide ScanAt, Judge, DenseRun;
    RunStops(c, f, x, base + |read|);
    NilJoin(read);
  }

  // ----- Production recovery -----

  /** A segment file open for reading and writing. */
  class File {
    var data: Bytes

    constructor (data: Bytes)
      ensures this.data == data
    {
      this.data := data;
    }
  }

  const CHUNK: nat := 65536

  /** Overwrite `[from, to)` with zeros, in bounded chunks, front to back. */
  method WriteZeros(file: File, from: nat, to: nat)
    requires from <= to && from <= |file.data|
    modifies file
    ensures file.data == Overwrite(old(file.data), from, Zeros(to - from))
  {
    hide Overwrite;
    ghost var was := file.data;
    var off := from;
    assert Overwrite(was, from, Zeros(0)) == was;
    while off < to
      invariant from <= off <= to
      invariant file.data == Overwrite(was, from, Zeros(off - from))
    {
      var n := if to - off < CHUNK then to - off else CHUNK;
      OverwriteJoin(was, from, Zeros(off - from), Zeros(n));
      assert Zeros(off - from) + Zeros(n) == Zeros(off - from + n);
      file.data := Overwrite(file.data, off, Zeros(n));
      off := off + n;
    }
  }

  /** The bounded forward scan: step 8 bytes at a time from `x + 8`. */
  method ForwardScanFindsValid(c: Env, file: Bytes, x: nat, want: nat, chunk: nat -> nat) returns (found: bool)
    requires c.Valid()
    ensures found <==> Continues(c, file, x, want)
  {
    hide ScanAt, R.FramedSize;
    var start := x + 8;
    var end := start + ScanBound(c);
    var p := start;
    while p <= end
      invariant start <= p && (p - x) % 8 == 0
      invariant forall q :: start <= q < p && (q - x) % 8 == 0 ==>
                  !(ScanAt(c, file, q).Rec? && ScanAt(c, file, q).lsn >= want)
    {
      var s := ReadRecordAt(c, file, p, chunk);
      if s.Rec? && s.lsn >= want {
        return true;
      }
      p := p + 8;
    }
    found := false;
  }

  /** Decide an invalid record at `x`, and zero the tail when it is a torn one. */
  method ClassifyBoundary(c: Env, file: File, x: nat, want: nat, lastValid: nat, active: bool, chunk: nat -> nat)
    returns (v: Verdict)
    requires c.Valid() && x <= |file.data| && x <= c.segmentSize
    modifies file
    ensures v == if !active then Corruption(x)
                 else if Continues(c, old(file.data), x, want) then TornMidLog(x)
                 else Truncated(x, lastValid)
    ensures file.data == Repaired(c, old(file.data), v)
  {
    if !active {
      return Corruption(x);
    }
    var found := ForwardScanFindsValid(c, file.data, x, want, chunk);
    if found {
      return TornMidLog(x);
    }
    WriteZeros(file, x, c.segmentSize);
    v := Truncated(x, lastValid);
  }

  /** An invalid read right after the last LSN: corruption, unless the zero region was cut short. */
  method AtCapacityInvalid(c: Env, file: File, x: nat, lastValid: nat, active: bool) returns (v: Verdict)
    requires x <= |file.data| && x <= c.segmentSize
    modifies file
    ensures v == if active && ZeroCut(old(file.data), x) then Truncated(x, lastValid) else Corruption(x)
    ensures file.data == Repaired(c, old(file.data), v)
  {
    if |file.data| >= x + R.RECORD_HEADER_SIZE || !active {
      return Corruption(x);
    }
    var tail := file.data[x..];
    if !AllZero(tail) {
      var i :| 0 <= i < |tail| && tail[i] != 0;
      assert file.data[x + i] != 0;
      return Corruption(x);
    }
    assert ZeroOn(file.data, x, |file.data|) by {
      forall i | x <= i < |file.data| ensures file.data[i] == 0 {
        assert file.data[i] == tail[i - x];
      }
    }
    WriteZeros(file, x, c.segmentSize);
    v := Truncated(x, lastValid);
  }

  /** Recover one segment in place. `expected` is none once MAX_LSN has been accepted. */
  method RecoverSegment(c: Env, file: File, base: nat, active: bool, chunk: nat -> nat) returns (v: Verdict)
    requires c.Valid() && 1 <= base <= MAX_LSN && HEADER_SIZE <= |file.data|
    modifies file
    ensures v == Classify(c, old(file.data), base, active)
    ensures v.Truncated? ==> v.offset <= |old(file.data)| && v.offset <= c.segmentSize
    ensures file.data == Repaired(c, old(file.data), v)
  {
    hide ScanAt, R.FramedSize, Classify, Continues, ZeroCut, Overwrite, ReadSoFar;
    ghost var f := file.data;
    var offset := HEADER_SIZE;
    var expected := Some(base);
    var lastValid := base - 1;
    ghost var read: seq<Bytes> := [];
    ReadNothing(c, f, base);
    while true
      invariant file.data == f && HEADER_SIZE <= offset <= |f| && offset <= c.segmentSize
      invariant lastValid + 1 == base + |read| <= MAX_LSN + 1
      invariant expected == if lastValid == MAX_LSN then None else Some(lastValid + 1)
      invariant ReadSoFar(c, f, base, read, offset)
      decreases c.segmentSize - offset
    {
      ScannedLsnFits(c, f, offset);
      var s := ReadRecordAt(c, file.data, offset, chunk);
      if !(s.Rec? && s.lsn == lastValid + 1) {
        VerdictAt(c, f, base, active, read, offset);
      }
      match s {
        case Rec(lsn, payload, framed) =>
          if expected.None? {
            return Corruption(offset);
          }
          if lsn != expected.value {
            v := ClassifyBoundary(c, file, offset, expected.value, lastValid, active, chunk);
            return;
          }
          ReadOne(c, f, base, read, offset);
          read := read + [payload];
          lastValid := lsn;
          offset := offset + framed;
          expected := CheckedNext(lsn);
        case CleanEnd =>
          return Clean(lastValid, offset);
        case Invalid =>
          if expected.None? {
            v := AtCapacityInvalid(c, file, offset, lastValid, active);
            return;
          }
          v := ClassifyBoundary(c, file, offset, expected.value, lastValid, active, chunk);
          return;
      }
    }
  }

  // ----- The independent reference classifier of the differential tests -----

  /**
    Read-only, one-shot reads, and a capacity flag where production keeps an optional LSN. Any bytes,
    any sizes; the reserved base 0 is taken as 1.
   */
  method ReferenceClassify(c: Env, bytes: Bytes, baseLsn: nat, active: bool) returns (v: Verdict)
    requires baseLsn <= MAX_LSN
    ensures v == Classify(c, bytes, if baseLsn == 0 then 1 else baseLsn, active)
  {
    hide ScanAt, R.FramedSize, Overwrite, Continues, ReadSoFar, Classify;
    var base := if baseLsn == 0 then 1 else baseLsn;
    var offset, expected, lastValid := HEADER_SIZE, base, base - 1;
    var atCapacity := false;
    ghost var read: seq<Bytes> := [];
    ReadNothing(c, bytes, base);
    while true
      invariant lastValid + 1 == base + |read|
      invariant lastValid <= MAX_LSN && atCapacity == (lastValid == MAX_LSN)
      invariant !atCapacity ==> expected == lastValid + 1
      invariant ReadSoFar(c, bytes, base, read, offset)
      decreases c.segmentSize - offset
    {
      var s := ScanAt(c, bytes, offset);
      ScannedLsnFits(c, bytes, offset);
      if !(s.Rec? && s.lsn == lastValid + 1) {
        VerdictAt(c, bytes, base, active, read, offset);
      }
      if atCapacity {
        if s.CleanEnd? {
          return Clean(lastValid, offset);
        }
        if s.Rec? {
          return Corruption(offset);
        }
        var rest := if offset <= |bytes| then bytes[offset..] else [];
        var zeroCut := |rest| < R.RECORD_HEADER_SIZE && AllZero(rest);
        assert zeroCut <==> ZeroCut(bytes, offset) by {
          assert forall i :: offset <= i < |bytes| ==> bytes[i] == rest[i - offset];
          assert forall i :: 0 <= i < |rest| ==> rest[i] == bytes[offset + i];
        }
        return if active && zeroCut then Truncated(offset, lastValid) else Corruption(offset);
      }
      if s.CleanEnd? {
        return Clean(lastValid, offset);
      }
      if s.Invalid? || s.lsn != expected {
        if !active {
          return Corruption(offset);
        }
        var found := ReferenceForwardScan(c, bytes, offset, expected);
        WindowIs(c, bytes, offset, expected);
        return if found then TornMidLog(offset) else Truncated(offset, lastValid);
      }
      ReadOne(c, bytes, base, read, offset);
      read := read + [s.payload];
      lastValid := s.lsn;
      offset := offset + s.framed;
      if s.lsn == MAX_LSN {
        atCapacity := true;
      } else {
        expected := s.lsn + 1;
      }
    }
  }

  /** The reference's own statement of the window: a record header, the longest payload, 7 bytes of padding, 1. */
  function ReferenceBound(c: Env): (b: nat)
    ensures b == c.maxRecordSize + 28
  {
    20 + c.maxRecordSize + 7 + 1
  }

  /** The production window, with its numbers written out. */
  lemma WindowIs(c: Env, f: Bytes, x: nat, want: nat)
    ensures Continues(c, f, x, want) <==>
            exists p :: x + 8 <= p <= x + c.maxRecordSize + 36 && (p - x) % 8 == 0
                        && ScanAt(c, f, p).Rec? && ScanAt(c, f, p).lsn >= want
  {
    hide ScanAt;
  }

  method ReferenceForwardScan(c: Env, bytes: Bytes, x: nat, expected: nat) returns (found: bool)
    ensures found <==> exists p :: x + 8 <= p <= x + c.maxRecordSize + 36 && (p - x) % 8 == 0
                                   && ScanAt(c, bytes, p).Rec? && ScanAt(c, bytes, p).lsn >= expected
  {
    hide ScanAt, R.FramedSize;
    var start := x + 8;
    var p := start;
    while p <= start + ReferenceBound(c)
      invariant start <= p && (p - x) % 8 == 0
      invariant forall q :: start <= q < p && (q - x) % 8 == 0 ==>
                  !(ScanAt(c, bytes, q).Rec? && ScanAt(c, bytes, q).lsn >= expected)
    {
      var s := ScanAt(c, bytes, p);
      if s.Rec? && s.lsn >= expected {
        return true;
      }
      p := p + 8;
    }
    found := false;
  }

  // ----- The verdict on bytes -----

  /** The records end at `x`: no room for a record header, or a header's worth of zeros. */
  predicate EndsAt(c: Env, f: Bytes, x: nat) {
    c.segmentSize < x + 20 || (x + 20 <= |f| && forall i :: x <= i < x + 20 ==> f[i] == 0)
  }

  lemma EndsExactly(c: Env, f: Bytes, x: nat)
    ensures ScanAt(c, f, x).CleanEnd? <==> EndsAt(c, f, x)
  {
    if x + 20 <= |f| {
      assert forall i :: x <= i < x + 20 ==> f[x..x + 20][i - x] == f[i];
    }
  }

  /** Clean, for any segment: exactly if the records end where the run does. */
  lemma CleanExactly(c: Env, f: Bytes, base: nat, active: bool)
    requires base >= 1
    ensures var run, v := DenseRun(c, f, HEADER_SIZE, base), Classify(c, f, base, active);
            && (v.Clean? <==> EndsAt(c, f, run.end))
            && (v.Clean? ==> v == Clean(base + |run.payloads| - 1, run.end))
            && (!v.Clean? && !active ==> v == Corruption(run.end))
  {
    hide DenseRun, ScanAt, EndsAt, Continues, ZeroCut;
    EndsExactly(c, f, DenseRun(c, f, HEADER_SIZE, base).end);
  }

  /**
    An active segment whose run has not reached the last LSN and does not end cleanly: TornMidLog if and
    only if a record that continues the log starts at an 8-aligned distance from 8 to the record limit
    plus 36 bytes on; truncated otherwise.
   */
  lemma TornExactly(c: Env, f: Bytes, base: nat)
    requires base >= 1
    requires var run := DenseRun(c, f, HEADER_SIZE, base);
             base + |run.payloads| <= MAX_LSN && !EndsAt(c, f, run.end)
    ensures var run := DenseRun(c, f, HEADER_SIZE, base);
            var x, want := run.end, base + |run.payloads|;
            Classify(c, f, base, true) ==
            if exists p :: x + 8 <= p <= x + c.maxRecordSize + 36 && (p - x) % 8 == 0
                           && ScanAt(c, f, p).Rec? && ScanAt(c, f, p).lsn >= want
            then TornMidLog(x) else Truncated(x, want - 1)
  {
    hide DenseRun, ScanAt, EndsAt, Continues;
    var run := DenseRun(c, f, HEADER_SIZE, base);
    EndsExactly(c, f, run.end);
    WindowIs(c, f, run.end, base + |run.payloads|);
  }

  /**
    An active segment whose run has reached the last LSN: corruption, with no byte changed, if and only
    if there is room for a record header behind it and one of its bytes, as far as the file reaches, is
    not zero, be it a record or not. Zeros cut short are truncated.
   */
  lemma LastLsnExactly(c: Env, f: Bytes, base: nat)
    requires base >= 1 && base + |DenseRun(c, f, HEADER_SIZE, base).payloads| == MAX_LSN + 1
    ensures var x := DenseRun(c, f, HEADER_SIZE, base).end;
            var v := Classify(c, f, base, true);
            var dirty := exists i :: x <= i < x + 20 && i < |f| && f[i] != 0;
            && (v.Corruption? <==> x + 20 <= c.segmentSize && dirty)
            && (v.Corruption? ==> v == Corruption(x) && Repaired(c, f, v) == f)
            && (v.Truncated? <==> |f| < x + 20 <= c.segmentSize && !dirty)
            && (v.Truncated? ==> v == Truncated(x, MAX_LSN))
            && !v.TornMidLog?
  {
    hide DenseRun, ScanAt;
    EndsExactly(c, f, DenseRun(c, f, HEADER_SIZE, base).end);
    CleanExactly(c, f, base, true);
    TooShort(c, f, DenseRun(c, f, HEADER_SIZE, base).end);
  }

  lemma TooShort(c: Env, f: Bytes, x: nat)
    ensures |f| < x + 20 <= c.segmentSize ==> ScanAt(c, f, x).Invalid?
  {
  }
}
