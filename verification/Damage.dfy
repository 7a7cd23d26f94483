/** Damage to a segment: a flipped byte, and damage in front of an intact record. */
module Damage {
  import opened ByteString
  import opened Config
  import opened Segment
  import opened Recovery
  import opened Directory
  import opened Open
  import Crc
  import R = Record

  // ----- One damaged byte, with the real checksum -----

  /** A configuration whose checksum is CRC-32C. */
  ghost predicate RealCrc(c: Env) {
    forall b: Bytes :: c.crc(b) == Crc.Crc32c(b)
  }

  /** Bytes whose checksum does not match, and which do not read as the sentinel, decode to BadCrc. */
  lemma BadSumDecodes(crc: Bytes -> u32, buf: Bytes, max: u32)
    requires |buf| >= R.RECORD_HEADER_SIZE && (buf[16] != 0 || !AllZero(buf[..20]))
    requires FromLe(buf[4..8]) <= max && R.FramedSize(FromLe(buf[4..8])) == |buf|
    requires crc(buf[4..]) != FromLe(buf[..4])
    ensures R.Decode(crc, buf, max) == R.Invalid(R.BadCrc)
  {
    hide FromLe;
    assert buf[4..|buf|] == buf[4..];
  }

  lemma LsnBytes(b: Bytes)
    requires |b| == 8 && AllZero(b)
    ensures FromLe(b) == 0
  {
    Widths();
    LeRoundTrip8(0);
    assert b == Le(0, 8) by {
      LeZero(8);
    }
  }

  lemma {:induction false} LeZero(k: nat)
    ensures Le(0, k) == Zeros(k)
  {
    if k > 0 {
      LeZero(k - 1);
    }
  }

  /**
    Changing any one byte of an encoded frame outside its length field (checksum, LSN, type, flags,
    payload or padding) makes it decode to BadCrc: never to a record, never to the sentinel.
   */
  lemma OneByteIsCaught(c: Env, lsn: u64, payload: Bytes, i: nat, x: byte)
    requires RealCrc(c) && lsn >= 1 && |payload| <= c.maxRecordSize
    requires i < R.FramedSize(|payload|) && !(4 <= i < 8) && x != R.Frame(c.crc, lsn, payload)[i]
    ensures R.Decode(c.crc, R.Frame(c.crc, lsn, payload)[i := x], c.maxRecordSize) == R.Invalid(R.BadCrc)
  {
    hide R.Frame, R.Decode, FromLe, R.FramedSize, Crc.Crc32c;
    var f := R.Frame(c.crc, lsn, payload);
    var b := f[i := x];
    R.FrameFields(c.crc, lsn, payload);
    assert b[4..8] == f[4..8];
    assert b[16] != 0 || !AllZero(b[..20]) by {
      assert f[16] == f[16..20][0];
      if i == 16 && AllZero(b[..20]) {
        assert b[..20][8..16] == b[8..16] == f[8..16];
        LsnBytes(f[8..16]);
      }
    }
    assert c.crc(b[4..]) != FromLe(b[..4]) by {
      if i < 4 {
        assert b[4..] == f[4..];
        assert b[..4] != f[..4] by {
          assert b[..4][i] == x && f[..4][i] == f[i];
        }
        LeInverse(b[..4]);
        LeInverse(f[..4]);
      } else {
        assert b[..4] == f[..4];
        assert b[4..] == f[4..][i - 4 := x];
        Crc.OneByteChangesCrc(f[4..], i - 4, x);
      }
    }
    BadSumDecodes(c.crc, b, c.maxRecordSize);
  }

  /** Where decoding a copy reports a bad checksum, scanning in place reports an invalid record. */
  lemma BadCrcScans(c: Env, g: Bytes, off: nat, n: nat)
    requires R.RECORD_HEADER_SIZE <= n && off + n <= |g| && off + n <= c.segmentSize
    requires R.Decode(c.crc, g[off..off + n], c.maxRecordSize) == R.Invalid(R.BadCrc)
    ensures ScanAt(c, g, off) == Invalid
  {
    hide FromLe, R.FramedSize;
    DecodeSlice(c, g, off, n);
    var b := g[off..off + n];
    assert g[off..off + 20] == b[..20];
    SliceOfSlice(g, off, off + n, 4, R.FramedSize(FromLe(b[4..8])));
  }

  // ----- Mid-log damage -----

  /** Where record `i` of a batch of frames begins. */
  function OffsetOf(c: Env, lsn: nat, recs: seq<Bytes>, i: nat): (n: nat)
    requires i <= |recs|
  {
    |R.Frames(c.crc, lsn, recs[..i])|
  }

  /** One frame of several, and the one after it. */
  lemma FrameWithin(c: Env, f: Bytes, off: nat, lsn: nat, recs: seq<Bytes>, i: nat)
    requires i < |recs| && FramesAt(c, f, off, lsn, recs)
    ensures var x := off + OffsetOf(c, lsn, recs, i);
            var n := R.FramedSize(|recs[i]|);
            && FramesAt(c, f, off, lsn, recs[..i])
            && x + n <= |f| && x + n <= c.segmentSize
            && f[x..x + n] == R.Frame(c.crc, lsn + i, recs[i])
            && FramesAt(c, f, x + n, lsn + i + 1, recs[i + 1..])
  {
    hide R.Frame, R.FramedSize, R.Frames;
    var pre, post := R.Frames(c.crc, lsn, recs[..i]), R.Frames(c.crc, lsn + i, recs[i..]);
    assert recs == recs[..i] + recs[i..];
    R.FramesJoin(c.crc, lsn, recs[..i], recs[i..]);
    SplitSlice(f, off, pre, post);
    FramesAtHead(c, f, off + |pre|, lsn + i, recs[i..]);
    assert recs[i..][1..] == recs[i + 1..];
  }

  /** A segment file of the writer's: the frames of `recs`, numbered from the base, after the header. */
  ghost predicate Holds(c: Env, sf: SegFile, recs: seq<Bytes>) {
    && sf.base >= 1 && sf.base + |recs| <= MAX_LSN + 1 && Sized(c, recs)
    && FramesAt(c, sf.data, HEADER_SIZE, sf.base, recs)
  }

  function RecordOffset(c: Env, sf: SegFile, recs: seq<Bytes>, i: nat): (x: nat)
    requires i <= |recs|
    ensures HEADER_SIZE <= x
  {
    HEADER_SIZE + OffsetOf(c, sf.base, recs, i)
  }

  /** `g` is the file with any damage at all inside the frame of record `i`, and none outside it. */
  ghost predicate DamagedAt(c: Env, sf: SegFile, g: Bytes, recs: seq<Bytes>, i: nat)
    requires i < |recs|
  {
    var x := RecordOffset(c, sf, recs, i);
    var n := R.FramedSize(|recs[i]|);
    |g| == |sf.data| && SameOn(sf.data, g, 0, x) && SameOn(sf.data, g, x + n, |g|)
  }

  /** The damage shows: the frame reads neither as the sentinel nor as the record that belongs there. */
  predicate Shows(c: Env, sf: SegFile, g: Bytes, recs: seq<Bytes>, i: nat)
    requires i < |recs|
  {
    var s := ScanAt(c, g, RecordOffset(c, sf, recs, i));
    !s.CleanEnd? && !(s.Rec? && s.lsn == sf.base + i)
  }

  /** What survives damage to record `i`: the run before it, and the frame after it. */
  lemma Around(c: Env, sf: SegFile, g: Bytes, recs: seq<Bytes>, i: nat)
    requires Holds(c, sf, recs) && i < |recs| && DamagedAt(c, sf, g, recs, i)
    ensures var x := RecordOffset(c, sf, recs, i);
            var n := R.FramedSize(|recs[i]|);
            var more := DenseRun(c, g, x, sf.base + i);
            && x + n <= |g| && x + n <= c.segmentSize
            && DenseRun(c, g, HEADER_SIZE, sf.base) == Run(recs[..i] + more.payloads, more.end)
            && (i + 1 < |recs| ==>
                  ScanAt(c, g, x + n) == Rec(sf.base + i + 1, recs[i + 1], R.FramedSize(|recs[i + 1]|)))
  {
    hide R.Frame, R.FramedSize, R.Frames, DenseRun, ScanAt, FramesAt;
    var x := RecordOffset(c, sf, recs, i);
    var n := R.FramedSize(|recs[i]|);
    FrameWithin(c, sf.data, HEADER_SIZE, sf.base, recs, i);
    DamagedRun(c, sf.data, g, sf.base, recs, i, x, n);
    if i + 1 < |recs| {
      FramesAtHead(c, sf.data, x + n, sf.base + i + 1, recs[i + 1..]);
      var m := R.FramedSize(|recs[i + 1]|);
      assert recs[i + 1..][0] == recs[i + 1];
      SameSlice(sf.data, g, x + n, |g|, x + n, x + n + m);
      ScanFrame(c, g, x + n, sf.base + i + 1, recs[i + 1]);
    }
  }

  /**
    Mid-log damage, of any kind and for any checksum, inside one frame of a writer's segment. Recovery
    fails at that record, TornMidLog in the active segment if a record follows, Corruption in a sealed
    one, if and only if the damage shows; and then no byte is changed. Damage that does not show reads
    as the end of records exactly when it leaves 20 zero bytes, and is then a clean end there.
   */
  lemma DamageIsFatal(c: Env, sf: SegFile, g: Bytes, recs: seq<Bytes>, i: nat, active: bool)
    requires Holds(c, sf, recs) && i < |recs| && DamagedAt(c, sf, g, recs, i)
    requires active ==> i + 1 < |recs|
    ensures var x := RecordOffset(c, sf, recs, i);
            var v := Classify(c, g, sf.base, active);
            var failure := if active then TornMidLog(x) else Corruption(x);
            && x + 20 <= |g|
            && (v == failure <==> Shows(c, sf, g, recs, i))
            && (v == failure ==> Repaired(c, g, v) == g)
            && (ScanAt(c, g, x).CleanEnd? <==> AllZero(g[x..x + 20]))
            && (ScanAt(c, g, x).CleanEnd? ==> v == Clean(sf.base + i - 1, x))
  {
    hide R.Frame, R.FramedSize, R.Frames, DenseRun, FramesAt, DamagedAt, ScanAt, Continues, RecordOffset;
    var x, want := RecordOffset(c, sf, recs, i), sf.base + i;
    var s := ScanAt(c, g, x);
    Around(c, sf, g, recs, i);
    NoSentinel(c, g, x, R.FramedSize(|recs[i]|));
    if s.Rec? && s.lsn == want {
      GoesOn(c, g, x, want);
    } else {
      RunStops(c, g, x, want);
      NilJoin(recs[..i]);
      if active {
        FrameBound(c, recs[i]);
        NextContinues(c, g, x, want, x + R.FramedSize(|recs[i]|));
      }
    }
  }

  lemma NoSentinel(c: Env, g: Bytes, x: nat, n: nat)
    requires 20 <= n && x + n <= |g| && x + n <= c.segmentSize
    ensures ScanAt(c, g, x).CleanEnd? <==> AllZero(g[x..x + 20])
  {
  }

  lemma GoesOn(c: Env, g: Bytes, x: nat, want: nat)
    requires ScanAt(c, g, x).Rec? && ScanAt(c, g, x).lsn == want
    ensures DenseRun(c, g, x, want).end > x
  {
    hide ScanAt, R.FramedSize;
  }

  lemma NextContinues(c: Env, g: Bytes, x: nat, want: nat, y: nat)
    requires x + 8 <= y <= x + R.FramedSize(c.maxRecordSize) && (y - x) % 8 == 0
    requires ScanAt(c, g, y).Rec? && ScanAt(c, g, y).lsn >= want
    ensures Continues(c, g, x, want)
  {
    hide ScanAt, R.FramedSize;
  }

  // ----- Damage to one segment of a log -----

  /** Recovery reaches segment `m` of a directory whose segments before it link up; a refusal there is the outcome. */
  lemma {:induction false} RefusalPasses(c: Env, d: Dir, m: nat, prev: Option<nat>)
    requires m < |d| && Follows(prev, d[0].base) && d[m].base >= 1
    requires forall i :: 0 <= i < m ==> HeaderOk(c, d[i])
    requires forall i :: 0 <= i < m ==> LinkOk(c, d[i], d[i + 1])
    ensures var r := RecoverFrom(c, d[m..], Some(d[m].base - 1));
            r.Refused? ==> RecoverFrom(c, d, prev) == r
    decreases m
  {
    hide SealedOk, Classify, RunOf, Conclude, HeaderOk;
    if m == 0 {
      assert d[0..] == d;
    } else {
      assert LinkOk(c, d[0], d[1]);
      DecodedNonZero(c, d[0]);
      SealedVerdict(c, d[0]);
      var t := d[1..];
      forall i | 0 <= i < m - 1 ensures LinkOk(c, t[i], t[i + 1]) {
        assert LinkOk(c, d[i + 1], d[i + 2]);
      }
      assert t[m - 1..] == d[m..] && t[m - 1] == d[m];
      RefusalPasses(c, t, m - 1, Some(d[1].base - 1));
    }
  }

  /**
    Damage to one record anywhere in a log. If it shows, open refuses at that record: with TornMidLog in
    the active segment (a record follows), with Corruption in a sealed one. If it left 20 zero bytes,
    open refuses a sealed segment for the gap, but takes the active one as ending cleanly there.
   */
  lemma DamageRefused(c: Env, d: Dir, m: nat, g: Bytes, recs: seq<Bytes>, i: nat, seed: nat)
    requires c.Valid() && 1 <= seed <= MAX_LSN && Chain(c, d) && m < |d|
    requires Holds(c, d[m], recs) && i < |recs| && DamagedAt(c, d[m], g, recs, i)
    requires m == |d| - 1 ==> i + 1 < |recs|
    ensures var b := d[m].base;
            var x := RecordOffset(c, d[m], recs, i);
            var e := d[m := SegFile(b, g)];
            var s := ScanAt(c, g, x);
            var r := OpenDir(c, e, seed);
            && (Shows(c, d[m], g, recs, i) ==>
                  r == Refused(if m == |d| - 1 then TornMidLogAt(b, x) else CorruptionAt(b, x)))
            && (s.CleanEnd? && m < |d| - 1 ==> r == Refused(ContiguityViolation))
            && (s.CleanEnd? && m == |d| - 1 ==> r == Opened(e, x, b + i - 1, CleanTail))
  {
    hide ScanAt, RunOf, Conclude, Chain, HeaderOk, Classify, DamagedAt, Holds, Discard, RecoverFrom, RecordOffset;
    var sf := SegFile(d[m].base, g);
    var e := d[m := sf];
    var x := RecordOffset(c, d[m], recs, i);
    DamagedHeaders(c, d, m, g, recs, i);
    DamageIsFatal(c, d[m], g, recs, i, m == |d| - 1);
    DecodedNonZero(c, e[m]);
    RefusalPasses(c, e, m, None);
    DiscardHeader(c, e);
    if Shows(c, d[m], g, recs, i) || m < |d| - 1 {
      DamagedTail(c, d, m, g, recs, i);
    } else if ScanAt(c, g, x).CleanEnd? {
      DamagedClean(c, d, g, recs, i, seed);
    }
  }

  /** The damage leaves every header, and every link in front of the damaged segment. */
  lemma DamagedHeaders(c: Env, d: Dir, m: nat, g: Bytes, recs: seq<Bytes>, i: nat)
    requires Chain(c, d) && m < |d| && Holds(c, d[m], recs) && i < |recs| && DamagedAt(c, d[m], g, recs, i)
    ensures var e := d[m := SegFile(d[m].base, g)];
            && (forall k :: 0 <= k < |e| ==> HeaderOk(c, e[k]))
            && (forall k :: 0 <= k < m ==> LinkOk(c, e[k], e[k + 1]))
            && HEADER_SIZE <= |g| && g[..HEADER_SIZE] == d[m].data[..HEADER_SIZE]
  {
    hide LinkOk, DecodeHeader, R.Frames, R.FramedSize, FramesAt, Holds;
    var x := RecordOffset(c, d[m], recs, i);
    var e := d[m := SegFile(d[m].base, g)];
    assert HeaderOk(c, d[m]);
    SameSlice(d[m].data, g, 0, x, 0, HEADER_SIZE);
    assert d[m].data[0..HEADER_SIZE] == d[m].data[..HEADER_SIZE] && g[0..HEADER_SIZE] == g[..HEADER_SIZE];
    HeadersBefore(c, d, m, g);
  }

  /** The outcome of recovery from the damaged segment on. */
  lemma DamagedTail(c: Env, d: Dir, m: nat, g: Bytes, recs: seq<Bytes>, i: nat)
    requires Chain(c, d) && m < |d| && Holds(c, d[m], recs) && i < |recs| && DamagedAt(c, d[m], g, recs, i)
    requires m == |d| - 1 ==> i + 1 < |recs|
    requires d[m].base >= 1
    ensures var b := d[m].base;
            var x := RecordOffset(c, d[m], recs, i);
            var r := RecoverFrom(c, d[m := SegFile(b, g)][m..], Some(b - 1));
            && (Shows(c, d[m], g, recs, i) ==>
                  r == Refused(if m == |d| - 1 then TornMidLogAt(b, x) else CorruptionAt(b, x)))
            && (ScanAt(c, g, x).CleanEnd? && m < |d| - 1 ==> r == Refused(ContiguityViolation))
  {
    hide ScanAt, RunOf, Chain, DecodeHeader, Classify, DamagedAt, Holds, RecordOffset, Shows, LinkOk;
    var sf := SegFile(d[m].base, g);
    var t := d[m := sf][m..];
    DamagedHeaders(c, d, m, g, recs, i);
    DamageIsFatal(c, d[m], g, recs, i, m == |d| - 1);
    assert t[0] == sf && d[m := sf][m] == sf;
    if m < |d| - 1 {
      var next := d[m := sf][m + 1];
      assert t[1..][0] == next == d[m + 1];
      AfterHeld(c, d, m, recs);
    } else {
      assert t == [sf];
    }
  }

  lemma AfterHeld(c: Env, d: Dir, m: nat, recs: seq<Bytes>)
    requires Chain(c, d) && m < |d| - 1 && Holds(c, d[m], recs)
    ensures HeaderOk(c, d[m + 1]) && d[m + 1].base >= d[m].base + |recs|
  {
    hide DenseRun, HeaderOk, SealedOk, FramesAt, R.Frames;
    assert LinkOk(c, d[m], d[m + 1]);
    RunOfFrames(c, d[m].data, HEADER_SIZE, d[m].base, recs);
  }

  lemma DamagedClean(c: Env, d: Dir, g: Bytes, recs: seq<Bytes>, i: nat, seed: nat)
    requires c.Valid() && 1 <= seed <= MAX_LSN && Chain(c, d)
    requires Holds(c, Active(d), recs) && i + 1 < |recs| && DamagedAt(c, Active(d), g, recs, i)
    requires ScanAt(c, g, RecordOffset(c, Active(d), recs, i)).CleanEnd?
    ensures var e := d[|d| - 1 := SegFile(Active(d).base, g)];
            OpenDir(c, e, seed)
            == Opened(e, RecordOffset(c, Active(d), recs, i), Active(d).base + i - 1, CleanTail)
  {
    hide ScanAt, RunOf, Chain, HeaderOk, Classify, DamagedAt, Holds, RecordOffset, OpenDir;
    ChainNonEmpty(c, d);
    var e := d[|d| - 1 := SegFile(Active(d).base, g)];
    assert e == Replace(d, g);
    DamagedHeaders(c, d, |d| - 1, g, recs, i);
    ChainReplace(c, d, g);
    ChainOpens(c, e, seed);
    DamageIsFatal(c, Active(d), g, recs, i, true);
  }

  /**
    The one gap, for every writer's segment: zeroing the 20 header bytes of an interior record of the
    active segment makes open report a clean log that ends before it, although the next record is intact.
   */
  lemma ZeroedHeaderIsSilent(c: Env, d: Dir, recs: seq<Bytes>, i: nat, seed: nat)
    requires c.Valid() && 1 <= seed <= MAX_LSN && Chain(c, d)
    requires Holds(c, Active(d), recs) && i + 1 < |recs|
    ensures var x := RecordOffset(c, Active(d), recs, i);
            && x + 20 <= |Active(d).data|
            && var g := Overwrite(Active(d).data, x, Zeros(20));
            && ScanAt(c, g, x + R.FramedSize(|recs[i]|)).Rec?
            && OpenDir(c, Replace(d, g), seed) == Opened(Replace(d, g), x, Active(d).base + i - 1, CleanTail)
  {
    hide ScanAt, R.FramedSize, R.Frames, FramesAt, OpenDir, Chain, DenseRun;
    ChainNonEmpty(c, d);
    var sf := Active(d);
    var x := RecordOffset(c, sf, recs, i);
    FrameWithin(c, sf.data, HEADER_SIZE, sf.base, recs, i);
    var g := Overwrite(sf.data, x, Zeros(20));
    Around(c, sf, g, recs, i);
    assert g[x..x + 20] == Zeros(20);
    NoSentinel(c, g, x, R.FramedSize(|recs[i]|));
    DamagedClean(c, d, g, recs, i, seed);
    assert d[|d| - 1 := SegFile(sf.base, g)] == Replace(d, g);
  }

  /**
    One damaged byte, with CRC-32C, in any record of a sealed segment or any record but the last of the
    active one, outside its length field: open refuses at that record.
   */
  lemma OneByteRefused(c: Env, d: Dir, m: nat, recs: seq<Bytes>, i: nat, k: nat, b: byte, seed: nat)
    requires RealCrc(c) && c.Valid() && 1 <= seed <= MAX_LSN && Chain(c, d) && m < |d|
    requires Holds(c, d[m], recs) && i < |recs| && (m == |d| - 1 ==> i + 1 < |recs|)
    requires k < R.FramedSize(|recs[i]|) && !(4 <= k < 8)
    requires b != R.Frame(c.crc, d[m].base + i, recs[i])[k]
    ensures var x := RecordOffset(c, d[m], recs, i);
            && x + k < |d[m].data|
            && OpenDir(c, d[m := SegFile(d[m].base, d[m].data[x + k := b])], seed)
               == Refused(if m == |d| - 1 then TornMidLogAt(d[m].base, x) else CorruptionAt(d[m].base, x))
  {
    hide R.Frame, R.FramedSize, R.Frames, DenseRun, ScanAt, Classify, R.Decode;
    hide RealCrc, FramesAt, Chain, OpenDir, DamagedAt;
    OneByteShows(c, d[m], recs, i, k, b);
    DamageRefused(c, d, m, d[m].data[RecordOffset(c, d[m], recs, i) + k := b], recs, i, seed);
  }

  lemma OneByteShows(c: Env, sf: SegFile, recs: seq<Bytes>, i: nat, k: nat, b: byte)
    requires RealCrc(c) && Holds(c, sf, recs) && i < |recs|
    requires k < R.FramedSize(|recs[i]|) && !(4 <= k < 8)
    requires b != R.Frame(c.crc, sf.base + i, recs[i])[k]
    ensures var x := RecordOffset(c, sf, recs, i);
            && x + k < |sf.data|
            && var g := sf.data[x + k := b];
            && DamagedAt(c, sf, g, recs, i)
            && ScanAt(c, g, x) == Invalid && Shows(c, sf, g, recs, i)
  {
    hide R.Frame, R.FramedSize, R.Frames, ScanAt, R.Decode, RealCrc, FramesAt;
    var x, n := RecordOffset(c, sf, recs, i), R.FramedSize(|recs[i]|);
    FrameWithin(c, sf.data, HEADER_SIZE, sf.base, recs, i);
    var g := sf.data[x + k := b];
    assert g[x..x + n] == R.Frame(c.crc, sf.base + i, recs[i])[k := b];
    OneByteIsCaught(c, sf.base + i, recs[i], k, b);
    BadCrcScans(c, g, x, n);
  }

  lemma DamagedRun(c: Env, f: Bytes, g: Bytes, base: u64, recs: seq<Bytes>, i: nat, x: nat, n: nat)
    requires i < |recs| && x == HEADER_SIZE + OffsetOf(c, base, recs, i)
    requires FramesAt(c, f, HEADER_SIZE, base, recs[..i]) && |g| == |f| && SameOn(f, g, 0, x)
    requires Sized(c, recs) && base + |recs| <= MAX_LSN + 1
    ensures var more := DenseRun(c, g, x, base + i);
            DenseRun(c, g, HEADER_SIZE, base) == Run(recs[..i] + more.payloads, more.end)
  {
    hide DenseRun, R.Frames;
    SameSlice(f, g, 0, x, HEADER_SIZE, x);
    RunOfFrames(c, g, HEADER_SIZE, base, recs[..i]);
  }

  // ----- Damage to a header -----

  /** A highest file with a bad header that open takes for a segment, not for an unfinished creation. */
  predicate Populated(c: Env, g: Bytes) {
    0 < |g| < HEADER_SIZE || (HEADER_SIZE <= |g| && ScanAt(c, g, HEADER_SIZE).Rec?)
  }

  /**
    Any damage that spoils a segment's header, whatever it does to the rest of the file. Open refuses,
    except that the highest file is silently unlinked, with every record in it, if and only if it is
    empty or nothing reads as its first record; what is left is then reported as a clean log.
   */
  lemma HeaderDamage(c: Env, d: Dir, m: nat, g: Bytes, seed: nat)
    requires c.Valid() && 1 <= seed <= MAX_LSN && Chain(c, d) && m < |d| && !HeaderOk(c, SegFile(d[m].base, g))
    ensures d[m].base >= 1
    ensures OpenDir(c, d[m := SegFile(d[m].base, g)], seed) ==
            if m < |d| - 1 || Populated(c, g) then Refused(BadSegmentHeader)
            else if m == 0 then Opened([Fresh(c, seed)], HEADER_SIZE, seed - 1, CleanTail)
            else Opened(d[..m], RunOf(c, d[m - 1]).end, d[m].base - 1, CleanTail)
  {
    hide ScanAt, RunOf, Conclude, Classify, RecoverFrom, LinkOk, Fresh, DecodeHeader;
    assert HeaderOk(c, d[m]);
    DecodedNonZero(c, d[m]);
    var e := d[m := SegFile(d[m].base, g)];
    if m < |d| - 1 {
      assert HeaderOk(c, d[|d| - 1]);
      DiscardHeader(c, e);
      HeadersBefore(c, d, m, g);
      RefusalPasses(c, e, m, None);
      BadHeaderStops(c, e[m..], Some(e[m].base - 1));
    } else if !Populated(c, g) {
      assert e[..m] == d[..m];
      if m > 0 {
        PrefixOpens(c, d, m);
      }
    }
  }

  lemma HeadersBefore(c: Env, d: Dir, m: nat, g: Bytes)
    requires Chain(c, d) && m < |d|
    ensures var e := d[m := SegFile(d[m].base, g)];
            && (forall k :: 0 <= k < m ==> HeaderOk(c, e[k]))
            && (forall k :: 0 <= k < m ==> LinkOk(c, e[k], e[k + 1]))
  {
    hide LinkOk, HeaderOk;
    var e := d[m := SegFile(d[m].base, g)];
    forall k | 0 <= k < m ensures LinkOk(c, e[k], e[k + 1]) {
      assert LinkOk(c, d[k], d[k + 1]);
      LinkByBase(c, d[k], d[k + 1], e[k + 1]);
    }
  }

  lemma BadHeaderStops(c: Env, d: Dir, prev: Option<nat>)
    requires d != [] && !HeaderOk(c, d[0])
    ensures RecoverFrom(c, d, prev) == Refused(BadSegmentHeader)
  {
    hide HeaderOk;
  }

  /** The sealed segments of a chain, on their own, recover as a clean log. */
  lemma PrefixOpens(c: Env, d: Dir, m: nat)
    requires Chain(c, d) && 0 < m < |d| && d[m].base >= 1
    ensures RecoverFrom(c, d[..m], None) == Opened(d[..m], RunOf(c, d[m - 1]).end, d[m].base - 1, CleanTail)
  {
    hide ScanAt, DenseRun, HeaderOk, RecoverFrom;
    var t := d[..m];
    forall i | 0 <= i < |t| - 1 ensures LinkOk(c, t[i], t[i + 1]) {
      assert LinkOk(c, d[i], d[i + 1]);
    }
    assert LinkOk(c, d[m - 1], d[m]);
    ChainRecovers(c, t, None);
    DecodedNonZero(c, d[m - 1]);
  }

  // ----- A segment missing from the middle -----

  /** Segments that do not continue the ones before them: open refuses the gap, or the overlap. */
  lemma GapRefused(c: Env, a: Dir, b: Dir, seed: nat)
    requires c.Valid() && 1 <= seed <= MAX_LSN && Chain(c, a) && Chain(c, b) && SealedOk(c, Active(a))
    requires b[0].base != NextLsn(c, Active(a))
    ensures OpenDir(c, a + b, seed) == Refused(ContiguityViolation)
  {
    hide Chain, HeaderOk, RecoverFrom, Discard, RunOf, SealedOk;
    ChainNonEmpty(c, a);
    ChainNonEmpty(c, b);
    var d, m := a + b, |a| - 1;
    ActiveHeader(c, b);
    assert Active(d) == Active(b);
    DiscardHeader(c, d);
    ChainLinks(c, a, b);
    DecodedNonZero(c, d[m]);
    RefusalPasses(c, d, m, None);
    assert d[m..][0] == Active(a) && d[m..][1..][0] == b[0];
    GapStops(c, d[m..]);
  }

  lemma ChainLinks(c: Env, a: Dir, b: Dir)
    requires Chain(c, a) && Chain(c, b)
    ensures var d := a + b;
            && (forall i :: 0 <= i < |a| ==> HeaderOk(c, d[i]))
            && (forall i :: 0 <= i < |a| - 1 ==> LinkOk(c, d[i], d[i + 1]))
            && HeaderOk(c, b[0]) && d[|a| - 1] == Active(a)
  {
    hide HeaderOk, LinkOk;
    var d := a + b;
    forall i | 0 <= i < |a| - 1 ensures LinkOk(c, d[i], d[i + 1]) {
      assert LinkOk(c, a[i], a[i + 1]);
    }
  }

  lemma GapStops(c: Env, d: Dir)
    requires |d| > 1 && HeaderOk(c, d[0]) && HeaderOk(c, d[1]) && SealedOk(c, d[0]) && d[1].base != NextLsn(c, d[0])
    requires d[0].base >= 1
    ensures RecoverFrom(c, d, Some(d[0].base - 1)) == Refused(ContiguityViolation)
  {
    hide HeaderOk, Classify, RunOf, SealedOk, Conclude;
    SealedVerdict(c, d[0]);
    assert d[1..][0] == d[1];
  }

  // ----- One damaged byte in a header -----

  /** With CRC-32C, changing any one byte of an encoded header makes it no header at all. */
  lemma OneHeaderByte(c: Env, base: u64, i: nat, x: byte)
    requires RealCrc(c) && i < 64 && x != Header(c, base)[i]
    ensures DecodeHeader(c, Header(c, base)[i := x]) == None
  {
    hide Header, RealCrc, DecodeHeader, Le, Crc.Crc32c;
    var h := Header(c, base);
    var g := h[i := x];
    HeaderFields(c, base);
    assert g[60..64] != Le(c.crc(g[..60]), 4) by {
      if i < 60 {
        assert g[..60] == h[..60][i := x] && g[60..64] == h[60..64];
        Sums(c);
        Crc.OneByteChangesCrc(h[..60], i, x);
        LeRoundTrip4(c.crc(h[..60]));
        LeRoundTrip4(c.crc(g[..60]));
      } else {
        assert g[..60] == h[..60];
        assert g[60..64][i - 60] == x && h[60..64][i - 60] == h[i];
      }
    }
    if DecodeHeader(c, g).Some? {
      HeaderExactly(c, g, DecodeHeader(c, g).value);
    }
  }

  lemma Sums(c: Env)
    requires RealCrc(c)
    ensures forall b: Bytes :: c.crc(b) == Crc.Crc32c(b)
  {
  }

  /**
    One damaged byte in the header of any segment of a log: open refuses, unless it is the highest file
    and holds no record; that one is discarded, which loses nothing.
   */
  lemma OneHeaderByteRefused(c: Env, d: Dir, m: nat, i: nat, x: byte, seed: nat)
    requires RealCrc(c) && c.Valid() && 1 <= seed <= MAX_LSN && Chain(c, d) && m < |d| && i < 64 <= |d[m].data|
    requires d[m].data[..64] == Header(c, d[m].base) && x != d[m].data[i]
    ensures d[m].base >= 1
    ensures OpenDir(c, d[m := SegFile(d[m].base, d[m].data[i := x])], seed) ==
            if m < |d| - 1 || ScanAt(c, d[m].data, HEADER_SIZE).Rec? then Refused(BadSegmentHeader)
            else if m == 0 then Opened([Fresh(c, seed)], HEADER_SIZE, seed - 1, CleanTail)
            else Opened(d[..m], RunOf(c, d[m - 1]).end, d[m].base - 1, CleanTail)
  {
    hide RealCrc, Header, DecodeHeader, OpenDir, Chain, RunOf, Fresh, ScanAt;
    var f := d[m].data;
    var g := f[i := x];
    assert g[..64] == f[..64][i := x] && f[..64][i] == f[i];
    OneHeaderByte(c, d[m].base, i, x);
    ScanSuffix(c, f, g, HEADER_SIZE);
    HeaderDamage(c, d, m, g, seed);
  }
}
