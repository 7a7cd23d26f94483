/** What a crash leaves on the device, and what the next open makes of it. */
module Crash {
  import opened ByteString
  import opened Config
  import opened Segment
  import opened Recovery
  import opened Directory
  import opened Open
  import opened Writer
  import opened Invariant
  import R = Record

  function Min(a: nat, b: nat): (m: nat)
    ensures m == a || m == b
    ensures m <= a && m <= b
  {
    if a < b then a else b
  }

  /**
    The device after a crash. `cut` says how much of the operation in flight got through:
    bytes of the write, in order; the stage of the creation (nothing, an empty file, then the
    pre-allocated file with some prefix of its header); or unlinks, oldest first.
   */
  function Settle(c: Env, s: Sys, cut: nat): (d: Dir)
    requires c.Valid() && s.dir != []
    requires s.inflight.Writing? ==> s.inflight.off <= |Active(s.dir).data|
    requires s.inflight.Unlinking? ==> s.inflight.n < |s.dir|
    ensures d != []
  {
    match s.inflight
    case Nothing => s.dir
    case Writing(off, data) =>
      Replace(s.dir, Overwrite(Active(s.dir).data, off, data[..Min(cut, |data|)]))
    case Creating(base) =>
      if cut == 0 then s.dir
      else if cut == 1 then s.dir + [SegFile(base, [])]
      else s.dir + [HalfCreated(c, base, Min(cut - 2, HEADER_SIZE))]
    case Unlinking(n) => s.dir[Min(cut, n)..]
  }

  /** A crash may let any number of bytes, any stage of a creation, any number of unlinks through. */
  lemma SettleReaches(c: Env, s: Sys, n: nat)
    requires c.Valid() && s.dir != []
    requires s.inflight.Writing? ==> s.inflight.off <= |Active(s.dir).data|
    requires s.inflight.Unlinking? ==> s.inflight.n < |s.dir|
    ensures match s.inflight
            case Nothing => Settle(c, s, n) == s.dir
            case Writing(off, data) =>
              n <= |data| ==> Settle(c, s, n) == Replace(s.dir, Overwrite(Active(s.dir).data, off, data[..n]))
            case Creating(base) =>
              && Settle(c, s, 0) == s.dir && Settle(c, s, 1) == s.dir + [SegFile(base, [])]
              && (n <= 64 ==>
                    Settle(c, s, n + 2) == s.dir + [SegFile(base, Header(c, base)[..n] + Zeros(c.segmentSize - n))])
            case Unlinking(k) => n <= k ==> Settle(c, s, n) == s.dir[n..]
  {
  }

  function HalfCreated(c: Env, base: u64, n: nat): (sf: SegFile)
    requires c.Valid() && n <= HEADER_SIZE
    ensures sf.base == base && |sf.data| == c.segmentSize
  {
    SegFile(base, Header(c, base)[..n] + Zeros(c.segmentSize - n))
  }

  /** The handle a successful open returns. */
  function Handle(r: Opening): (s: Sys)
    requires r.Opened?
  {
    Sys(r.dir, Nothing, r.writeOffset, r.last, r.last, [], false, [])
  }

  // ----- The torn write -----

  /** How many whole staged records a write cut after `n` bytes contains. */
  function WholeRecords(c: Env, s: Sys, n: nat): (j: nat)
    requires Ready(c, s)
    ensures j <= |s.batch|
  {
    Fit(n, s.batch[..Fit(Room(c, s), s.batch)])
  }

  /** Where the first record that is not whole begins. */
  function TearOffset(c: Env, s: Sys, n: nat): (x: nat)
    requires Ready(c, s)
  {
    s.writeOffset + |Chunk(c, s, WholeRecords(c, s, n))|
  }

  /**
    The checksum does its work on this tear: unless the torn bytes are the whole frame after all,
    they do not read as the record the log wants there.
   */
  predicate TearVisible(c: Env, s: Sys, cut: nat) {
    Ready(c, s) && s.inflight.Writing? && s.inflight.off == s.writeOffset ==>
      var g := Active(Settle(c, s, cut)).data;
      var n := Min(cut, |s.inflight.data|);
      var j := WholeRecords(c, s, n);
      j < |s.batch| ==> Visible(c, g, TearOffset(c, s, n), s.durable + 1 + j, s.batch[j])
  }

  predicate Visible(c: Env, g: Bytes, x: nat, want: nat, payload: Bytes) {
    var s := ScanAt(c, g, x);
    s.Rec? && s.lsn == want ==> WholeFrame(c, g, x, want, payload)
  }

  predicate WholeFrame(c: Env, g: Bytes, x: nat, lsn: nat, payload: Bytes) {
    var n := R.FramedSize(|payload|);
    x + n <= |g| && g[x..x + n] == R.Frame(c.crc, lsn, payload)
  }

  /**
    How many staged records a crash let through: the whole ones, and the torn one too if the bytes that
    did not make it were zeros anyway.
   */
  function Kept(c: Env, s: Sys, cut: nat): (k: nat)
    requires Ready(c, s) && s.inflight.Writing? && s.inflight.off <= |Active(s.dir).data|
    ensures k <= |s.batch|
  {
    var n := Min(cut, |s.inflight.data|);
    var j := WholeRecords(c, s, n);
    var g := Active(Settle(c, s, cut)).data;
    if j < Fit(Room(c, s), s.batch) && WholeFrame(c, g, TearOffset(c, s, n), s.durable + 1 + j, s.batch[j]) then j + 1
    else j
  }

  /** A cut run of frames is its whole frames followed by a proper piece of the next one. */
  lemma {:induction false} CutFrames(crc: Bytes -> u32, lsn: nat, recs: seq<Bytes>, n: nat)
    requires n <= |R.Frames(crc, lsn, recs)|
    ensures var j := Fit(n, recs);
            var whole := R.Frames(crc, lsn, recs[..j]);
            && |whole| <= n
            && (j == |recs| ==> n == |whole|)
            && (j < |recs| ==>
                  && n - |whole| < R.FramedSize(|recs[j]|)
                  && R.Frames(crc, lsn, recs)[..n] == whole + R.Frame(crc, lsn + j, recs[j])[..n - |whole|])
            && (j == |recs| ==> R.Frames(crc, lsn, recs)[..n] == whole)
    decreases recs
  {
    hide R.FramedSize, R.Frame, R.Frames, Fit;
    var j := Fit(n, recs);
    R.FramesNil(crc, lsn);
    if recs != [] {
      var head, tail := R.Frame(crc, lsn, recs[0]), R.Frames(crc, lsn + 1, recs[1..]);
      R.FramesCons(crc, lsn, recs);
      FitStep(n, recs);
      if j == 0 {
        assert recs[..0] == [];
        TakeWithin(head, tail, n);
        NilJoin(head[..n]);
      } else {
        CutFrames(crc, lsn + 1, recs[1..], n - |head|);
        var rest := R.Frames(crc, lsn + 1, recs[1..][..j - 1]);
        assert recs[..j][1..] == recs[1..][..j - 1] && recs[..j][0] == recs[0];
        R.FramesCons(crc, lsn, recs[..j]);
        TakeAcross(head, tail, n);
        if j < |recs| {
          JoinAssoc(head, rest, R.Frame(crc, lsn + j, recs[j])[..n - |head| - |rest|]);
        }
      }
    }
  }

  lemma TakeWithin(a: Bytes, b: Bytes, n: nat)
    requires n <= |a|
    ensures (a + b)[..n] == a[..n]
  {
  }

  lemma TakeAcross(a: Bytes, b: Bytes, n: nat)
    requires |a| <= n <= |a| + |b|
    ensures (a + b)[..n] == a + b[..n - |a|]
  {
  }

  /** The bytes a cut write leaves: whole frames, then a piece of one, then zeros. */
  lemma TornBytes(c: Env, f: Bytes, off: nat, lsn: nat, recs: seq<Bytes>, n: nat)
    requires HEADER_SIZE <= off && c.segmentSize <= |f| && ZeroOn(f, off, c.segmentSize)
    requires off + |R.Frames(c.crc, lsn, recs)| <= c.segmentSize && n <= |R.Frames(c.crc, lsn, recs)|
    ensures var g := Overwrite(f, off, R.Frames(c.crc, lsn, recs)[..n]);
            var j := Fit(n, recs);
            var x := off + |R.Frames(c.crc, lsn, recs[..j])|;
            && |g| == |f| && SameOn(f, g, HEADER_SIZE, off) && g[..HEADER_SIZE] == f[..HEADER_SIZE]
            && FramesAt(c, g, off, lsn, recs[..j])
            && x <= off + n && ZeroOn(g, off + n, c.segmentSize)
            && (j == |recs| ==> x == off + n)
            && (j < |recs| ==> Piece(c, g, x, off + n, lsn + j, recs[j]))
  {
    hide R.Frames, Overwrite, Fit, R.Frame, R.FramedSize;
    var data := R.Frames(c.crc, lsn, recs)[..n];
    var g := Overwrite(f, off, data);
    var j := Fit(n, recs);
    var whole := R.Frames(c.crc, lsn, recs[..j]);
    WriteInZeros(c, f, off, data);
    CutFrames(c.crc, lsn, recs, n);
    if j < |recs| {
      var piece := R.Frame(c.crc, lsn + j, recs[j])[..n - |whole|];
      SplitSlice(g, off, whole, piece);
      PieceFits(c.crc, lsn, recs, j);
    }
  }

  /** A proper piece of a frame, `[x, y)`, with zeros after it, inside the segment. */
  predicate Piece(c: Env, g: Bytes, x: nat, y: nat, lsn: nat, payload: Bytes) {
    var f := R.Frame(c.crc, lsn, payload);
    && x <= y < x + |f| <= c.segmentSize <= |g|
    && g[x..y] == f[..y - x]
    && ZeroOn(g, y, c.segmentSize)
  }

  lemma PieceFits(crc: Bytes -> u32, lsn: nat, recs: seq<Bytes>, j: nat)
    requires j < |recs|
    ensures |R.Frames(crc, lsn, recs[..j])| + R.FramedSize(|recs[j]|) <= |R.Frames(crc, lsn, recs)|
  {
    hide R.FramedSize, R.Frame;
    assert recs == recs[..j] + recs[j..];
    R.FramesJoin(crc, lsn, recs[..j], recs[j..]);
  }

  /** What the scan makes of a torn record. */
  lemma TornRecord(c: Env, g: Bytes, x: nat, y: nat, lsn: u64, payload: Bytes)
    requires Piece(c, g, x, y, lsn, payload) && |payload| <= c.maxRecordSize
    requires Visible(c, g, x, lsn, payload)
    ensures WholeFrame(c, g, x, lsn, payload) ==>
              && DenseRun(c, g, x, lsn) == Run([payload], x + R.FramedSize(|payload|))
              && ZeroOn(g, x + R.FramedSize(|payload|), c.segmentSize)
    ensures !WholeFrame(c, g, x, lsn, payload) ==>
              && DenseRun(c, g, x, lsn) == Run([], x)
              && (ScanAt(c, g, x).CleanEnd? ==> ZeroOn(g, x, c.segmentSize))
  {
    hide ScanAt, DenseRun, R.Frame, R.FramedSize;
    if WholeFrame(c, g, x, lsn, payload) {
      var end := x + R.FramedSize(|payload|);
      RunStep(c, g, x, lsn, payload);
      RunInZeros(c, g, end, lsn + 1, end);
      NilJoin([payload]);
    } else {
      RunStops(c, g, x, lsn);
      TornHeader(c, g, x, y, lsn, payload);
    }
  }

  /** A torn frame reads as the end of records only if everything from it on is zero. */
  lemma TornHeader(c: Env, g: Bytes, x: nat, y: nat, lsn: u64, payload: Bytes)
    requires Piece(c, g, x, y, lsn, payload) && |payload| <= c.maxRecordSize
    ensures ScanAt(c, g, x).CleanEnd? ==> ZeroOn(g, x, c.segmentSize)
  {
    hide R.Frame;
    var f := R.Frame(c.crc, lsn, payload);
    R.FrameFields(c.crc, lsn, payload);
    assert f[16] == f[16..20][0] == 1;
    if y > x + 16 {
      assert g[x..x + 20][16] == g[x..y][16] == f[16];
    } else if ScanAt(c, g, x).CleanEnd? {
      assert forall i :: x <= i < x + 20 ==> g[i] == g[x..x + 20][i - x];
    }
  }

  /** The run of a segment whose last write was cut: the whole records, then the torn one's verdict. */
  lemma TornRun(c: Env, sf: SegFile, recs: seq<Bytes>, n: nat)
    requires ZeroTail(c, sf) && Sized(c, recs) && NextLsn(c, sf) + |recs| <= MAX_LSN + 1
    requires RunOf(c, sf).end + |R.Frames(c.crc, NextLsn(c, sf), recs)| <= c.segmentSize
    requires n <= |R.Frames(c.crc, NextLsn(c, sf), recs)|
    ensures var off := RunOf(c, sf).end;
            var g := Overwrite(sf.data, off, R.Frames(c.crc, NextLsn(c, sf), recs)[..n]);
            var j := Fit(n, recs);
            var x := off + |R.Frames(c.crc, NextLsn(c, sf), recs[..j])|;
            var more := DenseRun(c, g, x, NextLsn(c, sf) + j);
            && |g| == |sf.data| && g[..HEADER_SIZE] == sf.data[..HEADER_SIZE]
            && DenseRun(c, g, HEADER_SIZE, sf.base) == Run(RunOf(c, sf).payloads + recs[..j] + more.payloads, more.end)
            && x <= off + n && ZeroOn(g, off + n, c.segmentSize)
            && (j == |recs| ==> x == off + n)
            && (j < |recs| ==> Piece(c, g, x, off + n, NextLsn(c, sf) + j, recs[j]))
  {
    hide R.Frames, Overwrite, Fit, DenseRun, Piece, SameOn, ZeroOn, FramesAt;
    var off, next := RunOf(c, sf).end, NextLsn(c, sf);
    var g := Overwrite(sf.data, off, R.Frames(c.crc, next, recs)[..n]);
    var j := Fit(n, recs);
    TornBytes(c, sf.data, off, next, recs, n);
    RunExtends(c, sf.data, g, HEADER_SIZE, sf.base);
    RunOfFrames(c, g, off, next, recs[..j]);
    var more := DenseRun(c, g, off + |R.Frames(c.crc, next, recs[..j])|, next + j);
    JoinAssoc(RunOf(c, sf).payloads, recs[..j], more.payloads);
  }

  // ----- Reopening after a crash -----

  /** Sealed files persist unchanged, except that a prefix of whole segments may be gone. */
  ghost predicate Descends(d: Dir, d': Dir) {
    exists k: nat :: k < |d| && Grown(d[k..], d')
  }

  /**
    The log that comes back: the durable records, possibly some of the staged ones in order, minus
    at most the segments a checkpoint was unlinking.
   */
  ghost predicate Survives(c: Env, s: Sys, t: Sys) {
    && s.dir != [] && t.dir != []
    && Inv(c, t) && !t.poisoned && t.inflight == Nothing && t.batch == []
    && s.durable <= t.durable <= s.durable + |s.batch|
    && Descends(s.dir, t.dir)
    && 0 <= t.dir[0].base - s.dir[0].base <= |Log(c, s.dir)|
    && Log(c, t.dir) == (Log(c, s.dir) + s.batch[..t.durable - s.durable])[t.dir[0].base - s.dir[0].base..]
    && (s.inflight.Unlinking? && s.inflight.n < |s.dir| ==> t.dir[0].base <= s.dir[s.inflight.n].base)
    && (!s.inflight.Unlinking? ==> t.dir[0].base == s.dir[0].base)
  }

  /** A tight log reopens as it stands. */
  lemma ReopenTight(c: Env, d: Dir, seed: nat)
    requires c.Valid() && Tight(c, d) && 1 <= seed <= MAX_LSN
    ensures OpenDir(c, d, seed) == Opened(d, RunOf(c, Active(d)).end, NextLsn(c, Active(d)) - 1, CleanTail)
    ensures Inv(c, Handle(OpenDir(c, d, seed)))
  {
    hide OpenDir, Chain, ZeroTail, DenseRun, Conclude;
    ChainBase(c, d);
    ChainOpens(c, d, seed);
    TightIsClean(c, d);
    NextFits(c, Active(d));
  }

  lemma ChainBase(c: Env, d: Dir)
    requires Chain(c, d)
    ensures d != [] && HeaderOk(c, Active(d)) && Active(d).base >= 1
  {
    hide DecodeHeader, LinkOk;
    assert HeaderOk(c, Active(d));
  }

  lemma SelfDescends(d: Dir)
    requires d != []
    ensures Descends(d, d)
  {
    assert d[0..] == d;
    assert Grown(d[0..], d);
  }

  /** Opening a directory that is the old one, whole. */
  lemma ReopenSame(c: Env, s: Sys, seed: nat)
    requires Inv(c, s) && 1 <= seed <= MAX_LSN
    ensures OpenDir(c, s.dir, seed).Opened? && Survives(c, s, Handle(OpenDir(c, s.dir, seed)))
  {
    hide OpenDir, Tight, RunOf, Log;
    InvDir(c, s);
    ReopenTight(c, s.dir, seed);
    SelfDescends(s.dir);
    NilJoin(Log(c, s.dir));
    assert Log(c, s.dir)[0..] == Log(c, s.dir);
    LaterBase(c, s);
  }

  lemma LaterBase(c: Env, s: Sys)
    requires Inv(c, s)
    ensures s.inflight.Unlinking? && s.inflight.n < |s.dir| ==> s.dir[0].base <= s.dir[s.inflight.n].base
  {
    hide Chain, RunOf;
    InvDir(c, s);
    if s.inflight.Unlinking? && 0 < s.inflight.n < |s.dir| {
      ChainAscending(c, s.dir, 0, s.inflight.n);
    }
  }

  /** An interrupted checkpoint: any number of the oldest deletable segments is gone. */
  lemma ReopenUnlinked(c: Env, s: Sys, k: nat, seed: nat)
    requires Inv(c, s) && s.inflight.Unlinking? && k <= s.inflight.n < |s.dir| && 1 <= seed <= MAX_LSN
    ensures OpenDir(c, s.dir[k..], seed).Opened? && Survives(c, s, Handle(OpenDir(c, s.dir[k..], seed)))
  {
    hide OpenDir, Chain, RunOf, Log, Pending, ZeroTail;
    var d := s.dir[k..];
    InvChain(c, s);
    ChainTail(c, s.dir, k);
    LogDrop(c, s.dir, k);
    ReopenTight(c, d, seed);
    assert Grown(d, d);
    NilJoin(Log(c, s.dir));
    if k < s.inflight.n {
      ChainAscending(c, s.dir, k, s.inflight.n);
    }
  }

  /** A half-created file is either a valid empty segment or one that open discards. */
  lemma HalfCreatedShape(c: Env, base: u64, n: nat)
    requires c.Valid() && n <= HEADER_SIZE
    ensures var sf := HalfCreated(c, base, n);
            && ZeroTail(c, sf) && RunOf(c, sf) == Run([], HEADER_SIZE)
            && !ScanAt(c, sf.data, HEADER_SIZE).Rec?
  {
    hide DenseRun, Header, ScanAt;
    var sf := HalfCreated(c, base, n);
    assert ZeroOn(sf.data, HEADER_SIZE, c.segmentSize);
    RunInZeros(c, sf.data, HEADER_SIZE, base, HEADER_SIZE);
    ScanZeros(c, sf.data, HEADER_SIZE, HEADER_SIZE);
  }

  lemma OpenAfterDiscard(c: Env, d: Dir, sf: SegFile, seed: nat)
    requires c.Valid() && Chain(c, d) && 1 <= seed <= MAX_LSN
    requires sf.data == [] || (HEADER_SIZE <= |sf.data| && !HeaderOk(c, sf) && !ScanAt(c, sf.data, HEADER_SIZE).Rec?)
    ensures OpenDir(c, d + [sf], seed) == OpenDir(c, d, seed)
  {
    hide RecoverFrom, Chain, ScanAt, DecodeHeader;
    ChainNonEmpty(c, d);
    DiscardKeepsChain(c, d);
    assert (d + [sf])[..|d|] == d;
  }

  /** Half-finished creation is harmless: both outcomes bring back exactly the durable records. */
  lemma ReopenCreating(c: Env, s: Sys, cut: nat, seed: nat)
    requires Inv(c, s) && s.inflight.Creating? && s.dir != [] && 1 <= seed <= MAX_LSN
    ensures var r := OpenDir(c, Settle(c, s, cut), seed);
            && r.Opened? && Survives(c, s, Handle(r))
            && Handle(r).durable == s.durable && Log(c, r.dir) == Log(c, s.dir)
  {
    hide OpenDir, Tight, RunOf, Log, HalfCreated, ScanAt, HeaderOk;
    InvChain(c, s);
    ReopenSame(c, s, seed);
    ReopenTight(c, s.dir, seed);
    if cut == 1 {
      OpenAfterDiscard(c, s.dir, SegFile(s.inflight.base, []), seed);
    } else if cut > 1 {
      var n := Min(cut - 2, HEADER_SIZE);
      var sf := HalfCreated(c, s.inflight.base, n);
      HalfCreatedShape(c, s.inflight.base, n);
      if HeaderOk(c, sf) {
        AdoptCreated(c, s, sf, seed);
      } else {
        OpenAfterDiscard(c, s.dir, sf, seed);
      }
    }
  }

  lemma AdoptCreated(c: Env, s: Sys, sf: SegFile, seed: nat)
    requires Inv(c, s) && s.inflight == Creating(sf.base) && 1 <= seed <= MAX_LSN
    requires HeaderOk(c, sf) && ZeroTail(c, sf) && RunOf(c, sf) == Run([], HEADER_SIZE)
    ensures var r := OpenDir(c, s.dir + [sf], seed);
            && r.Opened? && Survives(c, s, Handle(r))
            && Handle(r).durable == s.durable && Log(c, r.dir) == Log(c, s.dir)
  {
    hide OpenDir, RunOf, Log, HeaderOk, Chain, ZeroTail;
    InvDir(c, s);
    var d := s.dir + [sf];
    ChainGrow(c, s.dir, sf);
    NilJoin(Log(c, s.dir));
    ReopenTight(c, d, seed);
    assert s.dir[0..] == s.dir;
    assert Grown(s.dir[0..], d);
    assert Log(c, s.dir)[0..] == Log(c, s.dir);
  }

  /** An aligned valid record with LSN at least `want` starts behind `x`, within `[x, y)`. */
  ghost predicate Embeds(c: Env, g: Bytes, x: nat, y: nat, want: nat) {
    exists p :: x + 8 <= p < y && (p - x) % 8 == 0 && ScanAt(c, g, p).Rec? && ScanAt(c, g, p).lsn >= want
  }

  /** With zeros behind `y`, what the forward scan from `x` can find starts before `y`. */
  lemma EmbedsIsContinues(c: Env, g: Bytes, x: nat, y: nat, want: nat)
    requires c.segmentSize <= |g| && ZeroOn(g, y, c.segmentSize) && y <= x + R.FramedSize(c.maxRecordSize)
    ensures Continues(c, g, x, want) <==> Embeds(c, g, x, y, want)
  {
    hide ScanAt, R.FramedSize, ZeroOn;
    forall p | y <= p ensures !ScanAt(c, g, p).Rec? {
      ScanZeros(c, g, p, y);
    }
  }

  lemma NothingInZeros(c: Env, g: Bytes, x: nat, y: nat, want: nat)
    requires c.segmentSize <= |g| && ZeroOn(g, x, c.segmentSize)
    ensures !Embeds(c, g, x, y, want)
  {
    hide ScanAt, ZeroOn;
    forall p | x <= p ensures !ScanAt(c, g, p).Rec? {
      ScanZeros(c, g, p, x);
    }
  }

  lemma ZeroTailClean(c: Env, sf: SegFile)
    requires sf.base >= 1 && ZeroTail(c, sf)
    ensures Classify(c, sf.data, sf.base, true).Clean?
  {
    hide DenseRun, ScanAt;
    ScanZeros(c, sf.data, RunOf(c, sf).end, RunOf(c, sf).end);
  }

  /** Record `j` of `recs`, which belongs at `x`, did not get through whole. */
  predicate Torn(c: Env, g: Bytes, recs: seq<Bytes>, j: nat, x: nat, want: nat) {
    j < |recs| && !WholeFrame(c, g, x, want, recs[j])
  }

  /**
    The active segment after a write was cut: the run got the whole records, and the torn one too if it
    is whole after all; the verdict is TornMidLog if and only if the torn record embeds a frame.
   */
  lemma TornVerdict(c: Env, sf: SegFile, recs: seq<Bytes>, n: nat)
    requires sf.base >= 1 && ZeroTail(c, sf) && Sized(c, recs) && NextLsn(c, sf) + |recs| <= MAX_LSN + 1
    requires RunOf(c, sf).end + |R.Frames(c.crc, NextLsn(c, sf), recs)| <= c.segmentSize
    requires n <= |R.Frames(c.crc, NextLsn(c, sf), recs)|
    requires var off := RunOf(c, sf).end;
             var g := Overwrite(sf.data, off, R.Frames(c.crc, NextLsn(c, sf), recs)[..n]);
             var j := Fit(n, recs);
             var x := off + |R.Frames(c.crc, NextLsn(c, sf), recs[..j])|;
             j < |recs| ==> Visible(c, g, x, NextLsn(c, sf) + j, recs[j])
    ensures var off := RunOf(c, sf).end;
            var g := Overwrite(sf.data, off, R.Frames(c.crc, NextLsn(c, sf), recs)[..n]);
            var to := SegFile(sf.base, g);
            var j := Fit(n, recs);
            var x := off + |R.Frames(c.crc, NextLsn(c, sf), recs[..j])|;
            var want := NextLsn(c, sf) + j;
            var torn := Torn(c, g, recs, j, x, want);
            && |g| == |sf.data| && g[..HEADER_SIZE] == sf.data[..HEADER_SIZE]
            && RunOf(c, to).payloads == RunOf(c, sf).payloads + recs[..if torn || j == |recs| then j else j + 1]
            && TornOutcome(c, to, torn && Embeds(c, g, x, off + n, want), x)
  {
    hide R.Frames, Overwrite, Fit, DenseRun, Piece, Visible, ZeroOn, Sized, WholeFrame, Embeds, TornOutcome;
    var off, next := RunOf(c, sf).end, NextLsn(c, sf);
    var g := Overwrite(sf.data, off, R.Frames(c.crc, next, recs)[..n]);
    var j := Fit(n, recs);
    TornRun(c, sf, recs, n);
    var x := off + |R.Frames(c.crc, next, recs[..j])|;
    TornPoint(c, SegFile(sf.base, g), RunOf(c, sf).payloads, recs, j, x, off + n);
  }

  /** The verdict is TornMidLog, at `x`, if and only if `embedded`; otherwise the tail is zero or truncated. */
  ghost predicate TornOutcome(c: Env, sf: SegFile, embedded: bool, x: nat) {
    && sf.base >= 1
    && var v := Classify(c, sf.data, sf.base, true);
    && (v.TornMidLog? <==> embedded)
    && (v.TornMidLog? ==> v.offset == x)
    && (v.TornMidLog? || v.Truncated? || ZeroTail(c, sf))
  }

  /** The same, of a file whose run is known up to the tear at `x`. */
  lemma TornPoint(c: Env, to: SegFile, pre: seq<Bytes>, recs: seq<Bytes>, j: nat, x: nat, y: nat)
    requires to.base >= 1 && Sized(c, recs) && j <= |recs| && to.base + |pre| + |recs| <= MAX_LSN + 1
    requires var more := DenseRun(c, to.data, x, to.base + |pre| + j);
             RunOf(c, to) == Run(pre + recs[..j] + more.payloads, more.end)
    requires x <= y && c.segmentSize <= |to.data| && ZeroOn(to.data, y, c.segmentSize)
    requires j == |recs| ==> x == y
    requires j < |recs| ==> Piece(c, to.data, x, y, to.base + |pre| + j, recs[j])
    requires j < |recs| ==> Visible(c, to.data, x, to.base + |pre| + j, recs[j])
    ensures var want := to.base + |pre| + j;
            var torn := Torn(c, to.data, recs, j, x, want);
            && RunOf(c, to).payloads == pre + recs[..if torn || j == |recs| then j else j + 1]
            && TornOutcome(c, to, torn && Embeds(c, to.data, x, y, want), x)
  {
    hide DenseRun, Piece, Visible, WholeFrame, ScanAt, Embeds, ZeroOn, R.FramedSize, TornOutcome;
    var g, want := to.data, to.base + |pre| + j;
    NilJoin(pre + recs[..j]);
    if j == |recs| {
      RunInZeros(c, g, x, want, x);
      TornNot(c, to, x);
    } else {
      TornRecord(c, g, x, y, want, recs[j]);
      if WholeFrame(c, g, x, want, recs[j]) {
        JoinAssoc(pre, recs[..j], [recs[j]]);
        assert recs[..j] + [recs[j]] == recs[..j + 1];
        TornNot(c, to, x);
      } else {
        PieceBound(c, g, x, y, want, recs[j]);
        TornHere(c, to, x, y, want);
      }
    }
  }

  lemma TornNot(c: Env, to: SegFile, x: nat)
    requires to.base >= 1 && ZeroTail(c, to)
    ensures TornOutcome(c, to, false, x)
  {
    hide Classify, ZeroTail;
    ZeroTailClean(c, to);
  }

  lemma PieceBound(c: Env, g: Bytes, x: nat, y: nat, lsn: nat, payload: Bytes)
    requires Piece(c, g, x, y, lsn, payload) && |payload| <= c.maxRecordSize
    ensures y <= x + R.FramedSize(c.maxRecordSize)
  {
    hide R.Frame, R.FramedSize;
    FrameBound(c, payload);
  }

  /** The run ends at a torn record: the forward scan decides, unless all behind it is zero. */
  lemma TornHere(c: Env, to: SegFile, x: nat, y: nat, want: nat)
    requires to.base >= 1 && RunOf(c, to).end == x && NextLsn(c, to) == want <= MAX_LSN
    requires c.segmentSize <= |to.data| && ZeroOn(to.data, y, c.segmentSize)
    requires y <= x + R.FramedSize(c.maxRecordSize)
    requires ScanAt(c, to.data, x).CleanEnd? ==> ZeroOn(to.data, x, c.segmentSize)
    ensures TornOutcome(c, to, Embeds(c, to.data, x, y, want), x)
  {
    hide DenseRun, ScanAt, Embeds, ZeroOn, R.FramedSize, Continues;
    EmbedsIsContinues(c, to.data, x, y, want);
    if ScanAt(c, to.data, x).CleanEnd? {
      NothingInZeros(c, to.data, x, y, want);
    }
  }

  /** The bridge from the handle's numbers to the torn segment's. */
  lemma TornSetup(c: Env, s: Sys, cut: nat)
    requires Inv(c, s) && s.inflight.Writing? && s.dir != [] && TearVisible(c, s, cut)
    ensures Ready(c, s)
    ensures var sf := Active(s.dir);
            var recs := s.batch[..Fit(Room(c, s), s.batch)];
            var data := R.Frames(c.crc, NextLsn(c, sf), recs);
            var n := Min(cut, |data|);
            var j := Fit(n, recs);
            var x := RunOf(c, sf).end + |R.Frames(c.crc, NextLsn(c, sf), recs[..j])|;
            && s.inflight == Writing(RunOf(c, sf).end, data)
            && sf.base >= 1 && ZeroTail(c, sf) && Sized(c, recs)
            && NextLsn(c, sf) + |recs| <= MAX_LSN + 1
            && RunOf(c, sf).end + |data| <= c.segmentSize
            && j == WholeRecords(c, s, n) && x == TearOffset(c, s, n)
            && (j < |recs| ==>
                  && recs[j] == s.batch[j]
                  && Visible(c, Overwrite(sf.data, RunOf(c, sf).end, data[..n]), x, NextLsn(c, sf) + j, recs[j]))
  {
    hide R.Frames, Overwrite, Fit, RunOf, Visible, Chain, ZeroTail;
    InvReady(c, s);
    InvChain(c, s);
    ChainBase(c, s.dir);
    FitSpec(c.crc, s.durable + 1, Room(c, s), s.batch);
    var recs := s.batch[..Fit(Room(c, s), s.batch)];
    var data := R.Frames(c.crc, s.durable + 1, recs);
    var j := Fit(Min(cut, |data|), recs);
    assert recs[..j] == s.batch[..j];
  }

  /**
    The one way open can refuse: the crash cut a staged record, at TearOffset, that is not whole, and an
    aligned valid frame that continues the log starts inside what got through of it.
   */
  ghost predicate EmbeddedFrame(c: Env, s: Sys, cut: nat) {
    && Ready(c, s) && s.inflight.Writing? && s.inflight.off == s.writeOffset
    && var n := Min(cut, |s.inflight.data|);
    && var j := WholeRecords(c, s, n);
    && var x := TearOffset(c, s, n);
    && var g := Active(Settle(c, s, cut)).data;
    && Torn(c, g, s.batch[..Fit(Room(c, s), s.batch)], j, x, s.durable + 1 + j)
    && Embeds(c, g, x, s.writeOffset + n, s.durable + 1 + j)
  }

  /** What a cut write leaves of the active segment, in the handle's numbers. */
  lemma TornActive(c: Env, s: Sys, cut: nat)
    requires Inv(c, s) && s.inflight.Writing? && s.dir != [] && Ready(c, s) && TearVisible(c, s, cut)
    ensures s.inflight.off <= |Active(s.dir).data|
    ensures var sf, g := Active(s.dir), Active(Settle(c, s, cut)).data;
            && sf.base >= 1 && Settle(c, s, cut) == Replace(s.dir, g)
            && HEADER_SIZE <= |g| == |sf.data| && g[..HEADER_SIZE] == sf.data[..HEADER_SIZE]
            && RunOf(c, SegFile(sf.base, g)).payloads == RunOf(c, sf).payloads + s.batch[..Kept(c, s, cut)]
            && var x := TearOffset(c, s, Min(cut, |s.inflight.data|));
            && TornOutcome(c, SegFile(sf.base, g), EmbeddedFrame(c, s, cut), x)
  {
    hide R.Frames, Overwrite, Fit, RunOf, Visible, Chain, WholeFrame, ZeroTail, TornOutcome, Embeds;
    TornSetup(c, s, cut);
    var recs := s.batch[..Fit(Room(c, s), s.batch)];
    TornVerdict(c, Active(s.dir), recs, Min(cut, |s.inflight.data|));
    var k := Kept(c, s, cut);
    assert recs[..k] == s.batch[..k];
    InvChain(c, s);
    ChainHeader(c, s.dir);
  }

  /**
    A torn commit. Open refuses if and only if the torn record embeds a frame that continues the log,
    and then with TornMidLog at that record. Otherwise it brings back the durable records and exactly
    the staged ones that got through whole, in order, byte for byte.
   */
  lemma ReopenTorn(c: Env, s: Sys, cut: nat, seed: nat)
    requires Inv(c, s) && s.inflight.Writing? && s.dir != [] && 1 <= seed <= MAX_LSN
    requires Ready(c, s) && TearVisible(c, s, cut)
    ensures s.inflight.off <= |Active(s.dir).data|
    ensures var r := OpenDir(c, Settle(c, s, cut), seed);
            && (r.Refused? <==> EmbeddedFrame(c, s, cut))
            && (r.Refused? ==> r.error == TornAt(c, s, cut))
            && (r.Opened? ==> Survives(c, s, Handle(r)) && Handle(r).durable == s.durable + Kept(c, s, cut))
  {
    hide Inv, RunOf, Log, OpenDir, Classify, ZeroTail, EmbeddedFrame, Kept, Settle, TearVisible, TearOffset, Survives;
    TornActive(c, s, cut);
    TornDir(c, s, Active(Settle(c, s, cut)).data, Kept(c, s, cut), seed);
  }

  /** The refusal: TornMidLog at the torn record. */
  function TornAt(c: Env, s: Sys, cut: nat): (e: WalError)
    requires Ready(c, s) && s.inflight.Writing?
  {
    TornMidLogAt(Active(s.dir).base, TearOffset(c, s, Min(cut, |s.inflight.data|)))
  }

  /** Lifting the active segment's verdict to the directory. */
  lemma TornDir(c: Env, s: Sys, g: Bytes, kept: nat, seed: nat)
    requires Inv(c, s) && s.dir != [] && kept <= |s.batch| && 1 <= seed <= MAX_LSN
    requires !s.inflight.Unlinking?
    requires HEADER_SIZE <= |Active(s.dir).data| == |g| && g[..HEADER_SIZE] == Active(s.dir).data[..HEADER_SIZE]
    requires Active(s.dir).base >= 1
    requires RunOf(c, SegFile(Active(s.dir).base, g)).payloads == RunOf(c, Active(s.dir)).payloads + s.batch[..kept]
    requires var v := Classify(c, g, Active(s.dir).base, true);
             v.TornMidLog? || v.Truncated? || ZeroTail(c, SegFile(Active(s.dir).base, g))
    ensures var v := Classify(c, g, Active(s.dir).base, true);
            var r := OpenDir(c, Replace(s.dir, g), seed);
            && (r.Refused? <==> v.TornMidLog?)
            && (r.Refused? ==> r.error == TornMidLogAt(Active(s.dir).base, v.offset))
            && (r.Opened? ==> Survives(c, s, Handle(r)) && Handle(r).durable == s.durable + kept)
  {
    hide RunOf, Chain, Log, OpenDir, Classify, ZeroTail;
    var sf, d := Active(s.dir), Replace(s.dir, g);
    InvChain(c, s);
    ChainReplace(c, s.dir, g);
    TornLog(c, s, g, kept);
    ChainBase(c, d);
    ChainOpens(c, d, seed);
    if ZeroTail(c, SegFile(sf.base, g)) {
      ZeroTailClean(c, SegFile(sf.base, g));
      ReopenTight(c, d, seed);
      TornSurvives(c, s, d, OpenDir(c, d, seed), kept);
    } else if Conclude(c, d).Opened? {
      Concluded(c, d);
      assert Conclude(c, d).tail.TruncatedAt?;
      TornSurvives(c, s, d, OpenDir(c, d, seed), kept);
    }
  }

  lemma TornLog(c: Env, s: Sys, g: Bytes, kept: nat)
    requires Chain(c, s.dir) && s.dir != [] && kept <= |s.batch|
    requires var run := RunOf(c, SegFile(Active(s.dir).base, g)).payloads;
             && Log(c, Replace(s.dir, g)) == Log(c, s.dir[..|s.dir| - 1]) + run
             && run == RunOf(c, Active(s.dir)).payloads + s.batch[..kept]
    ensures Log(c, Replace(s.dir, g)) == Log(c, s.dir) + s.batch[..kept]
  {
    hide RunOf, Chain, Log, Replace;
    LogSplit(c, s.dir);
    JoinAssoc(Log(c, s.dir[..|s.dir| - 1]), RunOf(c, Active(s.dir)).payloads, s.batch[..kept]);
  }

  lemma TornSurvives(c: Env, s: Sys, d: Dir, r: Opening, kept: nat)
    requires Inv(c, s) && s.dir != [] && kept <= |s.batch| && !s.inflight.Unlinking?
    requires Chain(c, d) && d != [] && |d| == |s.dir| && d[..|d| - 1] == s.dir[..|d| - 1] && d[0].base == s.dir[0].base
    requires Active(d).base == Active(s.dir).base
    requires Log(c, d) == Log(c, s.dir) + s.batch[..kept]
    requires r.Opened? && Tight(c, r.dir) && Log(c, r.dir) == Log(c, d) && r.dir != []
    requires |r.dir| == |d| && r.dir[..|d| - 1] == d[..|d| - 1]
    requires r.dir[0].base == d[0].base && Active(r.dir).base == Active(d).base
    requires r.writeOffset == RunOf(c, Active(r.dir)).end && r.last + 1 == NextLsn(c, Active(r.dir))
    ensures Survives(c, s, Handle(r)) && Handle(r).durable == s.durable + kept
  {
    hide Chain, Log, ZeroTail, DenseRun, Chunk, Fit;
    ChainDense(c, r.dir);
    InvChain(c, s);
    ChainDense(c, s.dir);
    NextFits(c, Active(r.dir));
    assert s.dir[0..] == s.dir;
    assert Grown(s.dir[0..], r.dir);
    assert Log(c, r.dir)[0..] == Log(c, r.dir);
  }

  /** What can be read after a failed write, before any recovery: the durable records and the ones it let through. */
  lemma CachedLog(c: Env, s: Sys, cut: nat)
    requires Inv(c, s) && s.inflight.Writing? && s.dir != [] && Ready(c, s) && TearVisible(c, s, cut)
    ensures s.inflight.off <= |Active(s.dir).data|
    ensures Log(c, Settle(c, s, cut)) == Log(c, s.dir) + s.batch[..Kept(c, s, cut)]
  {
    hide RunOf, Chain, Log, Kept, Settle, TearVisible, TornOutcome;
    TornActive(c, s, cut);
    var g := Active(Settle(c, s, cut)).data;
    InvChain(c, s);
    ChainReplace(c, s.dir, g);
    TornLog(c, s, g, Kept(c, s, cut));
  }

  // ----- A restart without a power loss -----

  /**
    After a failed sync the write may be in the page cache and nowhere else. A process that reopens then
    reports the records that can be read as durable, while a power loss brings back the log without
    them: the report overstates what is durable by exactly the staged records the cache holds whole, so
    it is right if and only if there are none. If the whole write is there, open does not even write.
   */
  lemma UnsyncedIsReported(c: Env, s: Sys, cut: nat, seed: nat)
    requires Inv(c, s) && s.inflight.Writing? && s.dir != [] && Ready(c, s) && TearVisible(c, s, cut)
    requires 1 <= seed <= MAX_LSN
    ensures s.inflight.off <= |Active(s.dir).data|
    ensures var cached := OpenDir(c, Settle(c, s, cut), seed);
            var durable := OpenDir(c, s.dir, seed);
            && durable.Opened? && durable.last == s.durable && Log(c, durable.dir) == Log(c, s.dir)
            && (cached.Opened? ==> (cached.last == durable.last <==> Kept(c, s, cut) == 0))
            && (cut >= |s.inflight.data| ==>
                  cached.Opened? && cached.dir == Settle(c, s, cut) && cached.tail == CleanTail
                  && cached.last == s.durable + Fit(Room(c, s), s.batch))
  {
    hide Tight, RunOf, Log, Fit, OpenDir, Kept, Settle, TearVisible, Overwrite;
    ReopenTorn(c, s, cut, seed);
    ReopenTight(c, s.dir, seed);
    if cut >= |s.inflight.data| {
      WholeWriteOpens(c, s, cut, seed);
    }
  }

  lemma WholeWriteOpens(c: Env, s: Sys, cut: nat, seed: nat)
    requires Inv(c, s) && s.inflight.Writing? && s.dir != [] && Ready(c, s) && 1 <= seed <= MAX_LSN
    requires s.inflight.off <= |Active(s.dir).data| && cut >= |s.inflight.data|
    ensures var r := OpenDir(c, Settle(c, s, cut), seed);
            && r.Opened? && r.dir == Settle(c, s, cut) && r.tail == CleanTail
            && r.last == s.durable + Fit(Room(c, s), s.batch) && Inv(c, Handle(r))
  {
    hide Tight, RunOf, Log, Fit, OpenDir, Overwrite, R.Frames;
    var k := Fit(Room(c, s), s.batch);
    var idle := s.(poisoned := false, inflight := Nothing);
    FitSpec(c.crc, s.durable + 1, Room(c, s), s.batch);
    assert s.inflight.data[..|s.inflight.data|] == s.inflight.data;
    WriteKeeps(c, idle, k);
    var t := Wrote(c, idle, k);
    assert Settle(c, s, cut) == t.dir;
    ReopenTight(c, t.dir, seed);
  }
}
