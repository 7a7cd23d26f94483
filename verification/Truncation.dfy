/** A segment file cut short from outside: what recovery keeps, and when the log stays safe afterwards. */
module Truncation {
  import opened ByteString
  import opened Config
  import opened Segment
  import opened Recovery
  import opened Directory
  import opened Open
  import opened Writer
  import opened Invariant
  import opened Crash
  import opened Leftover
  import R = Record

  /** The records of a run that end at or before byte `n`. */
  function WholeBefore(c: Env, f: Bytes, off: nat, lsn: nat, n: nat): (r: Run)
    decreases c.segmentSize - off
  {
    var s := ScanAt(c, f, off);
    if s.Rec? && s.lsn == lsn && off + s.framed <= n then
      var rest := WholeBefore(c, f, off + s.framed, lsn + 1, n);
      Run([s.payload] + rest.payloads, rest.end)
    else Run([], off)
  }

  /** A file cut at `n` has exactly the run of the records that end at or before `n`. */
  lemma {:induction false} CutRun(c: Env, f: Bytes, off: nat, lsn: nat, n: nat)
    requires off <= n <= |f|
    ensures DenseRun(c, f[..n], off, lsn) == WholeBefore(c, f, off, lsn, n)
    decreases c.segmentSize - off
  {
    hide ScanAt, R.FramedSize;
    var g := f[..n];
    var s := ScanAt(c, f, off);
    if s.Rec? && s.lsn == lsn && off + s.framed <= n {
      ScanLocal(c, f, g, off);
      CutRun(c, f, off + s.framed, lsn + 1, n);
    } else if ScanAt(c, g, off).Rec? {
      ScanLocal(c, g, f, off);
    }
  }

  /** What is kept is a prefix of the whole run; if it is not all of it, the next record crosses `n`. */
  lemma {:induction false} KeptIsPrefix(c: Env, f: Bytes, off: nat, lsn: nat, n: nat)
    ensures var w, r := WholeBefore(c, f, off, lsn, n), DenseRun(c, f, off, lsn);
            && w.payloads <= r.payloads && off <= w.end
            && (w.payloads == r.payloads ==> w.end == r.end)
            && (w.payloads != r.payloads ==>
                  var s := ScanAt(c, f, w.end);
                  s.Rec? && s.lsn == lsn + |w.payloads| && w.end + s.framed > n && n < r.end)
            && (off <= n ==> w.end <= n)
    decreases c.segmentSize - off
  {
    hide ScanAt, R.FramedSize;
    var s := ScanAt(c, f, off);
    if s.Rec? && s.lsn == lsn && off + s.framed <= n {
      KeptIsPrefix(c, f, off + s.framed, lsn + 1, n);
    }
  }

  /** A record whose last bytes are gone reads as invalid. */
  lemma CutRecord(c: Env, f: Bytes, x: nat, n: nat)
    requires ScanAt(c, f, x).Rec? && n <= |f| && x <= n < x + ScanAt(c, f, x).framed
    ensures ScanAt(c, f[..n], x) == Invalid
  {
    hide FromLe;
    var g := f[..n];
    if n >= x + 20 {
      SliceOfSlice(f, 0, n, x, x + 20);
      SliceOfSlice(f, 0, n, x + 4, x + 8);
      assert g == f[0..n];
    }
  }

  lemma NothingPastEnd(c: Env, g: Bytes, x: nat, want: nat)
    requires |g| < x + R.RECORD_HEADER_SIZE
    ensures !Continues(c, g, x, want)
  {
    forall p | x + 8 <= p ensures !ScanAt(c, g, p).Rec? {
    }
  }

  /**
    Physical truncation keeps exactly the whole records. Cut a zero-tailed active segment at any length
    that leaves its header. Recovery keeps precisely the records that end at or before the cut, also
    when the last of them has the last LSN, except that the verdict is TornMidLog, at the cut record, if
    and only if what is left of that record holds an aligned valid frame that continues the log.
   */
  lemma PhysicalCut(c: Env, sf: SegFile, n: nat)
    requires c.Valid() && sf.base >= 1 && ZeroTail(c, sf) && HEADER_SIZE <= n <= |sf.data|
    ensures var g := sf.data[..n];
            var w := WholeBefore(c, sf.data, HEADER_SIZE, sf.base, n);
            var all := RunOf(c, sf);
            var v := Classify(c, g, sf.base, true);
            && w.payloads <= all.payloads
            && RunOf(c, SegFile(sf.base, g)) == w
            && (w.payloads == all.payloads <==> all.end <= n)
            && v == if all.end <= n && (c.segmentSize < all.end + 20 || all.end + 20 <= n) then
                      Clean(sf.base + |w.payloads| - 1, w.end)
                    else if n < all.end && Continues(c, g, w.end, sf.base + |w.payloads|) then TornMidLog(w.end)
                    else Truncated(w.end, sf.base + |w.payloads| - 1)
  {
    hide ScanAt, R.FramedSize, DenseRun, WholeBefore, Continues;
    var f, base := sf.data, sf.base;
    var g := f[..n];
    var w, all := WholeBefore(c, f, HEADER_SIZE, base, n), RunOf(c, sf);
    CutRun(c, f, HEADER_SIZE, base, n);
    KeptIsPrefix(c, f, HEADER_SIZE, base, n);
    var want := base + |w.payloads|;
    if w.payloads != all.payloads {
      CutRecord(c, f, w.end, n);
      ScannedLsnFits(c, f, w.end);
    } else {
      ShortScan(c, g, w.end, w.end);
      if n < w.end + 20 <= c.segmentSize {
        NothingPastEnd(c, g, w.end, want);
        assert ZeroCut(g, w.end);
      }
    }
  }

  /** What a scan makes of the end of a zero-tailed file, however short. */
  lemma ShortScan(c: Env, f: Bytes, y: nat, x: nat)
    requires y <= x && ZeroOn(f, y, c.segmentSize)
    ensures ScanAt(c, f, x) == if c.segmentSize < x + 20 || x + 20 <= |f| then CleanEnd else Invalid
  {
  }

  // ----- After the cut: when the reopened log is safe to go on with -----

  /** From the write offset on, as far as the active file reaches, all is zero: it may only be short. */
  ghost predicate ZeroBehind(c: Env, s: Sys)
    requires s.dir != []
  {
    ZeroOn(Active(s.dir).data, s.writeOffset, c.segmentSize)
  }

  /**
    Cutting the active file of a writer's log of any number of segments. Open refuses if and only if
    what is left of the record that was cut embeds a frame that continues the log. Otherwise the handle
    stands at the end of the whole records with nothing but zeros behind it, and the file has its full
    length again if and only if the cut lost record bytes, or fewer than a record header's worth of
    zeros were left after the last record, or nothing was lost. A cut that leaves that many zeros is
    reported clean and not extended.
   */
  lemma CutReopens(c: Env, d: Dir, n: nat, seed: nat)
    requires c.Valid() && 1 <= seed <= MAX_LSN && Tight(c, d) && HEADER_SIZE <= n <= |Active(d).data|
    ensures var sf := Active(d);
            var end := RunOf(c, sf).end;
            var r := OpenDir(c, Replace(d, sf.data[..n]), seed);
            var w := WholeBefore(c, sf.data, HEADER_SIZE, sf.base, n);
            && (r.Refused? <==> n < end && Continues(c, sf.data[..n], w.end, sf.base + |w.payloads|))
            && (r.Refused? ==> r.error == TornMidLogAt(sf.base, w.end))
            && (r.Opened? ==>
                  && Placed(c, Handle(r)) && ZeroBehind(c, Handle(r)) && r.writeOffset == w.end
                  && (Tight(c, r.dir) <==> n < end || n < end + 20 <= c.segmentSize || c.segmentSize <= n)
                  && (!Tight(c, r.dir) ==> r.dir == Replace(d, sf.data[..n])))
  {
    hide ScanAt, DenseRun, Continues, HeaderOk, LinkOk, WholeBefore, Overwrite, OpenDir, Judge, Conclude;
    var sf := Active(d);
    var g := sf.data[..n];
    var cut := Replace(d, g);
    ChainBase(c, d);
    assert g[..HEADER_SIZE] == sf.data[..HEADER_SIZE];
    ChainReplace(c, d, g);
    ChainOpens(c, cut, seed);
    PhysicalCut(c, sf, n);
    KeptIsPrefix(c, sf.data, HEADER_SIZE, sf.base, n);
    CutConcludes(c, d, n);
    if Conclude(c, cut).Opened? {
      OpenedIsPlaced(c, cut, seed, []);
    }
  }

  /** The same of the active segment's verdict. */
  lemma CutConcludes(c: Env, d: Dir, n: nat)
    requires c.Valid() && Tight(c, d) && HEADER_SIZE <= n <= |Active(d).data|
    requires Chain(c, Replace(d, Active(d).data[..n]))
    ensures var sf := Active(d);
            var end := RunOf(c, sf).end;
            var cut := Replace(d, sf.data[..n]);
            var w := WholeBefore(c, sf.data, HEADER_SIZE, sf.base, n);
            && HeaderOk(c, Active(cut))
            && var r := Conclude(c, cut);
            && (r.Refused? <==> n < end && Continues(c, sf.data[..n], w.end, sf.base + |w.payloads|))
            && (r.Refused? ==> r.error == TornMidLogAt(sf.base, w.end))
            && (r.Opened? ==>
                  && r.dir != [] && r.writeOffset == w.end && r.last <= MAX_LSN
                  && ZeroOn(Active(r.dir).data, r.writeOffset, c.segmentSize)
                  && (Tight(c, r.dir) <==> n < end || n < end + 20 <= c.segmentSize || c.segmentSize <= n)
                  && (!Tight(c, r.dir) ==> r.dir == cut))
  {
    hide ScanAt, DenseRun, Continues, DecodeHeader, LinkOk, WholeBefore, Overwrite, Judge;
    var sf := Active(d);
    var cut := Replace(d, sf.data[..n]);
    ChainBase(c, d);
    ChainBase(c, cut);
    PhysicalCut(c, sf, n);
    KeptIsPrefix(c, sf.data, HEADER_SIZE, sf.base, n);
    if Conclude(c, cut).Opened? {
      Concluded(c, cut);
      NextFits(c, Active(Conclude(c, cut).dir));
    }
  }

  /**
    The exact condition for a commit on a short file, on numbers known before it. Let the handle stand
    on any chain of segments, its active file zero behind the records but of any length, and let a
    commit end without failure. The log opens again, with exactly the old records and the committed
    ones, if and only if the whole batch fits the active segment, or where the part that fits ends
    there is no room left for a record header, or the file already held one there.
   */
  lemma ShortFileReopens(c: Env, s: Sys, budget: nat, seed: nat)
    requires Placed(c, s) && ZeroBehind(c, s) && 1 <= seed <= MAX_LSN && !CommitLoop(c, s, budget).poisoned
    ensures var k := Fit(Room(c, s), s.batch);
            var x := s.writeOffset + |Chunk(c, s, k)|;
            var r := OpenDir(c, CommitLoop(c, s, budget).dir, seed);
            && (r.Opened? <==> k == |s.batch| || c.segmentSize < x + 20 || x + 20 <= |Active(s.dir).data|)
            && (r.Opened? ==> Log(c, r.dir) == Log(c, s.dir) + s.batch)
  {
    hide CommitLoop, Fit, Chunk, OpenDir, Log, Placed, ScanAt, Continues;
    PlacedReady(c, s);
    CommitReopens(c, s, budget, seed);
    var f, x, want := Active(s.dir).data, FillEnd(c, s), s.durable + 1 + Fit(Room(c, s), s.batch);
    ShortScan(c, f, s.writeOffset, x);
    if |f| < x + 20 {
      NothingPastEnd(c, f, x, want);
    }
  }

  function Max(a: nat, b: nat): (m: nat)
    ensures m == a || m == b
    ensures m >= a && m >= b
  {
    if a > b then a else b
  }

  /** Until such a commit rolls, the next one meets the same case; once it has rolled safely, the log is tight. */
  lemma ShortFileStays(c: Env, s: Sys, budget: nat, seed: nat)
    requires Placed(c, s) && ZeroBehind(c, s) && 1 <= seed <= MAX_LSN && !CommitLoop(c, s, budget).poisoned
    requires OpenDir(c, CommitLoop(c, s, budget).dir, seed).Opened?
    ensures var t := CommitLoop(c, s, budget);
            if Fit(Room(c, s), s.batch) == |s.batch| then
              && Placed(c, t) && ZeroBehind(c, t)
              && |Active(t.dir).data| == Max(|Active(s.dir).data|, FillEnd(c, s))
            else Inv(c, t)
  {
    hide CommitLoop, Fit, Chunk, OpenDir, Log, ScanAt, RunOf, Chain, Ready, Placed, Sized;
    PlacedReady(c, s);
    if Fit(Room(c, s), s.batch) == |s.batch| {
      LoopFills(c, s, budget);
      ShortFills(c, s, CommitLoop(c, s, budget));
    } else {
      var one, b := LoopSeals(c, s, budget);
      var tail := FreshPart(c, one, b);
      ShortSeals(c, CommitLoop(c, s, budget), one.dir, tail, seed);
    }
  }

  lemma ShortFills(c: Env, s: Sys, t: Sys)
    requires Placed(c, s) && ZeroBehind(c, s) && Fit(Room(c, s), s.batch) == |s.batch|
    requires t == s.(dir := Replace(s.dir, Filled(c, s).data), writeOffset := FillEnd(c, s),
                     durable := s.durable + |s.batch|, batch := [], observed := t.observed)
    ensures Placed(c, t) && ZeroBehind(c, t)
    ensures |Active(t.dir).data| == Max(|Active(s.dir).data|, FillEnd(c, s))
  {
    hide Fit, DenseRun, Chain, Judge, Overwrite, R.Frames, ScanAt;
    FilledRun(c, s);
    ShortScan(c, Active(s.dir).data, s.writeOffset, FillEnd(c, s));
    FitSpec(c.crc, s.durable + 1, Room(c, s), s.batch);
    ChainReplace(c, s.dir, Filled(c, s).data);
  }

  lemma ShortSeals(c: Env, t: Sys, pre: Dir, tail: Dir, seed: nat)
    requires c.Valid() && 1 <= seed <= MAX_LSN && OpenDir(c, t.dir, seed).Opened?
    requires t.dir == pre + tail && tail != [] && Tight(c, tail)
    requires !t.poisoned && t.inflight == Nothing && t.batch == [] && t.durable == t.last
    requires t.writeOffset == RunOf(c, Active(tail)).end <= c.segmentSize
    requires t.durable + 1 == NextLsn(c, Active(tail)) <= MAX_LSN + 1
    ensures Inv(c, t)
  {
    hide RunOf, Chain, OpenDir, ZeroTail, HeaderOk;
    ChainBase(c, tail);
    assert Active(t.dir) == Active(tail);
    OpensIffChain(c, t.dir, seed);
  }

  /** A sealed, zero-tailed file passes recovery exactly when a header's worth of zeros follows its run. */
  lemma SealedNeedsRoom(c: Env, sf: SegFile)
    requires sf.base >= 1 && RunOf(c, sf).end <= |sf.data| && ZeroOn(sf.data, RunOf(c, sf).end, |sf.data|)
    ensures var end := RunOf(c, sf).end;
            Classify(c, sf.data, sf.base, false) ==
            if c.segmentSize < end + 20 || end + 20 <= |sf.data| then Clean(NextLsn(c, sf) - 1, end)
            else Corruption(end)
  {
    hide DenseRun;
    var end := RunOf(c, sf).end;
    ShortScan(c, sf.data, end, end);
  }

  // ----- The clean verdict on a short file is not safe to write on: a concrete run -----

  /** A fresh segment, cut to its header and 20 zero bytes. */
  function CutFresh(c: Env, base: u64): (sf: SegFile)
    ensures sf.base == base && |sf.data| == 84
  {
    SegFile(base, Header(c, base) + Zeros(20))
  }

  lemma CutFreshOpens(c: Env, base: u64)
    requires Small(c) && base >= 1
    ensures HeaderOk(c, CutFresh(c, base))
    ensures OpenDir(c, [CutFresh(c, base)], 1) == Opened([CutFresh(c, base)], HEADER_SIZE, base - 1, CleanTail)
  {
    hide DecodeHeader, DenseRun, ScanAt, Header, Continues;
    var sf := CutFresh(c, base);
    HeaderRoundTrip(c, base);
    assert sf.data[..HEADER_SIZE] == Header(c, base);
    ShortScan(c, sf.data, HEADER_SIZE, HEADER_SIZE);
    RunStops(c, sf.data, HEADER_SIZE, base);
    assert Chain(c, [sf]);
    ChainOpens(c, [sf], 1);
  }

  /** The handle of that open, with a 4-byte and a 100-byte record staged. */
  function TwoStaged(c: Env, base: u64, p1: Bytes, p2: Bytes): (s: Sys)
    requires base >= 1
  {
    Sys([CutFresh(c, base)], Nothing, HEADER_SIZE, base + 1, base - 1, [p1, p2], false, [])
  }

  /** The commit writes the first record past the old end of file, rolls, and writes the second. */
  lemma TwoStagedCommits(c: Env, base: u64, p1: Bytes, p2: Bytes)
    requires Small(c) && 1 <= base < MAX_LSN && |p1| == 4 && |p2| == 100
    ensures var s := TwoStaged(c, base, p1, p2);
            && Ready(c, s)
            && var t := CommitLoop(c, s, 2 * WRITE_CALLS + ROLL_CALLS);
            && !t.poisoned && t.batch == [] && t.durable == base + 1
            && |t.dir| == 2
            && t.dir[0] == SegFile(base, Overwrite(CutFresh(c, base).data, HEADER_SIZE, R.Frame(c.crc, base, p1)))
            && HeaderOk(c, t.dir[1]) && t.dir[1].base == base + 1
  {
    hide R.Frame, R.Frames, Overwrite, Header, DecodeHeader, Fresh, CutFresh, CommitLoop, Fit;
    var s := TwoStaged(c, base, p1, p2);
    FitTwo(p1, p2);
    var one := Wrote(c, s, 1);
    R.FramesOne(c.crc, base, p1);
    assert s.batch[..1] == [p1] && s.batch[1..] == [p2];
    LoopWrites(c, s, 1, 2 * WRITE_CALLS + ROLL_CALLS);
    var two := Rolled(c, one);
    LoopRolls(c, one, WRITE_CALLS + ROLL_CALLS);
    FreshShape(c, base + 1);
    R.FramesOne(c.crc, base + 1, p2);
    assert two.batch[..1] == [p2] && two.batch[1..] == [];
    LoopWrites(c, two, 1, WRITE_CALLS);
    var t := Wrote(c, two, 1);
    LoopEnds(c, t, 0);
    assert t.dir[..1] == two.dir[..1];
    assert t.dir[0] == t.dir[..1][0] == two.dir[..1][0] == one.dir[0];
    assert t.dir[1].data[..HEADER_SIZE] == Fresh(c, base + 1).data[..HEADER_SIZE] by {
      var data := Fresh(c, base + 1).data;
      assert t.dir[1].data == Overwrite(data, HEADER_SIZE, R.Frame(c.crc, base + 1, p2));
    }
    HeaderFromPrefix(c, Fresh(c, base + 1), t.dir[1]);
  }

  lemma HeaderFromPrefix(c: Env, a: SegFile, b: SegFile)
    requires HeaderOk(c, a) && b.base == a.base && HEADER_SIZE <= |b.data|
    requires b.data[..HEADER_SIZE] == a.data[..HEADER_SIZE]
    ensures HeaderOk(c, b)
  {
    hide DecodeHeader;
  }

  lemma FitTwo(p1: Bytes, p2: Bytes)
    requires |p1| == 4 && |p2| == 100
    ensures Fit(136, [p1, p2]) == 1 && Fit(112, [p2]) == 0 && Fit(136, [p2]) == 1
    ensures R.FramedSize(4) == 24 && R.FramedSize(100) == 120
  {
    assert [p1, p2][1..] == [p2];
    assert [p2][1..] == [];
  }

  /**
    A log that opened clean on a cut file, then acknowledged two records without any failure, can no
    longer be opened: the first segment was sealed short, and recovery calls that corruption.
   */
  lemma ShortCleanFileLosesTheLog(c: Env, base: u64, p1: Bytes, p2: Bytes)
    requires Small(c) && 1 <= base < MAX_LSN && |p1| == 4 && |p2| == 100
    ensures var s := TwoStaged(c, base, p1, p2);
            && OpenDir(c, s.dir, 1) == Opened(s.dir, s.writeOffset, s.durable, CleanTail)
            && Ready(c, s)
            && var t := CommitLoop(c, s, 2 * WRITE_CALLS + ROLL_CALLS);
            && !t.poisoned && t.durable == base + 1
            && OpenDir(c, t.dir, 1) == Refused(CorruptionAt(base, 88))
  {
    hide R.Frame, Overwrite, Header, DecodeHeader, CutFresh, CommitLoop, ScanAt, DenseRun, Conclude;
    CutFreshOpens(c, base);
    TwoStagedCommits(c, base, p1, p2);
    FitTwo(p1, p2);
    var t := CommitLoop(c, TwoStaged(c, base, p1, p2), 2 * WRITE_CALLS + ROLL_CALLS);
    var sf := t.dir[0];
    var f := R.Frame(c.crc, base, p1);
    HeaderFromPrefix(c, CutFresh(c, base), sf);
    RunStep(c, sf.data, HEADER_SIZE, base, p1);
    ShortScan(c, sf.data, 88, 88);
    RunStops(c, sf.data, 88, base + 1);
    NilJoin([p1]);
    SealedNeedsRoom(c, sf);
  }
}
