/**
  Writing over bytes that recovery left in place. A clean verdict says nothing about what lies behind
  the end of the records, so this module takes a handle on any directory that opens, with any bytes
  there, and says exactly when a commit that does not fail leaves a log that opens with its records.
 */
module Leftover {
  import opened ByteString
  import opened Config
  import opened Segment
  import opened Recovery
  import opened Directory
  import opened Open
  import opened Writer
  import opened Invariant
  import opened Crash
  import opened Grouping
  import R = Record

  /** A live, idle handle at the end of the records of a chain; nothing is said of the bytes behind them. */
  ghost predicate Placed(c: Env, s: Sys) {
    && c.Valid() && Chain(c, s.dir) && s.dir != []
    && s.writeOffset == RunOf(c, Active(s.dir)).end
    && s.durable + 1 == NextLsn(c, Active(s.dir))
    && s.last == s.durable + |s.batch| <= MAX_LSN && Sized(c, s.batch)
    && !s.poisoned && s.inflight == Nothing
    && Ready(c, s)
  }

  /** Every successful open, of any directory at all, places its handle so; so does staging more. */
  lemma OpenedIsPlaced(c: Env, d: Dir, seed: nat, batch: seq<Bytes>)
    requires seed <= MAX_LSN && OpenDir(c, d, seed).Opened? && Sized(c, batch)
    requires OpenDir(c, d, seed).last + |batch| <= MAX_LSN
    ensures var s := Handle(OpenDir(c, d, seed));
            Placed(c, s.(batch := batch, last := s.last + |batch|))
  {
    hide OpenDir, Chain, RunOf, Conclude, Sized;
    OpenedFrom(c, d, seed);
    OpenSound(c, d, seed);
    var r := OpenDir(c, d, seed);
    ChainNonEmpty(c, r.dir);
    ChainDense(c, r.dir);
    RunEndInFile(c, Active(r.dir));
    ChainHeader(c, r.dir);
  }

  // ----- What a write leaves untouched -----

  /** Behind a write the file scans as it did before. */
  lemma ScanBehind(c: Env, f: Bytes, off: nat, data: Bytes, p: nat)
    requires off <= |f| && off + |data| <= p
    ensures ScanAt(c, Overwrite(f, off, data), p) == ScanAt(c, f, p)
  {
    hide Overwrite, FromLe, R.FramedSize;
    var g := Overwrite(f, off, data);
    if p <= |f| {
      ScanSuffix(c, f, g, p);
    }
  }

  lemma {:induction false} RunBehind(c: Env, f: Bytes, off: nat, data: Bytes, p: nat, lsn: nat)
    requires off <= |f| && off + |data| <= p
    ensures DenseRun(c, Overwrite(f, off, data), p, lsn) == DenseRun(c, f, p, lsn)
    decreases c.segmentSize - p
  {
    hide ScanAt, Overwrite, R.FramedSize;
    ScanBehind(c, f, off, data, p);
    var s := ScanAt(c, f, p);
    if s.Rec? && s.lsn == lsn {
      RunBehind(c, f, off, data, p + s.framed, lsn + 1);
    }
  }

  /** The verdict at the end of a write is decided by the bytes that were there before. */
  lemma JudgeBehind(c: Env, f: Bytes, off: nat, data: Bytes, want: nat, active: bool)
    requires off <= |f| && want >= 1
    ensures Judge(c, Overwrite(f, off, data), off + |data|, want, active) == Judge(c, f, off + |data|, want, active)
  {
    hide ScanAt, Overwrite;
    var g, x := Overwrite(f, off, data), off + |data|;
    forall p | x <= p ensures ScanAt(c, g, p) == ScanAt(c, f, p) {
      ScanBehind(c, f, off, data, p);
    }
    assert Continues(c, g, x, want) <==> Continues(c, f, x, want);
    ZeroCutBehind(f, off, data);
  }

  lemma ZeroCutBehind(f: Bytes, off: nat, data: Bytes)
    requires off <= |f|
    ensures ZeroCut(Overwrite(f, off, data), off + |data|) <==> ZeroCut(f, off + |data|)
  {
    var g, x := Overwrite(f, off, data), off + |data|;
    if x <= |f| {
      assert |g| == |f| && forall i :: x <= i < |f| ==> g[i] == f[i];
    }
  }

  /** The bytes at `x` read as the record with LSN `want`. */
  predicate Stale(c: Env, f: Bytes, x: nat, want: nat) {
    ScanAt(c, f, x).Rec? && ScanAt(c, f, x).lsn == want
  }

  /**
    One write over any bytes: the run becomes the old one, the new records, and whatever run the old
    bytes behind them happen to continue it with.
   */
  lemma WriteOver(c: Env, sf: SegFile, recs: seq<Bytes>, data: Bytes)
    requires c.Valid() && HEADER_SIZE <= |sf.data|
    requires Sized(c, recs) && NextLsn(c, sf) + |recs| <= MAX_LSN + 1
    requires data == R.Frames(c.crc, NextLsn(c, sf), recs)
    requires RunOf(c, sf).end <= |sf.data| && RunOf(c, sf).end + |data| <= c.segmentSize
    ensures var off := RunOf(c, sf).end;
            var x := off + |data|;
            var g := Overwrite(sf.data, off, data);
            var more := DenseRun(c, sf.data, x, NextLsn(c, sf) + |recs|);
            && RunOf(c, SegFile(sf.base, g)) == Run(RunOf(c, sf).payloads + recs + more.payloads, more.end)
            && HEADER_SIZE <= |g| && g[..HEADER_SIZE] == sf.data[..HEADER_SIZE]
  {
    hide R.Frames, DenseRun, Overwrite, Sized, SameOn, FramesAt;
    var off, next := RunOf(c, sf).end, NextLsn(c, sf);
    var x := off + |data|;
    var g := Overwrite(sf.data, off, data);
    Written(c, sf.data, off, data, next, recs);
    RunExtends(c, sf.data, g, HEADER_SIZE, sf.base);
    RunOfFrames(c, g, off, next, recs);
    RunBehind(c, sf.data, off, data, x, next + |recs|);
    JoinAssoc(RunOf(c, sf).payloads, recs, DenseRun(c, sf.data, x, next + |recs|).payloads);
  }

  lemma Written(c: Env, f: Bytes, off: nat, data: Bytes, lsn: nat, recs: seq<Bytes>)
    requires HEADER_SIZE <= off <= |f| && off + |data| <= c.segmentSize && data == R.Frames(c.crc, lsn, recs)
    ensures var g := Overwrite(f, off, data);
            && SameOn(f, g, HEADER_SIZE, off) && FramesAt(c, g, off, lsn, recs)
            && HEADER_SIZE <= |g| && g[..HEADER_SIZE] == f[..HEADER_SIZE]
  {
    hide R.Frames;
  }

  /** The run becomes the old one plus the new records if and only if no stale record continues them. */
  lemma WriteOverExact(c: Env, sf: SegFile, recs: seq<Bytes>, data: Bytes)
    requires c.Valid() && HEADER_SIZE <= |sf.data|
    requires Sized(c, recs) && NextLsn(c, sf) + |recs| <= MAX_LSN + 1
    requires data == R.Frames(c.crc, NextLsn(c, sf), recs)
    requires RunOf(c, sf).end <= |sf.data| && RunOf(c, sf).end + |data| <= c.segmentSize
    ensures var off := RunOf(c, sf).end;
            var to := SegFile(sf.base, Overwrite(sf.data, off, data));
            var stale := Stale(c, sf.data, off + |data|, NextLsn(c, sf) + |recs|);
            && (RunOf(c, to).payloads == RunOf(c, sf).payloads + recs <==> !stale)
            && (!stale ==> RunOf(c, to).end == off + |data|)
            && (stale ==> NextLsn(c, to) > NextLsn(c, sf) + |recs|)
  {
    hide R.Frames, Overwrite, Sized, ScanAt;
    WriteOver(c, sf, recs, data);
    NilJoin(RunOf(c, sf).payloads + recs);
  }

  // ----- A whole commit -----

  /** The commit loop never looks at the segments in front of the active one. */
  lemma {:induction false} LoopFrame(c: Env, pre: Dir, s: Sys, budget: nat)
    requires Ready(c, s)
    ensures var w := s.(dir := pre + s.dir);
            && Ready(c, w)
            && var t := CommitLoop(c, s, budget);
            && CommitLoop(c, w, budget) == t.(dir := pre + t.dir)
    decreases |s.batch|, if s.writeOffset == HEADER_SIZE then 0 else 1
  {
    hide CommitLoop, Fit, Chunk, Sized, Overwrite, Fresh, Wrote, Rolled;
    var w := s.(dir := pre + s.dir);
    var k := Fit(Room(c, s), s.batch);
    if s.batch == [] {
      LoopEnds(c, s, budget);
      LoopEnds(c, w, budget);
    } else if k == 0 {
      LoopRolls(c, s, budget);
      LoopRolls(c, w, budget);
      RolledParts(c, s);
      RolledFrame(c, pre, s);
      if budget >= ROLL_CALLS {
        LoopFrame(c, pre, Rolled(c, s), budget - ROLL_CALLS);
      }
    } else {
      LoopWrites(c, s, k, budget);
      LoopWrites(c, w, k, budget);
      WroteParts(c, s, k);
      WroteFrame(c, pre, s, k);
      if budget >= WRITE_CALLS {
        LoopFrame(c, pre, Wrote(c, s, k), budget - WRITE_CALLS);
      }
    }
  }

  lemma RolledFrame(c: Env, pre: Dir, s: Sys)
    requires c.Valid() && s.durable < MAX_LSN
    ensures Rolled(c, s.(dir := pre + s.dir)) == Rolled(c, s).(dir := pre + Rolled(c, s).dir)
  {
    JoinAssoc(pre, s.dir, [Fresh(c, s.durable + 1)]);
  }

  lemma WroteFrame(c: Env, pre: Dir, s: Sys, k: nat)
    requires s.dir != [] && s.writeOffset <= |Active(s.dir).data| && k <= |s.batch|
    ensures var w := s.(dir := pre + s.dir);
            && Active(w.dir) == Active(s.dir) && Chunk(c, w, k) == Chunk(c, s, k)
            && Wrote(c, w, k) == Wrote(c, s, k).(dir := pre + Wrote(c, s, k).dir)
  {
    hide Overwrite, R.Frames;
    var d, n := pre + s.dir, |s.dir| - 1;
    assert d[..|d| - 1] == pre + s.dir[..n];
    var data := Overwrite(Active(s.dir).data, s.writeOffset, Chunk(c, s, k));
    JoinAssoc(pre, s.dir[..n], [SegFile(Active(s.dir).base, data)]);
  }

  /** The active segment with the prefix of the batch that fits written over whatever was there. */
  function Filled(c: Env, s: Sys): (sf: SegFile)
    requires Ready(c, s)
    ensures sf.base == Active(s.dir).base
  {
    SegFile(Active(s.dir).base, Overwrite(Active(s.dir).data, s.writeOffset, Chunk(c, s, Fit(Room(c, s), s.batch))))
  }

  /** A commit that fits the active segment ends there. */
  lemma LoopFills(c: Env, s: Sys, budget: nat)
    requires Ready(c, s) && !CommitLoop(c, s, budget).poisoned && Fit(Room(c, s), s.batch) == |s.batch|
    ensures CommitLoop(c, s, budget).dir == Replace(s.dir, Filled(c, s).data)
    ensures CommitLoop(c, s, budget) == s.(dir := Replace(s.dir, Filled(c, s).data), writeOffset := FillEnd(c, s),
                                           durable := s.durable + |s.batch|, batch := [],
                                           observed := CommitLoop(c, s, budget).observed)
  {
    hide CommitLoop, Fit, Chunk, Sized, Overwrite, Ready;
    ReadyParts(c, s);
    var k := |s.batch|;
    if s.batch == [] {
      LoopEnds(c, s, budget);
      NothingWritten(c, s);
    } else {
      LoopWrites(c, s, k, budget);
      LoopEnds(c, Wrote(c, s, k), budget - WRITE_CALLS);
    }
  }

  /** A commit that does not fit fills the active segment, rolls, and goes on from there. */
  lemma LoopSeals(c: Env, s: Sys, budget: nat) returns (one: Sys, b: nat)
    requires Ready(c, s) && !s.poisoned && s.inflight == Nothing
    requires !CommitLoop(c, s, budget).poisoned && Fit(Room(c, s), s.batch) < |s.batch|
    ensures var k := Fit(Room(c, s), s.batch);
            && one.dir == Replace(s.dir, Filled(c, s).data)
            && one.batch == s.batch[k..] && one.durable == s.durable + k && one.last == s.last
            && !one.poisoned && one.inflight == Nothing
            && (k == 0 ==> s.writeOffset != HEADER_SIZE)
    ensures c.Valid() && one.durable < MAX_LSN && Ready(c, Rolled(c, one))
    ensures CommitLoop(c, s, budget) == CommitLoop(c, Rolled(c, one), b)
  {
    hide CommitLoop, Fit, Chunk, Sized, Overwrite, Ready, Rolled;
    ReadyParts(c, s);
    var k := Fit(Room(c, s), s.batch);
    one, b := s, budget;
    if k == 0 {
      NothingWritten(c, s);
      assert s.batch[0..] == s.batch;
      LoopRolls(c, s, budget);
    } else {
      LoopWrites(c, s, k, budget);
      one, b := Wrote(c, s, k), budget - WRITE_CALLS;
      NothingFits(c, s, one, k);
    }
    LoopRolls(c, one, b);
    b := b - ROLL_CALLS;
  }

  /** What such a commit adds after the sealed segments: a log of its own, holding the rest of the batch. */
  lemma FreshPart(c: Env, one: Sys, b: nat) returns (tail: Dir)
    requires c.Valid() && one.durable < MAX_LSN && Ready(c, Rolled(c, one))
    requires !CommitLoop(c, Rolled(c, one), b).poisoned
    requires !one.poisoned && one.inflight == Nothing && one.last == one.durable + |one.batch|
    ensures var t := CommitLoop(c, Rolled(c, one), b);
            && t.dir == one.dir + tail && t.durable == t.last == one.last
            && t.batch == [] && t.inflight == Nothing
            && tail != [] && t.writeOffset == RunOf(c, Active(tail)).end <= c.segmentSize
            && t.durable + 1 == NextLsn(c, Active(tail)) <= MAX_LSN + 1
    ensures Tight(c, tail) && tail != [] && tail[0].base == one.durable + 1 && Log(c, tail) == one.batch
  {
    hide CommitLoop, Tight, RunOf, Log, Fresh, Ready, Sized, CommitEffect, Inv;
    var u := Rolled(c, one).(dir := [Fresh(c, one.durable + 1)]);
    FreshInv(c, one, u);
    LoopFrame(c, one.dir, u, b);
    assert u.(dir := one.dir + u.dir) == Rolled(c, one);
    CommitRuns(c, u, b);
    var t := CommitLoop(c, u, b);
    tail := t.dir;
    WholeEffect(c, u, t);
  }

  /** A commit from an empty log that leaves nothing staged made the whole batch its log. */
  lemma WholeEffect(c: Env, u: Sys, t: Sys)
    requires CommitEffect(c, u, t) && t.batch == [] && Log(c, u.dir) == [] && u.last == u.durable + |u.batch|
    ensures Log(c, t.dir) == u.batch && t.durable == t.last == u.last
    ensures Tight(c, t.dir) && t.dir != [] && u.dir != [] && t.dir[0].base == u.dir[0].base
    ensures t.writeOffset == RunOf(c, Active(t.dir)).end <= c.segmentSize
    ensures t.durable + 1 == NextLsn(c, Active(t.dir)) && t.last <= MAX_LSN
  {
    hide Tight, RunOf, Log, Sized, Watermarks, Inv;
    InvTight(c, t);
    NilJoin(u.batch);
    assert u.batch[..|u.batch|] == u.batch;
  }

  lemma FreshInv(c: Env, one: Sys, u: Sys)
    requires c.Valid() && one.durable < MAX_LSN && Ready(c, Rolled(c, one))
    requires !one.poisoned && one.inflight == Nothing && one.last == one.durable + |one.batch|
    requires u == Rolled(c, one).(dir := [Fresh(c, one.durable + 1)])
    ensures Inv(c, u) && Ready(c, u) && Log(c, u.dir) == []
  {
    hide RunOf, Log, Fresh, ZeroTail, Chain, Sized;
    FreshShape(c, one.durable + 1);
    FreshAlone(c, one.durable + 1);
  }

  lemma InvTight(c: Env, s: Sys)
    requires Inv(c, s)
    ensures Tight(c, s.dir) && s.dir != []
    ensures s.writeOffset == RunOf(c, Active(s.dir)).end <= c.segmentSize
    ensures s.durable + 1 == NextLsn(c, Active(s.dir)) && s.last == s.durable + |s.batch| <= MAX_LSN
  {
    hide Tight, RunOf, Pending;
    InvDir(c, s);
  }

  /** Two chains joined are a chain if and only if the first links to the second. */
  lemma ChainJoin(c: Env, a: Dir, b: Dir)
    requires Chain(c, a) && Chain(c, b)
    ensures Chain(c, a + b) <==> LinkOk(c, Active(a), b[0])
    ensures Active(a + b) == Active(b)
  {
    hide HeaderOk, LinkOk;
    var d, n := a + b, |a| - 1;
    assert d[n] == Active(a) && d[n + 1] == b[0];
    if LinkOk(c, Active(a), b[0]) {
      forall i | 0 <= i < |d| - 1 ensures LinkOk(c, d[i], d[i + 1]) {
        if i < n {
          assert LinkOk(c, a[i], a[i + 1]);
        } else if i > n {
          assert LinkOk(c, b[i - |a|], b[i - |a| + 1]);
        }
      }
    }
  }

  /** A directory that ends in the writer's shape opens if and only if it is a chain, and then untouched. */
  lemma OpensIffChain(c: Env, d: Dir, seed: nat)
    requires c.Valid() && 1 <= seed <= MAX_LSN && d != [] && HeaderOk(c, Active(d)) && ZeroTail(c, Active(d))
    ensures OpenDir(c, d, seed).Opened? <==> Chain(c, d)
    ensures Chain(c, d) ==> OpenDir(c, d, seed).dir == d
  {
    hide OpenDir, Chain, ZeroTail, RunOf, Discard, HeaderOk;
    DiscardHeader(c, d);
    if OpenDir(c, d, seed).Opened? {
      OpenedFrom(c, d, seed);
    }
    if Chain(c, d) {
      ReopenTight(c, d, seed);
    }
  }

  /** Where the prefix of the batch that fits will end. */
  function FillEnd(c: Env, s: Sys): (x: nat)
    requires Ready(c, s)
  {
    s.writeOffset + |Chunk(c, s, Fit(Room(c, s), s.batch))|
  }

  /**
    The exact condition, on bytes that are there before the commit. With `x` the place where the prefix
    that fits will end: if the whole batch fits, no stale record continues it at `x`, and what lies there
    is a clean end or a tail that recovery may truncate; if the commit has to roll, a clean end at `x`.
   */
  ghost predicate Safe(c: Env, s: Sys)
    requires Ready(c, s)
  {
    var k := Fit(Room(c, s), s.batch);
    var f, x, want := Active(s.dir).data, FillEnd(c, s), s.durable + 1 + k;
    if k == |s.batch| then
      var v := Judge(c, f, x, want, true);
      !Stale(c, f, x, want) && (v.Clean? || v.Truncated?)
    else ScanAt(c, f, x).CleanEnd?
  }

  /** The filled segment's run, and the verdict at its end. */
  lemma FilledRun(c: Env, s: Sys)
    requires Placed(c, s)
    ensures var k := Fit(Room(c, s), s.batch);
            var sf, to := Active(s.dir), Filled(c, s);
            var x, want := FillEnd(c, s), s.durable + 1 + k;
            var stale := Stale(c, sf.data, x, want);
            && (RunOf(c, to).payloads == RunOf(c, sf).payloads + s.batch[..k] <==> !stale)
            && (!stale ==> RunOf(c, to).end == x && NextLsn(c, to) == want)
            && (stale ==> NextLsn(c, to) > want)
            && ScanAt(c, to.data, x) == ScanAt(c, sf.data, x)
            && Judge(c, to.data, x, want, true) == Judge(c, sf.data, x, want, true)
            && HEADER_SIZE <= |to.data| && to.data[..HEADER_SIZE] == sf.data[..HEADER_SIZE]
  {
    hide R.Frames, Overwrite, ScanAt, DenseRun, Judge, Chain, Fit, Stale;
    ReadyParts(c, s);
    var k := Fit(Room(c, s), s.batch);
    var sf, recs := Active(s.dir), s.batch[..k];
    FitSpec(c.crc, s.durable + 1, Room(c, s), s.batch);
    ChainHeader(c, s.dir);
    WriteOverExact(c, sf, recs, Chunk(c, s, k));
    WriteOver(c, sf, recs, Chunk(c, s, k));
    ScanBehind(c, sf.data, s.writeOffset, Chunk(c, s, k), FillEnd(c, s));
    JudgeBehind(c, sf.data, s.writeOffset, Chunk(c, s, k), s.durable + 1 + k, true);
  }

  /**
    When a commit keeps its promise. Take a handle on any directory that opens, with any bytes behind
    its records, any staged batch, and a commit in which no call fails. The log opens again with exactly
    the old records and the committed ones if and only if the state before the commit was Safe.
   */
  lemma CommitReopens(c: Env, s: Sys, budget: nat, seed: nat)
    requires Placed(c, s) && 1 <= seed <= MAX_LSN && !CommitLoop(c, s, budget).poisoned
    ensures var t := CommitLoop(c, s, budget);
            var r := OpenDir(c, t.dir, seed);
            && t.durable == s.last
            && (r.Opened? && Log(c, r.dir) == Log(c, s.dir) + s.batch <==> Safe(c, s))
            && (Fit(Room(c, s), s.batch) < |s.batch| ==> (r.Opened? <==> Safe(c, s)))
  {
    hide CommitLoop, Fit, Ready, OpenDir, Log, Chain, Safe, Placed;
    PlacedReady(c, s);
    if Fit(Room(c, s), s.batch) == |s.batch| {
      LoopFills(c, s, budget);
      FilledReopens(c, s, seed);
    } else {
      SealedReopens(c, s, budget, seed);
    }
  }

  /**
    The same for any sequence of commits, none of which fails: the log opens again with exactly the old
    records and all the committed ones if and only if committing them all at once would have been Safe.
   */
  lemma CommitsReopen(c: Env, s: Sys, batches: seq<seq<Bytes>>, budgets: seq<nat>, seed: nat)
    requires Placed(c, s) && s.batch == [] && 1 <= seed <= MAX_LSN
    requires |budgets| == |batches| && Ready(c, Staged(s, Flatten(batches)))
    requires !CommitAll(c, s, batches, budgets).poisoned
    ensures var r := OpenDir(c, CommitAll(c, s, batches, budgets).dir, seed);
            r.Opened? && Log(c, r.dir) == Log(c, s.dir) + Flatten(batches) <==> Safe(c, Staged(s, Flatten(batches)))
  {
    hide CommitLoop, CommitAll, Fit, OpenDir, Log, Chain, Safe, Flatten, RunOf;
    var all := Staged(s, Flatten(batches));
    NilJoin(Flatten(batches));
    var budget := ONE_RECORD * |all.batch|;
    EnoughCalls(c, all, budget);
    CommitsAreOne(c, s, batches, budgets, budget);
    CommitReopens(c, all, budget, seed);
  }

  lemma PlacedReady(c: Env, s: Sys)
    requires Placed(c, s)
    ensures Ready(c, s) && s.writeOffset <= c.segmentSize && s.last == s.durable + |s.batch|
    ensures Chain(c, s.dir) && s.dir != [] && !s.poisoned && s.inflight == Nothing && c.Valid()
  {
    hide RunOf, Chain;
  }

  lemma FilledReopens(c: Env, s: Sys, seed: nat)
    requires Placed(c, s) && 1 <= seed <= MAX_LSN && Fit(Room(c, s), s.batch) == |s.batch|
    ensures var r := OpenDir(c, Replace(s.dir, Filled(c, s).data), seed);
            r.Opened? && Log(c, r.dir) == Log(c, s.dir) + s.batch <==> Safe(c, s)
  {
    hide Fit, Ready, OpenDir, Log, Chain, Judge, DenseRun, Stale, ScanAt, FillEnd, Filled, Placed, HeaderOk, Overwrite;
    PlacedReady(c, s);
    var to, x, want := Filled(c, s), FillEnd(c, s), s.durable + 1 + |s.batch|;
    var d := Replace(s.dir, to.data);
    FilledRun(c, s);
    assert s.batch[..|s.batch|] == s.batch;
    ChainReplace(c, s.dir, to.data);
    ChainOpens(c, d, seed);
    FilledLog(c, s, d, to);
    ChainBase(c, d);
    if Conclude(c, d).Opened? {
      Concluded(c, d);
    }
  }

  /** The log grew by the batch exactly if the active segment's run did. */
  lemma FilledLog(c: Env, s: Sys, d: Dir, to: SegFile)
    requires s.dir != [] && Log(c, d) == Log(c, s.dir[..|s.dir| - 1]) + RunOf(c, to).payloads
    ensures Log(c, d) == Log(c, s.dir) + s.batch
            <==> RunOf(c, to).payloads == RunOf(c, Active(s.dir)).payloads + s.batch
  {
    hide RunOf, Log;
    LogSplit(c, s.dir);
    var pre, was := Log(c, s.dir[..|s.dir| - 1]), RunOf(c, Active(s.dir)).payloads;
    JoinAssoc(pre, was, s.batch);
    Cancel(pre, RunOf(c, to).payloads, was + s.batch);
  }

  lemma Cancel<T>(pre: seq<T>, a: seq<T>, b: seq<T>)
    ensures pre + a == pre + b <==> a == b
  {
    assert (pre + a)[|pre|..] == a && (pre + b)[|pre|..] == b;
  }

  lemma SealedReopens(c: Env, s: Sys, budget: nat, seed: nat)
    requires Placed(c, s) && 1 <= seed <= MAX_LSN && !CommitLoop(c, s, budget).poisoned
    requires Fit(Room(c, s), s.batch) < |s.batch|
    ensures var t := CommitLoop(c, s, budget);
            var r := OpenDir(c, t.dir, seed);
            && t.durable == s.last
            && (r.Opened? <==> Safe(c, s))
            && (r.Opened? ==> Log(c, r.dir) == Log(c, s.dir) + s.batch)
  {
    hide CommitLoop, Fit, Ready, OpenDir, Log, Chain, RunOf, ScanAt, FillEnd, Filled;
    hide Placed, HeaderOk, Overwrite, LinkOk, ZeroTail, Rolled;
    PlacedReady(c, s);
    var k := Fit(Room(c, s), s.batch);
    var to := Filled(c, s);
    var one, b := LoopSeals(c, s, budget);
    var tail := FreshPart(c, one, b);
    FilledRun(c, s);
    ChainReplace(c, s.dir, to.data);
    ChainJoin(c, one.dir, tail);
    ChainBase(c, tail);
    OpensIffChain(c, one.dir + tail, seed);
    SealedLinks(c, s, tail[0]);
    if LinkOk(c, to, tail[0]) {
      LogJoin(c, one.dir, tail);
      LogSplit(c, s.dir);
      JoinAssoc(Log(c, s.dir[..|s.dir| - 1]), RunOf(c, Active(s.dir)).payloads, s.batch[..k]);
      JoinAssoc(Log(c, s.dir), s.batch[..k], s.batch[k..]);
      assert s.batch[..k] + s.batch[k..] == s.batch;
    }
  }

  /** The filled segment links to the one rolled to if and only if a clean end was waiting there. */
  lemma SealedLinks(c: Env, s: Sys, next: SegFile)
    requires Placed(c, s) && Fit(Room(c, s), s.batch) < |s.batch|
    requires next.base == s.durable + 1 + Fit(Room(c, s), s.batch)
    ensures LinkOk(c, Filled(c, s), next) <==> Safe(c, s)
    ensures LinkOk(c, Filled(c, s), next) ==>
              RunOf(c, Filled(c, s)).payloads == RunOf(c, Active(s.dir)).payloads + s.batch[..Fit(Room(c, s), s.batch)]
  {
    hide Fit, Chain, DenseRun, ScanAt, Filled, Judge, Overwrite, R.Frames;
    FilledRun(c, s);
    FitFacts(c, s);
  }

  // ----- A failed sync, a restart, and a roll -----

  /** What a power loss leaves after a commit on unsynced bytes: a write to their file syncs them, a roll does not. */
  function OnDisk(c: Env, s: Sys, h: Sys, t: Sys): (d: Dir)
    requires Ready(c, h) && |h.dir| <= |t.dir|
  {
    if Fit(Room(c, h), h.batch) > 0 then t.dir else s.dir + t.dir[|h.dir|..]
  }

  /**
    Why it matters that open does not sync. Let a sync fail with the whole write in the page cache, let
    the process reopen and commit a batch, without failure; the commit reports its records durable. If a
    power loss follows, the log opens if and only if the commit's first call wrote to the old segment,
    for its sync took the unsynced bytes along. If it had to roll at once, no call ever synced that file:
    it is left without those records in front of the new segments, and open refuses the log.
   */
  lemma UnsyncedThenCommit(c: Env, s: Sys, batch: seq<Bytes>, budget: nat, seed: nat)
    requires Inv(c, s) && s.inflight.Writing? && s.dir != [] && Ready(c, s) && 1 <= seed <= MAX_LSN
    requires s.inflight.off <= |Active(s.dir).data| && Fit(Room(c, s), s.batch) > 0
    requires var r := OpenDir(c, Settle(c, s, |s.inflight.data|), seed);
             && r.Opened?
             && var h := Staged(Handle(r), batch);
             && Ready(c, h) && batch != [] && !CommitLoop(c, h, budget).poisoned
    ensures var h := Staged(Handle(OpenDir(c, Settle(c, s, |s.inflight.data|), seed)), batch);
            var t := CommitLoop(c, h, budget);
            && t.durable == h.last == s.durable + Fit(Room(c, s), s.batch) + |batch|
            && |h.dir| <= |t.dir|
            && (OpenDir(c, OnDisk(c, s, h, t), seed).Opened? <==> Fit(Room(c, h), h.batch) > 0)
  {
    hide Inv, OpenDir, Settle, CommitLoop, Fit, Ready, Chain, ZeroTail, HeaderOk, RunOf;
    hide Rolled, Filled, Sized, CommitEffect;
    ReadyParts(c, s);
    var cached := Settle(c, s, |s.inflight.data|);
    WholeWriteOpens(c, s, |s.inflight.data|, seed);
    NilJoin(batch);
    var h := Staged(Handle(OpenDir(c, cached, seed)), batch);
    ReadyParts(c, h);
    if Fit(Room(c, h), h.batch) > 0 {
      StagedInv(c, Handle(OpenDir(c, cached, seed)), h);
      CommitRuns(c, h, budget);
      WholeCommit(c, h, CommitLoop(c, h, budget), seed);
    } else {
      var one, b := LoopSeals(c, h, budget);
      FilledNothing(c, h);
      var tail := FreshPart(c, one, b);
      assert (cached + tail)[|cached|..] == tail;
      NotLinked(c, s, tail, seed);
    }
  }

  lemma StagedInv(c: Env, s: Sys, h: Sys)
    requires Inv(c, s) && s.batch == [] && s.inflight == Nothing && Ready(c, h)
    requires h == s.(batch := h.batch, last := s.last + |h.batch|)
    ensures Inv(c, h)
  {
    hide Tight, RunOf;
  }

  lemma WholeCommit(c: Env, h: Sys, t: Sys, seed: nat)
    requires CommitEffect(c, h, t) && t.batch == [] && h.last == h.durable + |h.batch| && 1 <= seed <= MAX_LSN
    ensures t.durable == h.last && |h.dir| <= |t.dir| && OpenDir(c, t.dir, seed).Opened?
  {
    hide RunOf, Log, Watermarks, OpenDir, Tight;
    InvTight(c, t);
    ReopenTight(c, t.dir, seed);
  }

  lemma FilledNothing(c: Env, s: Sys)
    requires Ready(c, s) && Fit(Room(c, s), s.batch) == 0
    ensures Replace(s.dir, Filled(c, s).data) == s.dir && s.batch[0..] == s.batch
  {
    hide Fit;
    NothingWritten(c, s);
  }

  /** Segments that start behind a gap do not open. */
  lemma NotLinked(c: Env, s: Sys, tail: Dir, seed: nat)
    requires Inv(c, s) && s.dir != [] && 1 <= seed <= MAX_LSN
    requires Tight(c, tail) && tail != [] && tail[0].base > s.durable + 1
    ensures OpenDir(c, s.dir + tail, seed).Refused?
  {
    hide OpenDir, Chain, ZeroTail, HeaderOk, RunOf, Inv, SealedOk;
    InvTight(c, s);
    InvReady(c, s);
    ChainBase(c, tail);
    ChainJoin(c, s.dir, tail);
    OpensIffChain(c, s.dir + tail, seed);
  }

  // ----- Zeroing that did not finish -----

  /**
    A crash while recovery zeroes a torn tail, front to back, after `z` bytes. The next open takes the log
    as clean at the same place, with the same records and no byte changed, if and only if the record
    header there is zero by now; so always once 20 bytes are zeroed. What lay behind them is still there,
    and whether later commits are safe is what CommitReopens says of the handle.
   */
  lemma InterruptedZeroing(c: Env, d: Dir, z: nat, seed: nat)
    requires c.Valid() && 1 <= seed <= MAX_LSN && Chain(c, d) && d != []
    requires Active(d).base >= 1 && Classify(c, Active(d).data, Active(d).base, true).Truncated?
    ensures var f := Active(d).data;
            var v := Classify(c, f, Active(d).base, true);
            && v.offset <= |f|
            && var g := Overwrite(f, v.offset, Zeros(z));
            && (v.offset + 20 <= |g| ==>
                  (OpenDir(c, Replace(d, g), seed) == Opened(Replace(d, g), v.offset, v.maxLsn, CleanTail)
                   <==> AllZero(g[v.offset..v.offset + 20])))
            && (z >= 20 ==>
                  && OpenDir(c, Replace(d, g), seed) == Opened(Replace(d, g), v.offset, v.maxLsn, CleanTail)
                  && Log(c, Replace(d, g)) == Log(c, d))
  {
    hide ScanAt, DenseRun, Continues, ZeroCut, Overwrite, Chain, OpenDir, Log, HeaderOk;
    var sf := Active(d);
    var v := Classify(c, sf.data, sf.base, true);
    ChainHeader(c, d);
    TruncationInFile(c, sf.data, sf.base);
    NotCleanHasRoom(c, sf.data, v.offset);
    var g := Overwrite(sf.data, v.offset, Zeros(z));
    ZeroedRun(c, sf, v.offset, z);
    ChainReplace(c, d, g);
    ChainBase(c, Replace(d, g));
    ChainOpens(c, Replace(d, g), seed);
    LogSplit(c, d);
  }

  lemma NotCleanHasRoom(c: Env, f: Bytes, x: nat)
    ensures !ScanAt(c, f, x).CleanEnd? ==> x + 20 <= c.segmentSize
  {
  }

  /** The run of a file zeroed from the end of its run on, for `z` bytes. */
  lemma ZeroedRun(c: Env, sf: SegFile, x: nat, z: nat)
    requires HEADER_SIZE <= |sf.data| && x == RunOf(c, sf).end <= |sf.data| && x + 20 <= c.segmentSize
    ensures var g := Overwrite(sf.data, x, Zeros(z));
            var more := DenseRun(c, g, x, NextLsn(c, sf));
            && RunOf(c, SegFile(sf.base, g)) == Run(RunOf(c, sf).payloads + more.payloads, more.end)
            && HEADER_SIZE <= |g| && g[..HEADER_SIZE] == sf.data[..HEADER_SIZE]
            && (x + 20 <= |g| ==> (ScanAt(c, g, x).CleanEnd? <==> AllZero(g[x..x + 20])))
            && (z >= 20 ==> x + 20 <= |g| && AllZero(g[x..x + 20]))
            && (ScanAt(c, g, x).CleanEnd? ==> more == Run([], x) && RunOf(c, SegFile(sf.base, g)) == RunOf(c, sf))
  {
    hide DenseRun, Overwrite;
    var g := Overwrite(sf.data, x, Zeros(z));
    assert SameOn(sf.data, g, HEADER_SIZE, x);
    RunExtends(c, sf.data, g, HEADER_SIZE, sf.base);
    if z >= 20 {
      assert g[x..x + z] == Zeros(z);
      SliceOfSlice(g, x, x + z, 0, 20);
      assert g[x..x + 20] == Zeros(z)[0..20] == Zeros(20);
    }
    if ScanAt(c, g, x).CleanEnd? {
      RunStops(c, g, x, NextLsn(c, sf));
      NilJoin(RunOf(c, sf).payloads);
    }
  }

  // ----- A clean open over stale bytes: a concrete run -----

  /** A header, room for one small record, a stale record numbered one past the base, zeros. */
  function StaleFile(c: Env, base: u64, q: Bytes): (sf: SegFile)
    requires |q| == 4
    ensures sf.base == base && |sf.data| == 200
  {
    SegFile(base, Header(c, base) + Zeros(24) + R.Frame(c.crc, base + 1, q) + Zeros(88))
  }

  lemma StaleBytes(c: Env, base: u64, q: Bytes)
    requires Small(c) && base >= 1 && |q| == 4
    ensures var f := StaleFile(c, base, q).data;
            && f[..HEADER_SIZE] == Header(c, base) && HeaderOk(c, StaleFile(c, base, q))
            && ZeroOn(f, 64, 88) && f[88..112] == R.Frame(c.crc, base + 1, q) && ZeroOn(f, 112, 200)
  {
    hide R.Frame, Header, DecodeHeader;
    HeaderRoundTrip(c, base);
    var f := StaleFile(c, base, q).data;
    assert f[..HEADER_SIZE] == Header(c, base);
    assert f[88..112] == R.Frame(c.crc, base + 1, q);
  }

  /**
    A record that was never committed comes back. The directory opens clean and empty; one record is
    committed without any failure under LSN `base`; and now the log holds two, the stale one after it.
   */
  lemma CleanOpenResurrects(c: Env, base: u64, p: Bytes, q: Bytes)
    requires Small(c) && 1 <= base < MAX_LSN && |p| == 4 && |q| == 4
    ensures var d := [StaleFile(c, base, q)];
            && OpenDir(c, d, 1) == Opened(d, HEADER_SIZE, base - 1, CleanTail) && Log(c, d) == []
            && var s := Sys(d, Nothing, HEADER_SIZE, base, base - 1, [p], false, []);
            && Placed(c, s) && !Safe(c, s)
            && var t := CommitLoop(c, s, WRITE_CALLS);
            && !t.poisoned && t.durable == base && Log(c, t.dir) == [p, q]
  {
    hide R.Frame, R.Frames, Header, DecodeHeader, ScanAt, DenseRun, CommitLoop, StaleFile, Conclude, Overwrite, ZeroOn;
    var sf := StaleFile(c, base, q);
    var d := [sf];
    StaleBytes(c, base, q);
    StaleScans(c, sf, base, q);
    assert Chain(c, d);
    StaleOpens(c, sf);
    LogOne(c, sf);
    var s := Sys(d, Nothing, HEADER_SIZE, base, base - 1, [p], false, []);
    FitOne(p);
    R.FramesOne(c.crc, base, p);
    assert s.batch[..1] == [p];
    LoopWrites(c, s, 1, WRITE_CALLS);
    LoopEnds(c, Wrote(c, s, 1), 0);
    LoopFills(c, s, WRITE_CALLS);
    WriteOver(c, sf, [p], R.Frames(c.crc, base, [p]));
    var to := Filled(c, s);
    assert Replace(d, to.data) == [to];
    LogOne(c, to);
    assert [] + [p] + [q] == [p, q];
  }

  lemma FitOne(p: Bytes)
    requires |p| == 4
    ensures R.FramedSize(4) == 24 && Fit(136, [p]) == 1
  {
    assert [p][1..] == [];
  }

  lemma StaleScans(c: Env, sf: SegFile, base: u64, q: Bytes)
    requires Small(c) && 1 <= base < MAX_LSN && |q| == 4 && |sf.data| == 200 && sf.base == base
    requires ZeroOn(sf.data, 64, 88) && ZeroOn(sf.data, 112, 200) && sf.data[88..112] == R.Frame(c.crc, base + 1, q)
    ensures RunOf(c, sf) == Run([], HEADER_SIZE) && ScanAt(c, sf.data, HEADER_SIZE).CleanEnd?
    ensures Stale(c, sf.data, 88, base + 1)
    ensures DenseRun(c, sf.data, 88, base + 1) == Run([q], 112)
  {
    hide R.Frame, DenseRun;
    assert ScanAt(c, sf.data, HEADER_SIZE).CleanEnd?;
    RunStops(c, sf.data, HEADER_SIZE, base);
    ScanFrame(c, sf.data, 88, base + 1, q);
    RunStep(c, sf.data, 88, base + 1, q);
    RunInZeros(c, sf.data, 112, base + 2, 112);
    NilJoin([q]);
  }

  /** One segment with a valid header and a clean end right after it opens as an empty log. */
  lemma StaleOpens(c: Env, sf: SegFile)
    requires c.Valid() && Chain(c, [sf]) && sf.base >= 1
    requires RunOf(c, sf) == Run([], HEADER_SIZE) && ScanAt(c, sf.data, HEADER_SIZE).CleanEnd?
    ensures OpenDir(c, [sf], 1) == Opened([sf], HEADER_SIZE, sf.base - 1, CleanTail)
  {
    hide ScanAt, DenseRun, OpenDir, DecodeHeader;
    ChainBase(c, [sf]);
    ChainOpens(c, [sf], 1);
  }
}
