/** Short runs from a cold start that reach the corners the theorems speak of. */
module Witness {
  import opened ByteString
  import opened Config
  import opened Segment
  import opened Recovery
  import opened Directory
  import opened Open
  import opened Writer
  import opened Invariant
  import opened Crash
  import opened Runs
  import opened Damage
  import opened Grouping
  import opened Leftover
  import R = Record

  /** A cold start, one record appended, and its commit failing in the write or in the sync. */
  function Failed(c: Env, base: u64, p: Bytes): (s: Sys)
    requires c.Valid() && base >= 1
  {
    Sys([Fresh(c, base)], Writing(HEADER_SIZE, R.Frame(c.crc, base, p)), HEADER_SIZE, base, base - 1, [p], true, [])
  }

  lemma FirstCommit(c: Env, base: u64, p: Bytes, b: nat)
    requires c.Valid() && base >= 1 && |p| <= c.maxRecordSize && b < WRITE_CALLS
    ensures var s := Sys([Fresh(c, base)], Nothing, HEADER_SIZE, base, base - 1, [p], false, []);
            && Ready(c, s) && Fit(Room(c, s), s.batch) == 1
            && Commit(c, s, b) == (Failed(c, base, p), Some(if b == 0 then IoFailed else FsyncFailed))
  {
    hide Fresh, R.Frame, CommitLoop, CommitError;
    var s := Sys([Fresh(c, base)], Nothing, HEADER_SIZE, base, base - 1, [p], false, []);
    assert [p][1..] == [] && [p][..1] == [p];
    R.FramesOne(c.crc, base, p);
    LoopWrites(c, s, 1, b);
  }

  /** The run gets there, and goes on from there with whatever follows. */
  lemma FirstWrite(c: Env, base: u64, p: Bytes, b: nat, rest: seq<Op>)
    requires c.Valid() && base >= 1 && |p| <= c.maxRecordSize && b < WRITE_CALLS
    ensures var w := Live(Failed(c, base, p), Ledger(base, [], 0));
            var ops := [DoAppend(p), DoCommit(b)] + rest;
            && Good(c, Start(c, base)) && Good(c, w)
            && (AllFair(c, w, rest) ==>
                  AllFair(c, Start(c, base), ops) && Runs.Run(c, Start(c, base), ops) == Runs.Run(c, w, rest))
  {
    hide Fresh, Inv, Faithful, Ready, Commit, EmbeddedFrame, TearVisible, R.Frame;
    StartGood(c, base);
    FirstCommit(c, base, p, b);
    var ops := [DoAppend(p), DoCommit(b)] + rest;
    assert [] + [p] == [p];
    var s := Sys([Fresh(c, base)], Nothing, HEADER_SIZE, base, base - 1, [p], false, []);
    var mid := Live(s, Ledger(base, [], 0));
    InvReady(c, Start(c, base).sys);
    StepGood(c, Start(c, base), ops[0]);
    assert Step(c, Start(c, base), ops[0]) == mid;
    assert ops[1..][0] == DoCommit(b) && ops[1..][1..] == rest;
    StepGood(c, mid, DoCommit(b));
    assert Step(c, mid, DoCommit(b)) == Live(Failed(c, base, p), Ledger(base, [], 0)) by {
      assert [p][..0] == [];
    }
  }

  // ----- A failed sync, then a restart -----

  /**
    The report of open is not always durable: append one record, let the sync of its commit fail, and
    reopen without a power loss. Open reports the record; after a power loss it is gone.
   */
  lemma UnsyncedReached(c: Env, base: u64, p: Bytes, seed: nat)
    requires c.Valid() && base >= 1 && |p| <= c.maxRecordSize && 1 <= seed <= MAX_LSN
    ensures var ops := [DoAppend(p), DoCommit(1)];
            && Good(c, Start(c, base)) && AllFair(c, Start(c, base), ops)
            && var w := Runs.Run(c, Start(c, base), ops);
            && w.Live? && w.sys.inflight.Writing? && w.sys.dir != []
            && w.sys.inflight.off <= |Active(w.sys.dir).data|
            && var n := |w.sys.inflight.data|;
            && OpenDir(c, Settle(c, w.sys, n), seed).Opened? && OpenDir(c, Settle(c, w.sys, n), seed).last == base
            && OpenDir(c, w.sys.dir, seed).Opened? && OpenDir(c, w.sys.dir, seed).last == base - 1
  {
    hide Fresh, Inv, OpenDir, Settle, Faithful, Fit, Ready, R.Frame, Visible;
    var s := Failed(c, base, p);
    FirstWrite(c, base, p, 1, []);
    assert [DoAppend(p), DoCommit(1)] + [] == [DoAppend(p), DoCommit(1)];
    FirstCommit(c, base, p, 1);
    InvReady(c, s);
    WholeIsVisible(c, base, p);
    UnsyncedIsReported(c, s, |s.inflight.data|, seed);
  }

  lemma WholeIsVisible(c: Env, base: u64, p: Bytes)
    requires c.Valid() && base >= 1 && |p| <= c.maxRecordSize
    ensures var s := Failed(c, base, p);
            Fit(Room(c, s), s.batch) == 1 && TearVisible(c, s, |s.inflight.data|)
  {
    hide Fresh, R.Frame, Visible;
    assert [p][1..] == [] && [p][..1] == [p];
  }

  /**
    And it can cost the whole log: the record that was not synced nearly fills the segment, so the next
    commit rolls. It succeeds; after a power loss the new segment stands behind a gap.
   */
  lemma UnsyncedRollReached(c: Env, base: u64, p: Bytes, q: Bytes, seed: nat)
    requires Small(c) && 1 <= base < MAX_LSN && |p| == 100 && |q| <= 100 && 1 <= seed <= MAX_LSN
    ensures var s := Failed(c, base, p);
            && Inv(c, s) && Ready(c, s)
            && var cached := Settle(c, s, |s.inflight.data|);
            && OpenDir(c, cached, seed).Opened?
            && var h := Staged(Handle(OpenDir(c, cached, seed)), [q]);
            && Ready(c, h)
            && var t := CommitLoop(c, h, ONE_RECORD);
            && !t.poisoned && t.durable == base + 1 && |h.dir| <= |t.dir|
            && OpenDir(c, OnDisk(c, s, h, t), seed).Refused?
  {
    hide Fresh, Inv, OpenDir, Settle, Fit, Ready, R.Frame, CommitLoop;
    var s := Failed(c, base, p);
    FirstWrite(c, base, p, 1, []);
    FirstCommit(c, base, p, 1);
    InvReady(c, s);
    ReadyParts(c, s);
    var cached := Settle(c, s, |s.inflight.data|);
    WholeWriteOpens(c, s, |s.inflight.data|, seed);
    OpenedIsPlaced(c, cached, seed, [q]);
    var h := Staged(Handle(OpenDir(c, cached, seed)), [q]);
    assert [] + [q] == [q];
    PlacedReady(c, h);
    NearlyFull(c, base, p, h, seed);
    EnoughCalls(c, h, ONE_RECORD);
    UnsyncedThenCommit(c, s, [q], ONE_RECORD, seed);
  }

  /** 16 bytes are left, and no frame has fewer than 24. */
  lemma NearlyFull(c: Env, base: u64, p: Bytes, h: Sys, seed: nat)
    requires Small(c) && base >= 1 && |p| == 100 && |h.batch| == 1 && 1 <= seed <= MAX_LSN
    requires var s := Failed(c, base, p);
             && Inv(c, s) && Ready(c, s)
             && h.dir == Settle(c, s, |s.inflight.data|) && h.dir != [] && h.writeOffset == RunOf(c, Active(h.dir)).end
    ensures h.writeOffset == 184 && Fit(16, h.batch) == 0
  {
    hide Fresh, DenseRun, R.Frame, Overwrite, Inv;
    var s := Failed(c, base, p);
    assert s.inflight.data[..|s.inflight.data|] == s.inflight.data;
    FreshShape(c, base);
    R.FramesOne(c.crc, base, p);
    AppendRun(c, Fresh(c, base), [p], R.Frames(c.crc, base, [p]));
    assert R.FramedSize(100) == 120;
  }

  // ----- A record that contains a record -----

  /** A payload that holds, at an aligned place of its frame, the frame of the next record. */
  function Nesting(c: Env, base: u64): (p: Bytes)
    ensures |p| == 29
  {
    Zeros(4) + R.Frame(c.crc, base + 1, []) + [1]
  }

  /** The sizes: 56 bytes in all, the inner frame at 24, and one last byte before the padding. */
  lemma NestingFrame(c: Env, base: u64)
    requires base < MAX_LSN
    ensures var f := R.Frame(c.crc, base, Nesting(c, base));
            && |f| == 56 && R.FramedSize(0) == 24 && R.FramedSize(29) == 56
            && f[24..48] == R.Frame(c.crc, base + 1, []) && f[48] == 1 && AllZero(f[49..56])
  {
    hide R.Frame;
    var p := Nesting(c, base);
    var f := R.Frame(c.crc, base, p);
    R.FrameFields(c.crc, base, p);
    assert f[20..49] == p;
    SliceOfSlice(f, 20, 49, 4, 28);
    assert p[4..28] == R.Frame(c.crc, base + 1, []);
    assert f[48] == f[20..49][28] == p[28];
    assert f[49..] == f[49..56];
  }

  /** What is on the device when 48 of the 56 bytes got through. */
  lemma NestingTorn(c: Env, base: u64)
    requires Small(c) && 1 <= base < MAX_LSN
    ensures var s := Failed(c, base, Nesting(c, base));
            var f := R.Frame(c.crc, base, Nesting(c, base));
            var g := Active(Settle(c, s, 48)).data;
            && |f| == 56 && |g| == 200 && g[64..120] == f[48 := 0] && g[88..112] == R.Frame(c.crc, base + 1, [])
  {
    hide R.Frame, Nesting, Fresh, Overwrite;
    var f := R.Frame(c.crc, base, Nesting(c, base));
    NestingFrame(c, base);
    FreshShape(c, base);
    var z := Fresh(c, base).data;
    var g := Overwrite(z, 64, f[..48]);
    assert g[64..112] == f[..48];
    assert forall i :: 112 <= i < 120 ==> g[i] == z[i] == 0;
    assert forall i :: 0 <= i < 7 ==> f[49..56][i] == f[49 + i];
    forall i | 0 <= i < 56 ensures g[64..120][i] == f[48 := 0][i] {
      assert i < 48 ==> g[64 + i] == g[64..112][i];
    }
    SliceOfSlice(g, 64, 112, 24, 48);
    SliceOfSlice(f, 0, 48, 24, 48);
    assert f[0..48] == f[..48];
  }

  /** With CRC-32C the tear shows, because it changes one byte; and the inner frame is found behind it. */
  lemma NestingEmbeds(c: Env, base: u64)
    requires RealCrc(c) && Small(c) && 1 <= base < MAX_LSN
    ensures var s := Failed(c, base, Nesting(c, base));
            && TearVisible(c, s, 48) && Ready(c, s) && TornAt(c, s, 48) == TornMidLogAt(base, 64)
            && EmbeddedFrame(c, s, 48)
  {
    hide R.Frame, Nesting, Fresh, Overwrite, ScanAt, R.Decode, RealCrc, R.Frames;
    var p := Nesting(c, base);
    var s, f := Failed(c, base, p), R.Frame(c.crc, base, p);
    NestingTorn(c, base);
    NestingFrame(c, base);
    var g := Active(Settle(c, s, 48)).data;
    OneByteIsCaught(c, base, p, 48, 0);
    BadCrcScans(c, g, 64, 56);
    ScanFrame(c, g, 88, base + 1, []);
    NestingNumbers(c, base, p);
    assert f[48 := 0][48] != f[48];
    assert Embeds(c, g, 64, 112, base) by {
      assert 64 + 8 <= 88 < 112 && (88 - 64) % 8 == 0;
    }
  }

  lemma NestingNumbers(c: Env, base: u64, p: Bytes)
    requires Small(c) && 1 <= base && |p| == 29
    ensures var s := Failed(c, base, p);
            && Ready(c, s) && Fit(Room(c, s), s.batch) == 1 && s.batch[..1] == [p]
            && WholeRecords(c, s, 48) == 0 && TearOffset(c, s, 48) == 64
  {
    hide R.Frame, Fresh;
    assert [p][1..] == [] && [p][..1] == [p] && [p][..0] == [];
    R.FramesNil(c.crc, base);
    assert R.FramedSize(29) == 56;
  }

  /**
    The one refusal is real: a client that appends such a payload, and a crash that lets 48 bytes of its
    write through, leave a log that open refuses, although nothing was ever acknowledged or damaged.
   */
  lemma EmbeddedReached(c: Env, base: u64, seed: nat)
    requires RealCrc(c) && Small(c) && 1 <= base < MAX_LSN && 1 <= seed <= MAX_LSN
    ensures var ops := [DoAppend(Nesting(c, base)), DoCommit(0), DoReopen(48, seed)];
            && Good(c, Start(c, base)) && AllFair(c, Start(c, base), ops)
            && var w := Runs.Run(c, Start(c, base), ops);
            && w.Down? && w.error == TornMidLogAt(base, 64) && w.ledger.acked == []
  {
    hide Nesting, Good, Fair, Step, RealCrc, R.Frame, Fresh, AllFair, Runs.Run, Failed, Start;
    var p := Nesting(c, base);
    var w, crash := Live(Failed(c, base, p), Ledger(base, [], 0)), DoReopen(48, seed);
    FirstWrite(c, base, p, 0, [crash]);
    assert [DoAppend(p), DoCommit(0)] + [crash] == [DoAppend(p), DoCommit(0), crash];
    NestingDown(c, base, seed);
    OneStep(c, w, crash);
  }

  lemma OneStep(c: Env, w: World, op: Op)
    requires Good(c, w) && Fair(c, w, op)
    ensures AllFair(c, w, [op]) && Good(c, Step(c, w, op)) && Runs.Run(c, w, [op]) == Step(c, w, op)
  {
    hide Inv, Faithful, EmbeddedFrame, TearVisible, Step;
    StepGood(c, w, op);
    assert [op][1..] == [];
  }

  lemma NestingDown(c: Env, base: u64, seed: nat)
    requires RealCrc(c) && Small(c) && 1 <= base < MAX_LSN && 1 <= seed <= MAX_LSN
    requires Good(c, Live(Failed(c, base, Nesting(c, base)), Ledger(base, [], 0)))
    ensures var s, l := Failed(c, base, Nesting(c, base)), Ledger(base, [], 0);
            && Fair(c, Live(s, l), DoReopen(48, seed))
            && Step(c, Live(s, l), DoReopen(48, seed)) == Down(TornMidLogAt(base, 64), s, l, 48)
  {
    hide Nesting, Inv, Faithful, Ready, OpenDir, Settle, EmbeddedFrame, TearVisible, TornAt, RealCrc, R.Frame, Fresh;
    var s, l := Failed(c, base, Nesting(c, base)), Ledger(base, [], 0);
    NestingEmbeds(c, base);
    StepGood(c, Live(s, l), DoReopen(48, seed));
    DownExactly(c, Live(s, l), DoReopen(48, seed));
  }
}
