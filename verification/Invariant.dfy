/** The writer's inductive invariant and its preservation by append, commit and checkpoint. */
module Invariant {
  import opened ByteString
  import opened Config
  import opened Segment
  import opened Recovery
  import opened Directory
  import opened Open
  import opened Writer
  import R = Record

  /** At most one operation is in flight, only on a poisoned handle, and it is the next one due. */
  predicate Pending(c: Env, s: Sys)
    requires s.writeOffset <= c.segmentSize && s.dir != []
  {
    match s.inflight
    case Nothing => true
    case Writing(off, data) =>
      s.poisoned && off == s.writeOffset && data == Chunk(c, s, Fit(Room(c, s), s.batch))
    case Creating(base) =>
      s.poisoned && base == s.durable + 1 && s.batch != [] && RunOf(c, Active(s.dir)).payloads != []
    case Unlinking(n) => s.poisoned && n < |s.dir|
  }

  predicate Inv(c: Env, s: Sys) {
    && c.Valid() && Tight(c, s.dir)
    && s.writeOffset == RunOf(c, Active(s.dir)).end <= c.segmentSize
    && s.durable + 1 == NextLsn(c, Active(s.dir))
    && s.last == s.durable + |s.batch| <= MAX_LSN
    && Sized(c, s.batch)
    && Pending(c, s)
  }

  lemma InvReady(c: Env, s: Sys)
    requires Inv(c, s)
    ensures Ready(c, s)
  {
    hide DenseRun, HeaderOk, LinkOk, Pending;
  }

  lemma LastFits(c: Env, s: Sys)
    requires Inv(c, s)
    ensures s.last == s.durable + |s.batch| <= MAX_LSN
  {
    hide Tight, RunOf, Pending;
  }

  // ----- One write, one roll -----

  /** A file that goes on, after `f`'s run, with the frames of `recs` and then zeros. */
  lemma RunAppended(c: Env, f: Bytes, g: Bytes, base: nat, recs: seq<Bytes>, next: nat, end: nat)
    requires var run := DenseRun(c, f, HEADER_SIZE, base);
             && SameOn(f, g, HEADER_SIZE, run.end)
             && next == base + |run.payloads|
             && FramesAt(c, g, run.end, next, recs)
             && end == run.end + |R.Frames(c.crc, next, recs)|
    requires Sized(c, recs) && next + |recs| <= MAX_LSN + 1
    requires c.segmentSize <= |g| && ZeroOn(g, end, c.segmentSize)
    ensures DenseRun(c, g, HEADER_SIZE, base) == Run(DenseRun(c, f, HEADER_SIZE, base).payloads + recs, end)
  {
    hide R.Frames, DenseRun, FramesAt, SameOn, ZeroOn, Sized;
    var run := DenseRun(c, f, HEADER_SIZE, base);
    RunExtends(c, f, g, HEADER_SIZE, base);
    RunOfFrames(c, g, run.end, next, recs);
    RunInZeros(c, g, end, next + |recs|, end);
    NilJoin(recs);
  }

  /** The bytes of a file after a write inside its zero tail. */
  lemma WriteInZeros(c: Env, f: Bytes, off: nat, data: Bytes)
    requires HEADER_SIZE <= off && off + |data| <= c.segmentSize <= |f| && ZeroOn(f, off, c.segmentSize)
    ensures var g := Overwrite(f, off, data);
            && |g| == |f|
            && SameOn(f, g, HEADER_SIZE, off)
            && g[off..off + |data|] == data
            && ZeroOn(g, off + |data|, c.segmentSize)
            && g[..HEADER_SIZE] == f[..HEADER_SIZE]
  {
  }

  /** Frames written at the end of a zero-tailed run extend the run by exactly their records. */
  lemma AppendRun(c: Env, sf: SegFile, recs: seq<Bytes>, data: Bytes)
    requires ZeroTail(c, sf) && Sized(c, recs) && NextLsn(c, sf) + |recs| <= MAX_LSN + 1
    requires data == R.Frames(c.crc, NextLsn(c, sf), recs)
    requires RunOf(c, sf).end + |data| <= c.segmentSize
    ensures var g := Overwrite(sf.data, RunOf(c, sf).end, data);
            var to := SegFile(sf.base, g);
            && RunOf(c, to) == Run(RunOf(c, sf).payloads + recs, RunOf(c, sf).end + |data|)
            && ZeroTail(c, to)
            && |g| == |sf.data|
            && g[..HEADER_SIZE] == sf.data[..HEADER_SIZE]
  {
    hide Overwrite, R.Frames, DenseRun, SameOn, ZeroOn, Sized;
    var run := RunOf(c, sf);
    WriteInZeros(c, sf.data, run.end, data);
    RunAppended(c, sf.data, Overwrite(sf.data, run.end, data), sf.base, recs, NextLsn(c, sf), run.end + |data|);
  }

  lemma WriteKeeps(c: Env, s: Sys, k: nat)
    requires Inv(c, s) && s.inflight == Nothing && k <= |s.batch| && |Chunk(c, s, k)| <= Room(c, s)
    requires s.writeOffset <= |Active(s.dir).data|
    ensures var t := Wrote(c, s, k);
            && Inv(c, t)
            && Log(c, t.dir) == Log(c, s.dir) + s.batch[..k]
            && t.dir[0].base == s.dir[0].base
            && RunOf(c, Active(t.dir)).payloads == RunOf(c, Active(s.dir)).payloads + s.batch[..k]
  {
    hide DenseRun, Overwrite, R.Frames, ZeroTail, RunOf;
    var sf, recs := Active(s.dir), s.batch[..k];
    var t := Wrote(c, s, k);
    AppendRun(c, sf, recs, Chunk(c, s, k));
    ChainHeader(c, s.dir);
    ChainReplace(c, s.dir, Active(t.dir).data);
    LogSplit(c, s.dir);
    JoinAssoc(Log(c, s.dir[..|s.dir| - 1]), RunOf(c, sf).payloads, recs);
  }

  lemma ChainHeader(c: Env, d: Dir)
    requires Chain(c, d)
    ensures HEADER_SIZE <= |Active(d).data|
  {
    hide DecodeHeader, LinkOk;
    assert HeaderOk(c, Active(d));
  }

  /** Appending a valid segment at the next LSN seals the old active segment and keeps the chain. */
  lemma ChainGrow(c: Env, d: Dir, sf: SegFile)
    requires Tight(c, d) && RunOf(c, Active(d)).payloads != []
    requires HeaderOk(c, sf) && sf.base == NextLsn(c, Active(d))
    ensures Chain(c, d + [sf]) && Active(d + [sf]) == sf
    ensures Log(c, d + [sf]) == Log(c, d) + RunOf(c, sf).payloads
  {
    hide DenseRun, HeaderOk, ScanAt;
    var n, a := d + [sf], Active(d);
    LogJoin(c, d, [sf]);
    LogOne(c, sf);
    assert LinkOk(c, a, sf) by {
      ScanZeros(c, a.data, RunOf(c, a).end, RunOf(c, a).end);
    }
    forall i | 0 <= i < |n| - 1 ensures LinkOk(c, n[i], n[i + 1]) {
      hide LinkOk;
      assert i < |d| - 1 ==> LinkOk(c, d[i], d[i + 1]);
    }
  }

  lemma RollKeeps(c: Env, s: Sys)
    requires Inv(c, s) && s.inflight == Nothing && s.durable < MAX_LSN
    requires RunOf(c, Active(s.dir)).payloads != []
    ensures Inv(c, Rolled(c, s))
    ensures Log(c, Rolled(c, s).dir) == Log(c, s.dir)
  {
    hide HeaderOk, RunOf, Fresh, ZeroTail, Chain;
    FreshShape(c, s.durable + 1);
    ChainGrow(c, s.dir, Fresh(c, s.durable + 1));
    NilJoin(Log(c, s.dir));
  }

  // ----- Commit -----

  /** The directory only grew: files that were sealed keep their bytes, the old active one its place. */
  predicate Grown(d: Dir, d': Dir) {
    && d != [] && |d| <= |d'|
    && d'[..|d| - 1] == d[..|d| - 1]
    && d'[|d| - 1].base == Active(d).base
  }

  lemma GrownTrans(a: Dir, b: Dir, d: Dir)
    requires Grown(a, b) && Grown(b, d)
    ensures Grown(a, d)
  {
    var n := |a| - 1;
    SlicePrefix(d, |b| - 1, n);
    SlicePrefix(b, |b| - 1, n);
    assert |a| < |b| ==> d[n] == d[..|b| - 1][n] == b[..|b| - 1][n] == b[n];
  }

  lemma SlicePrefix<T>(s: seq<T>, n: nat, k: nat)
    requires k <= n <= |s|
    ensures s[..n][..k] == s[..k]
  {
  }

  predicate Increasing(w: seq<nat>) {
    forall i, j :: 0 <= i < j < |w| ==> w[i] < w[j]
  }

  /** Watermarks reported while durable went from `a` to `b`: strictly increasing, in range, ending at `b`. */
  predicate Watermarks(w: seq<nat>, a: nat, b: nat) {
    && Increasing(w)
    && (forall i :: 0 <= i < |w| ==> a < w[i] <= b)
    && (if w == [] then b == a else w[|w| - 1] == b)
  }

  /** What a commit, whole or cut short by a failure, does to the state. */
  ghost predicate CommitEffect(c: Env, s: Sys, t: Sys) {
    && Inv(c, t)
    && s.durable <= t.durable && t.durable - s.durable <= |s.batch|
    && t.last == s.last
    && t.batch == s.batch[t.durable - s.durable..]
    && Log(c, t.dir) == Log(c, s.dir) + s.batch[..t.durable - s.durable]
    && Grown(s.dir, t.dir) && t.dir[0].base == s.dir[0].base
    && s.observed <= t.observed && Watermarks(t.observed[|s.observed|..], s.durable, t.durable)
  }

  lemma WatermarksJoin(v: seq<nat>, w: seq<nat>, a: nat, b: nat, d: nat)
    requires Watermarks(v, a, b) && Watermarks(w, b, d) && a <= b <= d
    ensures Watermarks(v + w, a, d)
  {
  }

  lemma EffectTrans(c: Env, s: Sys, u: Sys, t: Sys)
    requires CommitEffect(c, s, u) && CommitEffect(c, u, t)
    ensures CommitEffect(c, s, t)
  {
    hide Inv, Log, Watermarks, Grown;
    var k, m := u.durable - s.durable, t.durable - u.durable;
    GrownTrans(s.dir, u.dir, t.dir);
    assert s.batch[k..][m..] == s.batch[k + m..];
    assert s.batch[..k] + s.batch[k..][..m] == s.batch[..k + m];
    JoinAssoc(Log(c, s.dir), s.batch[..k], s.batch[k..][..m]);
    var v, w := u.observed[|s.observed|..], t.observed[|u.observed|..];
    WatermarksJoin(v, w, s.durable, u.durable, t.durable);
    assert t.observed == u.observed + w;
    assert t.observed[|s.observed|..] == v + w;
  }

  /** A step that makes no record durable. */
  lemma EffectNone(c: Env, s: Sys, t: Sys)
    requires Inv(c, t) && t.durable == s.durable && t.last == s.last && t.batch == s.batch && t.observed == s.observed
    requires Log(c, t.dir) == Log(c, s.dir) && Grown(s.dir, t.dir) && t.dir[0].base == s.dir[0].base
    ensures CommitEffect(c, s, t)
  {
    hide Inv, Log, Grown;
    NilJoin(Log(c, s.dir));
  }

  /** A failed call leaves the log as it was, with the operation in flight. */
  lemma EffectStuck(c: Env, s: Sys, inflight: Inflight)
    requires Inv(c, s) && Pending(c, s.(poisoned := true, inflight := inflight))
    ensures CommitEffect(c, s, s.(poisoned := true, inflight := inflight))
  {
    hide Tight, RunOf, Log, Sized, CommitEffect, Grown;
    InvDir(c, s);
    EffectNone(c, s, s.(poisoned := true, inflight := inflight));
  }

  lemma InvDir(c: Env, s: Sys)
    requires Inv(c, s)
    ensures s.dir != [] && Grown(s.dir, s.dir)
  {
    hide RunOf, ZeroTail, HeaderOk, LinkOk;
  }

  lemma EffectWrite(c: Env, s: Sys, k: nat)
    requires Inv(c, s) && s.inflight == Nothing && 0 < k <= |s.batch| && |Chunk(c, s, k)| <= Room(c, s)
    requires s.writeOffset <= |Active(s.dir).data|
    ensures CommitEffect(c, s, Wrote(c, s, k))
    ensures RunOf(c, Active(Wrote(c, s, k).dir)).payloads != []
  {
    hide Inv, Log, RunOf, Overwrite, Chunk;
    WriteKeeps(c, s, k);
  }

  lemma EffectRoll(c: Env, s: Sys)
    requires Inv(c, s) && s.inflight == Nothing && s.durable < MAX_LSN
    requires RunOf(c, Active(s.dir)).payloads != []
    ensures CommitEffect(c, s, Rolled(c, s))
  {
    hide Inv, Log, RunOf, Fresh, Grown, Ready, CommitEffect;
    RollKeeps(c, s);
    InvReady(c, s);
    ReadyParts(c, s);
    GrownByOne(s.dir, Fresh(c, s.durable + 1));
    EffectNone(c, s, Rolled(c, s));
  }

  lemma GrownByOne(d: Dir, sf: SegFile)
    requires d != []
    ensures Grown(d, d + [sf]) && (d + [sf])[0] == d[0]
  {
  }

  /**
    Commit under any failure pattern. The invariant holds afterwards; the durable records are the
    old ones plus the first `t.durable - s.durable` staged ones, byte for byte, and the rest stay
    staged; the observer saw a strictly increasing sequence of watermarks ending at `durable`; no
    sealed byte changed. Without a failure nothing stays staged; after one the handle is poisoned
    with exactly one operation in flight.
   */
  lemma {:induction false} CommitRuns(c: Env, s: Sys, budget: nat)
    requires Inv(c, s) && s.inflight == Nothing && !s.poisoned && Ready(c, s)
    ensures var t := CommitLoop(c, s, budget);
            && CommitEffect(c, s, t)
            && (!t.poisoned ==> t.batch == [] && t.inflight == Nothing)
            && (t.poisoned ==> t.inflight != Nothing)
    decreases |s.batch|, if s.writeOffset == HEADER_SIZE then 0 else 1
  {
    hide Inv, Ready, CommitEffect, RunOf, Fit, Chunk, Pending, Overwrite, Fresh;
    if s.batch == [] {
      EffectIdle(c, s);
    } else {
      ReadyParts(c, s);
      var k := Fit(Room(c, s), s.batch);
      FitFacts(c, s);
      if k == 0 {
        NonEmpty(c, s);
        if budget < ROLL_CALLS {
          StuckRoll(c, s);
        } else {
          var u := Rolled(c, s);
          EffectRoll(c, s);
          EffectInv(c, s, u);
          CommitRuns(c, u, budget - ROLL_CALLS);
          EffectTrans(c, s, u, CommitLoop(c, s, budget));
        }
      } else if budget < WRITE_CALLS {
        StuckWrite(c, s);
      } else {
        var u := Wrote(c, s, k);
        EffectWrite(c, s, k);
        EffectInv(c, s, u);
        CommitRuns(c, u, budget - WRITE_CALLS);
        EffectTrans(c, s, u, CommitLoop(c, s, budget));
      }
    }
  }

  lemma EffectIdle(c: Env, s: Sys)
    requires Inv(c, s)
    ensures CommitEffect(c, s, s)
  {
    hide Inv, Log, CommitEffect, Grown;
    InvDir(c, s);
    EffectNone(c, s, s);
  }

  lemma EffectInv(c: Env, s: Sys, t: Sys)
    requires CommitEffect(c, s, t)
    ensures Inv(c, t)
  {
    hide Inv;
  }

  /** Only a fresh segment is empty, and a fresh segment takes any record. */
  lemma NonEmpty(c: Env, s: Sys)
    requires Inv(c, s) && s.writeOffset != HEADER_SIZE
    ensures s.dir != [] && RunOf(c, Active(s.dir)).payloads != []
  {
    hide Tight, Sized, Pending;
    InvDir(c, s);
  }

  lemma StuckRoll(c: Env, s: Sys)
    requires Inv(c, s) && s.batch != [] && s.durable < MAX_LSN && s.writeOffset != HEADER_SIZE
    ensures CommitEffect(c, s, s.(poisoned := true, inflight := Creating(s.durable + 1)))
  {
    hide Inv, CommitEffect, RunOf, Fit, Chunk;
    NonEmpty(c, s);
    InvReady(c, s);
    EffectStuck(c, s, Creating(s.durable + 1));
  }

  lemma StuckWrite(c: Env, s: Sys)
    requires Inv(c, s) && s.writeOffset <= c.segmentSize
    ensures var data := Chunk(c, s, Fit(Room(c, s), s.batch));
            CommitEffect(c, s, s.(poisoned := true, inflight := Writing(s.writeOffset, data)))
  {
    hide Inv, CommitEffect, RunOf, Fit, R.Frames;
    InvReady(c, s);
    EffectStuck(c, s, Writing(s.writeOffset, Chunk(c, s, Fit(Room(c, s), s.batch))));
  }

  // ----- Append: the LSN space is used once -----

  /**
    On a live handle a legal payload is refused exactly when the last LSN is MAX_LSN; a refusal of
    any kind touches nothing; success stages the payload under the next LSN.
   */
  lemma AppendKeeps(c: Env, s: Sys, payload: Bytes)
    requires Inv(c, s)
    ensures var (t, e) := Append(c, s, payload);
            && Inv(c, t)
            && (e.Some? ==> t == s)
            && (e.None? ==> t.last == s.last + 1 && t.batch == s.batch + [payload] && t.dir == s.dir
                            && t.durable == s.durable && t.inflight == s.inflight && !t.poisoned
                            && t.writeOffset == s.writeOffset && t.observed == s.observed)
            && (e == Some(RecordTooLarge) <==> !s.poisoned && |payload| > c.maxRecordSize)
            && (e == Some(LsnExhausted) <==> !s.poisoned && |payload| <= c.maxRecordSize && s.last == MAX_LSN)
            && (s.poisoned <==> e == Some(Poisoned))
  {
    hide Tight, RunOf;
    if Append(c, s, payload).1.None? {
      UnpoisonedIdle(c, s);
    }
  }

  lemma UnpoisonedIdle(c: Env, s: Sys)
    requires Inv(c, s) && !s.poisoned
    ensures s.inflight == Nothing
  {
    hide Tight, RunOf, Chunk, Fit;
    InvDir(c, s);
  }

  // ----- Checkpoint -----

  predicate Ascending(bases: seq<nat>) {
    forall i, j :: 0 <= i < j < |bases| ==> bases[i] < bases[j]
  }

  /** The deletable prefix is the maximal one: it reaches segment i iff base i is at most upTo + 1. */
  lemma {:induction false} DeletableIsMaximal(bases: seq<nat>, upTo: nat)
    requires Ascending(bases)
    ensures var n := DeletablePrefixLen(bases, upTo);
            forall i :: 1 <= i < |bases| ==> (i <= n <==> bases[i] - 1 <= upTo)
    decreases bases
  {
    if |bases| >= 2 && bases[1] - 1 <= upTo {
      var t := bases[1..];
      DeletableIsMaximal(t, upTo);
      assert forall i :: 2 <= i < |bases| ==> t[i - 1] == bases[i];
    }
  }

  lemma {:induction false} ChainAscending(c: Env, d: Dir, i: nat, j: nat)
    requires Chain(c, d) && i < j < |d|
    ensures d[i].base < d[j].base
    decreases j - i
  {
    hide HeaderOk, RunOf;
    assert LinkOk(c, d[j - 1], d[j]);
    if i < j - 1 {
      ChainAscending(c, d, i, j - 1);
    }
  }

  lemma BasesAscending(c: Env, d: Dir)
    requires Chain(c, d)
    ensures Ascending(Bases(d))
  {
    hide Chain;
    forall i, j | 0 <= i < j < |d| ensures d[i].base < d[j].base {
      ChainAscending(c, d, i, j);
    }
  }

  /** Without its k oldest segments the log is its suffix from the first remaining base. */
  lemma {:induction false} LogDrop(c: Env, d: Dir, k: nat)
    requires Chain(c, d) && k < |d|
    ensures d[0].base <= d[k].base && d[k].base - d[0].base <= |Log(c, d)|
    ensures Log(c, d[k..]) == Log(c, d)[d[k].base - d[0].base..]
    decreases k
  {
    hide HeaderOk, SealedOk, RunOf;
    if k == 0 {
      assert d[0..] == d;
    } else {
      ChainTail(c, d, 1);
      LogDrop(c, d[1..], k - 1);
      assert d[1..][k - 1..] == d[k..];
      assert LinkOk(c, d[0], d[1]);
      DropJoin(RunOf(c, d[0]).payloads, Log(c, d[1..]), d[k].base - d[1].base);
    }
  }

  lemma DropJoin<T>(a: seq<T>, b: seq<T>, n: nat)
    requires n <= |b|
    ensures (a + b)[|a| + n..] == b[n..]
  {
  }

  /** Dropping whole segments from the front keeps the invariant. */
  lemma DropKeeps(c: Env, s: Sys, n: nat)
    requires Inv(c, s) && s.inflight == Nothing && n < |s.dir|
    ensures Inv(c, s.(dir := s.dir[n..]))
  {
    hide RunOf, Chain, ZeroTail;
    ChainTail(c, s.dir, n);
  }

  /** What deleting the deletable prefix of a chain leaves. */
  lemma DeletableDrop(c: Env, d: Dir, upTo: nat)
    requires Chain(c, d)
    ensures var n := DeletablePrefixLen(Bases(d), upTo);
            && n < |d|
            && var t := d[n..];
            && Chain(c, t) && Active(t) == Active(d)
            && 0 <= t[0].base - d[0].base <= |Log(c, d)|
            && Log(c, t) == Log(c, d)[t[0].base - d[0].base..]
            && (n > 0 ==> t[0].base <= upTo + 1)
            && DeletablePrefixLen(Bases(t), upTo) == 0
  {
    hide Chain, Log, DeletablePrefixLen;
    var n := DeletablePrefixLen(Bases(d), upTo);
    BasesAscending(c, d);
    ChainNonEmpty(c, d);
    DeletableIsMaximal(Bases(d), upTo);
    ChainTail(c, d, n);
    LogDrop(c, d, n);
    NothingLeft(d, upTo);
    assert n > 0 ==> Bases(d)[n] == d[n].base;
  }

  /**
    Checkpoint under any failure pattern: what is dropped is a prefix of whole segments holding only
    LSNs at or below `upTo`; the active segment stays; a completed call leaves nothing deletable, so
    repeating it is a no-op; a failed call has changed nothing durable yet.
   */
  lemma CheckpointKeeps(c: Env, s: Sys, upTo: nat, budget: nat)
    requires Inv(c, s) && s.dir != []
    ensures var (t, e) := Checkpoint(s, upTo, budget);
            && Inv(c, t)
            && t.dir != [] && 0 <= t.dir[0].base - s.dir[0].base <= |Log(c, s.dir)|
            && Log(c, t.dir) == Log(c, s.dir)[t.dir[0].base - s.dir[0].base..]
            && (t.dir == s.dir || t.dir[0].base <= upTo + 1)
            && Active(t.dir) == Active(s.dir)
            && (e.None? ==> DeletablePrefixLen(Bases(t.dir), upTo) == 0)
            && (e.Some? ==> t.dir == s.dir && t.poisoned)
            && var n := DeletablePrefixLen(Bases(s.dir), upTo);
            && (e.None? <==> !s.poisoned && (n == 0 || budget > n))
            && (e == Some(IoFailed) ==> t.inflight == Unlinking(if budget < n then budget else n))
            && t.observed == s.observed && t.writeOffset == s.writeOffset
            && t.durable == s.durable && t.batch == s.batch && t.last == s.last
  {
    hide Inv, Log, DeletablePrefixLen, Bases;
    var n := DeletablePrefixLen(Bases(s.dir), upTo);
    InvChain(c, s);
    DeletableDrop(c, s.dir, upTo);
    assert Log(c, s.dir)[0..] == Log(c, s.dir);
    if !s.poisoned && n > 0 {
      UnpoisonedIdle(c, s);
      UnlinkPending(c, s, if budget < n then budget else n);
      DropKeeps(c, s, n);
    }
  }

  /** Repeating a completed checkpoint does nothing. */
  lemma CheckpointTwice(c: Env, s: Sys, upTo: nat, budget: nat, budget': nat)
    requires Inv(c, s) && s.dir != [] && Checkpoint(s, upTo, budget).1 == None
    ensures var t := Checkpoint(s, upTo, budget).0;
            t.dir != [] && Checkpoint(t, upTo, budget') == (t, None)
  {
    hide Inv, DeletablePrefixLen, Bases;
    InvChain(c, s);
    DeletableDrop(c, s.dir, upTo);
  }

  lemma InvChain(c: Env, s: Sys)
    requires Inv(c, s)
    ensures Chain(c, s.dir)
  {
    hide Chain, ZeroTail, RunOf;
  }

  lemma UnlinkPending(c: Env, s: Sys, k: nat)
    requires Inv(c, s) && k < |s.dir|
    ensures Inv(c, s.(poisoned := true, inflight := Unlinking(k)))
  {
    hide Tight, RunOf;
  }

  lemma NothingLeft(d: Dir, upTo: nat)
    requires d != [] && Ascending(Bases(d))
    ensures var n := DeletablePrefixLen(Bases(d), upTo);
            n < |d| && DeletablePrefixLen(Bases(d[n..]), upTo) == 0
  {
    var n := DeletablePrefixLen(Bases(d), upTo);
    DeletableIsMaximal(Bases(d), upTo);
    var t := d[n..];
    if |t| >= 2 {
      assert Bases(t)[1] == t[1].base == d[n + 1].base == Bases(d)[n + 1];
    }
  }

  /** A poisoned handle refuses every operation and is not changed by it. */
  lemma PoisonedIsInert(c: Env, s: Sys, payload: Bytes, upTo: nat, budget: nat)
    requires s.poisoned && s.last <= MAX_LSN && Ready(c, s)
    ensures Append(c, s, payload) == (s, Some(Poisoned))
    ensures Commit(c, s, budget) == (s, Some(Poisoned))
    ensures Checkpoint(s, upTo, budget) == (s, Some(Poisoned))
  {
  }
}
