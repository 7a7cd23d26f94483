/** Whole runs: appends, commits, checkpoints, crashes and reopens in any order, under any failures. */
module Runs {
  import opened ByteString
  import opened Config
  import opened Segment
  import opened Recovery
  import opened Directory
  import opened Open
  import opened Writer
  import opened Invariant
  import opened Crash

  /** `budget` is the operation's fate; `cut` is how much of the operation in flight a crash let through. */
  datatype Op =
    | DoAppend(payload: Bytes)
    | DoCommit(budget: nat)
    | DoCheckpoint(upTo: nat, budget: nat)
    | DoReopen(cut: nat, seed: nat)

  /**
    The client's view, kept beside the log: `acked[k]` is the payload acknowledged under LSN
    `origin + k`, and `floor` is the largest bound ever passed to checkpoint. `acked` only ever
    grows by payloads that were appended and are, in order, the next ones staged.
   */
  datatype Ledger = Ledger(origin: nat, acked: seq<Bytes>, floor: nat)

  /** Either a handle is open, or open refused what the crash of `sys` at `cut` had left. */
  datatype World =
    | Live(sys: Sys, ledger: Ledger)
    | Down(error: WalError, sys: Sys, ledger: Ledger, cut: nat)

  /** The durable LSN moved from `s` to `t`: that many staged payloads are now acknowledged. */
  function Acknowledge(l: Ledger, s: Sys, t: Sys): (r: Ledger) {
    if s.durable <= t.durable <= s.durable + |s.batch|
    then l.(acked := l.acked + s.batch[..t.durable - s.durable])
    else l
  }

  function Step(c: Env, w: World, op: Op): (r: World)
    requires w.Live? ==> Inv(c, w.sys)
    requires op.DoReopen? ==> op.seed <= MAX_LSN
  {
    if w.Down? then w
    else
      var s := w.sys;
      InvReady(c, s);
      match op
      case DoAppend(payload) => Live(Append(c, s, payload).0, w.ledger)
      case DoCommit(budget) =>
        var t := Commit(c, s, budget).0;
        Live(t, Acknowledge(w.ledger, s, t))
      case DoCheckpoint(upTo, budget) =>
        var floor := if upTo > w.ledger.floor then upTo else w.ledger.floor;
        Live(Checkpoint(s, upTo, budget).0, w.ledger.(floor := floor))
      case DoReopen(cut, seed) =>
        var d := Settle(c, s, cut);
        var r := OpenDir(c, d, seed);
        if r.Opened? then Live(Handle(r), Acknowledge(w.ledger, s, Handle(r))) else Down(r.error, s, w.ledger, cut)
  }

  /** What is assumed of one step: a legal seed, and a checksum that exposes the tear this crash left. */
  predicate Fair(c: Env, w: World, op: Op) {
    op.DoReopen? ==> 1 <= op.seed <= MAX_LSN && (w.Live? ==> TearVisible(c, w.sys, op.cut))
  }

  /** The log holds exactly the acknowledged records from its oldest base on, byte for byte. */
  ghost predicate Faithful(c: Env, s: Sys, l: Ledger) {
    && s.dir != [] && l.origin <= s.dir[0].base
    && l.origin + |l.acked| == s.durable + 1
    && s.dir[0].base - l.origin <= |l.acked|
    && Log(c, s.dir) == l.acked[s.dir[0].base - l.origin..]
    && (s.dir[0].base == l.origin || s.dir[0].base <= l.floor + 1)
    && BoundedUnlink(s, l.floor)
  }

  /** What an interrupted checkpoint was removing lies at or below the bound it was given. */
  predicate BoundedUnlink(s: Sys, floor: nat) {
    s.inflight.Unlinking? && 0 < s.inflight.n < |s.dir| ==> s.dir[s.inflight.n].base <= floor + 1
  }

  ghost predicate Good(c: Env, w: World) {
    match w
    case Live(s, l) => Inv(c, s) && Faithful(c, s, l)
    case Down(e, s, l, cut) =>
      Inv(c, s) && Faithful(c, s, l) && EmbeddedFrame(c, s, cut) && e == TornAt(c, s, cut)
  }

  // ----- Each step keeps the world good -----

  lemma CommitGood(c: Env, s: Sys, l: Ledger, budget: nat)
    requires Inv(c, s) && Faithful(c, s, l) && Ready(c, s)
    ensures var t := Commit(c, s, budget).0;
            Inv(c, t) && Faithful(c, t, Acknowledge(l, s, t))
  {
    hide Inv, Log, CommitLoop, CommitError, Ready, Faithful, Grown, Watermarks;
    InvDir(c, s);
    if !s.poisoned {
      UnpoisonedIdle(c, s);
      CommitRuns(c, s, budget);
      CommitInflight(c, s, budget);
      var t := CommitLoop(c, s, budget);
      InvDir(c, t);
      var more := s.batch[..t.durable - s.durable];
      assert (Log(c, s.dir) + more)[0..] == Log(c, s.dir) + more;
      FaithfulMoves(c, s, t, l, Acknowledge(l, s, t), more);
    } else {
      NilJoin(l.acked);
    }
  }

  lemma {:induction false} CommitInflight(c: Env, s: Sys, budget: nat)
    requires Ready(c, s) && s.inflight == Nothing
    ensures !CommitLoop(c, s, budget).inflight.Unlinking?
    decreases |s.batch|, if s.writeOffset == HEADER_SIZE then 0 else 1
  {
    hide Fit, Chunk, Ready, CommitLoop, Rolled, Wrote;
    ReadyParts(c, s);
    var k := Fit(Room(c, s), s.batch);
    if s.batch == [] {
      LoopEnds(c, s, budget);
    } else if k == 0 {
      LoopRolls(c, s, budget);
      RolledParts(c, s);
      if budget >= ROLL_CALLS {
        CommitInflight(c, Rolled(c, s), budget - ROLL_CALLS);
      }
    } else {
      LoopWrites(c, s, k, budget);
      WroteParts(c, s, k);
      if budget >= WRITE_CALLS {
        CommitInflight(c, Wrote(c, s, k), budget - WRITE_CALLS);
      }
    }
  }

  lemma CheckpointGood(c: Env, s: Sys, l: Ledger, upTo: nat, budget: nat)
    requires Inv(c, s) && Faithful(c, s, l)
    ensures var t := Checkpoint(s, upTo, budget).0;
            var l' := l.(floor := if upTo > l.floor then upTo else l.floor);
            Inv(c, t) && Faithful(c, t, l')
  {
    hide Inv, Log, Checkpoint, DeletablePrefixLen, Faithful;
    InvDir(c, s);
    CheckpointKeeps(c, s, upTo, budget);
    UnlinkBound(c, s, l, upTo, budget);
    NilJoin(l.acked);
    NilJoin(Log(c, s.dir));
    FaithfulMoves(c, s, Checkpoint(s, upTo, budget).0, l, l.(floor := if upTo > l.floor then upTo else l.floor), []);
  }

  /** The log and the ledger move together: `more` is added at the end, whole segments go at the front. */
  lemma FaithfulMoves(c: Env, s: Sys, t: Sys, l: Ledger, l': Ledger, more: seq<Bytes>)
    requires Faithful(c, s, l) && s.dir != [] && t.dir != []
    requires l'.origin == l.origin && l'.acked == l.acked + more && l.floor <= l'.floor
    requires t.durable == s.durable + |more|
    requires 0 <= t.dir[0].base - s.dir[0].base <= |Log(c, s.dir)|
    requires Log(c, t.dir) == (Log(c, s.dir) + more)[t.dir[0].base - s.dir[0].base..]
    requires t.dir[0].base == s.dir[0].base || t.dir[0].base <= l'.floor + 1
    requires BoundedUnlink(t, l'.floor)
    ensures Faithful(c, t, l')
  {
    hide Log;
    SuffixGrows(l.acked, more, s.dir[0].base - l.origin, t.dir[0].base - s.dir[0].base);
  }

  /** Adding records at the end and dropping some at the front commute. */
  lemma SuffixGrows(acked: seq<Bytes>, more: seq<Bytes>, drop: nat, cut: nat)
    requires drop + cut <= |acked|
    ensures (acked[drop..] + more)[cut..] == (acked + more)[drop + cut..]
  {
    DropAppend(acked, more, drop);
    DropDrop(acked + more, drop, cut);
  }

  /** What a checkpoint has in flight when it fails lies at or below its bound. */
  lemma UnlinkBound(c: Env, s: Sys, l: Ledger, upTo: nat, budget: nat)
    requires Inv(c, s) && Faithful(c, s, l)
    ensures BoundedUnlink(Checkpoint(s, upTo, budget).0, if upTo > l.floor then upTo else l.floor)
  {
    hide Inv, Chain, DeletablePrefixLen, Log;
    InvChain(c, s);
    var t := Checkpoint(s, upTo, budget).0;
    if !s.poisoned {
      UnpoisonedIdle(c, s);
    }
    if !s.poisoned && t.inflight.Unlinking? && 0 < t.inflight.n < |s.dir| {
      BasesAscending(c, s.dir);
      DeletableIsMaximal(Bases(s.dir), upTo);
      assert Bases(s.dir)[t.inflight.n] == s.dir[t.inflight.n].base;
    }
  }

  lemma ReopenGood(c: Env, s: Sys, l: Ledger, cut: nat, seed: nat)
    requires Inv(c, s) && Faithful(c, s, l) && 1 <= seed <= MAX_LSN && Ready(c, s) && TearVisible(c, s, cut)
    requires s.inflight.Writing? ==> s.inflight.off <= |Active(s.dir).data|
    requires s.inflight.Unlinking? ==> s.inflight.n < |s.dir|
    ensures var d := Settle(c, s, cut);
            var r := OpenDir(c, d, seed);
            && (r.Refused? <==> EmbeddedFrame(c, s, cut))
            && if r.Opened? then
                 Survives(c, s, Handle(r)) && Inv(c, Handle(r)) && Faithful(c, Handle(r), Acknowledge(l, s, Handle(r)))
               else s.inflight.Writing? && r.error == TornAt(c, s, cut)
  {
    hide Inv, Log, OpenDir, Continues, TearOffset, WholeRecords, TearVisible, Ready, EmbeddedFrame;
    ReadyParts(c, s);
    var r := OpenDir(c, Settle(c, s, cut), seed);
    match s.inflight {
      case Nothing => ReopenSame(c, s, seed);
      case Writing(off, data) => ReopenTorn(c, s, cut, seed);
      case Creating(base) => ReopenCreating(c, s, cut, seed);
      case Unlinking(n) => ReopenUnlinked(c, s, Min(cut, n), seed);
    }
    if r.Opened? {
      SurvivorFaithful(c, s, Handle(r), l);
    }
    EmbeddedWrites(c, s, cut);
  }

  lemma EmbeddedWrites(c: Env, s: Sys, cut: nat)
    ensures EmbeddedFrame(c, s, cut) ==> s.inflight.Writing?
  {
    hide Embeds, Torn, Ready, TearOffset, WholeRecords;
  }

  /** A run ends exactly when a reopen meets a torn record with an embedded frame. */
  lemma DownExactly(c: Env, w: World, op: Op)
    requires Good(c, w) && w.Live? && Fair(c, w, op)
    ensures Step(c, w, op).Down? <==> op.DoReopen? && EmbeddedFrame(c, w.sys, op.cut)
  {
    hide Inv, Faithful, Ready, TearVisible, OpenDir, Settle, Commit, Checkpoint, EmbeddedFrame;
    InvReady(c, w.sys);
    InvInflight(c, w.sys);
    if op.DoReopen? {
      ReopenGood(c, w.sys, w.ledger, op.cut, op.seed);
    }
  }

  lemma SurvivorFaithful(c: Env, s: Sys, t: Sys, l: Ledger)
    requires Survives(c, s, t) && Faithful(c, s, l)
    requires s.inflight.Unlinking? ==> s.inflight.n < |s.dir|
    ensures Faithful(c, t, Acknowledge(l, s, t))
  {
    hide Inv, Log, Descends, Faithful;
    FaithfulUnlink(c, s, l);
    FaithfulMoves(c, s, t, l, Acknowledge(l, s, t), s.batch[..t.durable - s.durable]);
  }

  lemma FaithfulUnlink(c: Env, s: Sys, l: Ledger)
    requires Faithful(c, s, l)
    ensures BoundedUnlink(s, l.floor)
  {
    hide Log;
  }

  lemma InvInflight(c: Env, s: Sys)
    requires Inv(c, s)
    ensures s.dir != []
    ensures s.inflight.Writing? ==> s.inflight.off <= |Active(s.dir).data|
    ensures s.inflight.Unlinking? ==> s.inflight.n < |s.dir|
  {
    hide Chain, RunOf;
    InvReady(c, s);
  }

  /** Every step of every operation, under every failure, keeps the log faithful to the ledger. */
  lemma StepGood(c: Env, w: World, op: Op)
    requires Good(c, w) && Fair(c, w, op)
    ensures Good(c, Step(c, w, op))
  {
    hide Inv, Faithful, Ready, TearVisible, OpenDir, Settle, Commit, Checkpoint, EmbeddedFrame;
    if w.Live? {
      var s, l := w.sys, w.ledger;
      InvReady(c, s);
      InvInflight(c, s);
      match op {
        case DoAppend(payload) => AppendGood(c, s, l, payload);
        case DoCommit(budget) => CommitGood(c, s, l, budget);
        case DoCheckpoint(upTo, budget) => CheckpointGood(c, s, l, upTo, budget);
        case DoReopen(cut, seed) => ReopenGood(c, s, l, cut, seed);
      }
    }
  }

  lemma AppendGood(c: Env, s: Sys, l: Ledger, payload: Bytes)
    requires Inv(c, s) && Faithful(c, s, l)
    ensures var t := Append(c, s, payload).0;
            Inv(c, t) && Faithful(c, t, l)
  {
    hide Inv, Log;
    AppendKeeps(c, s, payload);
  }

  // ----- Whole runs -----

  /** Every step of the run meets its assumption. */
  ghost predicate AllFair(c: Env, w: World, ops: seq<Op>)
    requires Good(c, w)
    decreases ops
  {
    ops == [] || (Fair(c, w, ops[0]) && (StepGood(c, w, ops[0]); AllFair(c, Step(c, w, ops[0]), ops[1..])))
  }

  ghost function Run(c: Env, w: World, ops: seq<Op>): (r: World)
    requires Good(c, w) && AllFair(c, w, ops)
    decreases ops
  {
    if ops == [] then w
    else
      StepGood(c, w, ops[0]);
      Run(c, Step(c, w, ops[0]), ops[1..])
  }

  lemma {:induction false} RunGood(c: Env, w: World, ops: seq<Op>)
    requires Good(c, w) && AllFair(c, w, ops)
    ensures Good(c, Run(c, w, ops))
    decreases ops
  {
    hide Inv, Faithful, EmbeddedFrame, TearVisible, Step;
    if ops != [] {
      StepGood(c, w, ops[0]);
      RunGood(c, Step(c, w, ops[0]), ops[1..]);
    }
  }

  /** A cold start in an empty directory. */
  function Start(c: Env, seed: u64): (w: World)
    requires c.Valid() && seed >= 1
  {
    Live(Handle(Opened([Fresh(c, seed)], HEADER_SIZE, seed - 1, CleanTail)), Ledger(seed, [], 0))
  }

  lemma StartGood(c: Env, seed: u64)
    requires c.Valid() && seed >= 1
    ensures OpenDir(c, [], seed) == Opened([Fresh(c, seed)], HEADER_SIZE, seed - 1, CleanTail)
    ensures Good(c, Start(c, seed))
  {
    hide RunOf, Fresh, Conclude, ZeroTail, Chain;
    FreshShape(c, seed);
    FreshAlone(c, seed);
    assert Log(c, [Fresh(c, seed)]) == [][0..];
  }

  /** The record the log holds under `lsn`. */
  function Recorded(c: Env, d: Dir, lsn: nat): (r: Option<Bytes>) {
    if d != [] && d[0].base <= lsn < d[0].base + |Log(c, d)| then Some(Log(c, d)[lsn - d[0].base]) else None
  }

  /** The record acknowledged to the client under `lsn`. */
  function Promised(l: Ledger, lsn: nat): (r: Option<Bytes>) {
    if l.origin <= lsn < l.origin + |l.acked| then Some(l.acked[lsn - l.origin]) else None
  }

  /**
    Crash safety. After any run from a cold start, either the log is up and holds, under its LSN and
    byte for byte, exactly the acknowledged records, of which only ones at or below the largest
    checkpoint bound may be gone; or the last open refused with TornMidLog at a torn record with an
    embedded frame, and the log was in that shape up to the crash.
   */
  lemma CrashSafety(c: Env, seed: u64, ops: seq<Op>)
    requires c.Valid() && seed >= 1 && Good(c, Start(c, seed)) && AllFair(c, Start(c, seed), ops)
    ensures var w := Run(c, Start(c, seed), ops);
            var s, l := w.sys, w.ledger;
            && (w.Down? ==> EmbeddedFrame(c, s, w.cut) && w.error == TornAt(c, s, w.cut) && Faithful(c, s, l))
            && (w.Live? ==>
                  && l.origin == seed && l.floor == LargestBound(0, ops)
                  && s.dir != []
                  && s.dir[0].base + |Log(c, s.dir)| == l.origin + |l.acked| == s.durable + 1
                  && forall lsn: nat :: Recorded(c, s.dir, lsn) == Promised(l, lsn)
                                        || (lsn <= l.floor && Recorded(c, s.dir, lsn) == None))
  {
    hide Inv, Log, EmbeddedFrame, Faithful, Recorded, Promised;
    var w := Run(c, Start(c, seed), ops);
    RunGood(c, Start(c, seed), ops);
    RunGrows(c, Start(c, seed), ops);
    FloorIsBound(c, Start(c, seed), ops);
    if w.Live? {
      FaithfulRecords(c, w.sys, w.ledger);
    }
  }

  lemma FaithfulRecords(c: Env, s: Sys, l: Ledger)
    requires Faithful(c, s, l)
    ensures s.dir != []
    ensures s.dir[0].base + |Log(c, s.dir)| == l.origin + |l.acked| == s.durable + 1
    ensures forall lsn: nat :: Recorded(c, s.dir, lsn) == Promised(l, lsn)
                               || (lsn <= l.floor && Recorded(c, s.dir, lsn) == None)
  {
    hide Log, Recorded, Promised, Faithful;
    FaithfulSpan(c, s, l);
    forall lsn: nat ensures Recorded(c, s.dir, lsn) == Promised(l, lsn)
                            || (lsn <= l.floor && Recorded(c, s.dir, lsn) == None)
    {
      FaithfulRecord(c, s, l, lsn);
    }
  }

  lemma FaithfulSpan(c: Env, s: Sys, l: Ledger)
    requires Faithful(c, s, l)
    ensures s.dir != []
    ensures s.dir[0].base + |Log(c, s.dir)| == l.origin + |l.acked| == s.durable + 1
  {
    hide Log;
  }

  lemma FaithfulRecord(c: Env, s: Sys, l: Ledger, lsn: nat)
    requires Faithful(c, s, l)
    ensures Recorded(c, s.dir, lsn) == Promised(l, lsn) || (lsn <= l.floor && Recorded(c, s.dir, lsn) == None)
  {
    hide Log;
    FaithfulSpan(c, s, l);
    DropAt(l.acked, s.dir[0].base - l.origin, lsn - s.dir[0].base);
  }

  lemma DropAt(acked: seq<Bytes>, drop: nat, i: int)
    requires drop <= |acked|
    ensures 0 <= i < |acked| - drop ==> acked[drop..][i] == acked[drop + i]
  {
  }

  /** An open that truncated, over any bytes at all, leaves the writer's shape: all zero behind the records. */
  lemma TruncatedIsTight(c: Env, d: Dir, seed: nat)
    requires seed <= MAX_LSN && OpenDir(c, d, seed).Opened? && OpenDir(c, d, seed).tail.TruncatedAt?
    ensures Tight(c, OpenDir(c, d, seed).dir)
  {
    hide OpenDir, RunOf, Chain, ZeroTail, Conclude, Discard, Fresh;
    OpenedFrom(c, d, seed);
    Concluded(c, Discard(c, d).value);
  }

  /**
    No resurrection. Let a directory holding any bytes at all open, by truncating its tail or with zeros
    behind its records. Then every later run finds exactly the records that survived plus those
    acknowledged since, whatever lay beyond the truncation point. (Leftover.CommitReopens is the exact
    condition for a single commit when other bytes lie behind a clean end.)
   */
  lemma NoResurrection(c: Env, d: Dir, seed: nat, ops: seq<Op>)
    requires seed <= MAX_LSN && OpenDir(c, d, seed).Opened?
    requires OpenDir(c, d, seed).tail.TruncatedAt? || Tight(c, OpenDir(c, d, seed).dir)
    ensures var r := OpenDir(c, d, seed);
            && r.dir != []
            && var w := Live(Handle(r), Ledger(r.dir[0].base, Log(c, r.dir), 0));
            && Good(c, w)
            && (AllFair(c, w, ops) ==>
                  match Run(c, w, ops)
                  case Down(e, s, l, cut) => EmbeddedFrame(c, s, cut) && e == TornAt(c, s, cut) && Faithful(c, s, l)
                  case Live(s, l) => Faithful(c, s, l) && Log(c, r.dir) <= l.acked && l.origin == r.dir[0].base)
  {
    hide Inv, Log, EmbeddedFrame, OpenDir, Tight;
    var r := OpenDir(c, d, seed);
    if r.tail.TruncatedAt? {
      TruncatedIsTight(c, d, seed);
    }
    TightGood(c, d, seed);
    var w := Live(Handle(r), Ledger(r.dir[0].base, Log(c, r.dir), 0));
    if AllFair(c, w, ops) {
      RunGood(c, w, ops);
      RunGrows(c, w, ops);
    }
  }

  lemma TightGood(c: Env, d: Dir, seed: nat)
    requires seed <= MAX_LSN && OpenDir(c, d, seed).Opened? && Tight(c, OpenDir(c, d, seed).dir)
    ensures var r := OpenDir(c, d, seed);
            r.dir != [] && Good(c, Live(Handle(r), Ledger(r.dir[0].base, Log(c, r.dir), 0)))
  {
    hide Log, OpenDir, RunOf, Chain, ZeroTail, Conclude, Discard, Fresh;
    var r := OpenDir(c, d, seed);
    OpenedFrom(c, d, seed);
    OpenSound(c, d, seed);
    ChainNonEmpty(c, r.dir);
    ChainDense(c, r.dir);
    NextFits(c, Active(r.dir));
    RunEndInFile(c, Active(r.dir));
    assert Log(c, r.dir)[0..] == Log(c, r.dir);
  }

  /**
    A poisoned handle is inert: whatever sequence of appends, commits and checkpoints follows, with
    whatever device, not one field of the state and not one acknowledgement changes until a reopen.
   */
  lemma {:induction false} PoisonedForever(c: Env, w: World, ops: seq<Op>)
    requires Good(c, w) && w.Live? && w.sys.poisoned && forall i :: 0 <= i < |ops| ==> !ops[i].DoReopen?
    ensures AllFair(c, w, ops)
    ensures Run(c, w, ops).Live? && Run(c, w, ops).sys == w.sys
    ensures Run(c, w, ops).ledger.acked == w.ledger.acked
    decreases ops
  {
    hide Inv, Faithful, EmbeddedFrame, Ready, CommitLoop, DeletablePrefixLen, OpenDir, Settle, TearVisible;
    if ops != [] {
      InvReady(c, w.sys);
      LastFits(c, w.sys);
      InvDir(c, w.sys);
      PoisonedIsInert(c, w.sys, if ops[0].DoAppend? then ops[0].payload else [],
                      if ops[0].DoCheckpoint? then ops[0].upTo else 0, if ops[0].DoAppend? then 0 else ops[0].budget);
      NilJoin(w.ledger.acked);
      StepGood(c, w, ops[0]);
      PoisonedForever(c, Step(c, w, ops[0]), ops[1..]);
    }
  }

  /** The payload that append accepts in this step, if any. */
  function Taken(c: Env, w: World, op: Op): (p: seq<Bytes>) {
    if w.Live? && op.DoAppend? && !w.sys.poisoned && |op.payload| <= c.maxRecordSize && w.sys.last < MAX_LSN
    then [op.payload] else []
  }

  /** The payloads the client was given an LSN for, in order. */
  ghost function Accepted(c: Env, w: World, ops: seq<Op>): (p: seq<Bytes>)
    requires Good(c, w) && AllFair(c, w, ops)
    decreases ops
  {
    if ops == [] then []
    else
      StepGood(c, w, ops[0]);
      Taken(c, w, ops[0]) + Accepted(c, Step(c, w, ops[0]), ops[1..])
  }

  /**
    The ledger is the client's: until a reopen, what is acknowledged and what is staged are together
    exactly what was there and the payloads that append accepted since, in order.
   */
  lemma {:induction false} LedgerIsClient(c: Env, w: World, ops: seq<Op>)
    requires Good(c, w) && w.Live? && AllFair(c, w, ops) && forall i :: 0 <= i < |ops| ==> !ops[i].DoReopen?
    ensures var r := Run(c, w, ops);
            r.Live? && r.ledger.acked + r.sys.batch == w.ledger.acked + w.sys.batch + Accepted(c, w, ops)
    decreases ops
  {
    hide Inv, Faithful, EmbeddedFrame, TearVisible, Step;
    if ops == [] {
      NilJoin(w.ledger.acked + w.sys.batch);
    } else {
      var v := Step(c, w, ops[0]);
      StepGood(c, w, ops[0]);
      StepLedger(c, w, ops[0]);
      LedgerIsClient(c, v, ops[1..]);
      JoinAssoc(w.ledger.acked + w.sys.batch, Taken(c, w, ops[0]), Accepted(c, v, ops[1..]));
    }
  }

  lemma StepLedger(c: Env, w: World, op: Op)
    requires Good(c, w) && w.Live? && Fair(c, w, op) && !op.DoReopen?
    ensures var v := Step(c, w, op);
            v.Live? && v.ledger.acked + v.sys.batch == w.ledger.acked + w.sys.batch + Taken(c, w, op)
  {
    hide Inv, Faithful, Ready, Commit, Checkpoint, OpenDir, Settle;
    var s, l := w.sys, w.ledger;
    InvReady(c, s);
    InvDir(c, s);
    LastFits(c, s);
    NilJoin(l.acked + s.batch);
    match op {
      case DoAppend(payload) => JoinAssoc(l.acked, s.batch, [payload]);
      case DoCommit(budget) => CommitLedger(c, s, l, budget);
      case DoCheckpoint(upTo, budget) => CheckpointKeeps(c, s, upTo, budget);
    }
  }

  lemma CommitLedger(c: Env, s: Sys, l: Ledger, budget: nat)
    requires Inv(c, s) && Ready(c, s)
    ensures var t := Commit(c, s, budget).0;
            Acknowledge(l, s, t).acked + t.batch == l.acked + s.batch
  {
    hide Inv, Ready, CommitLoop, CommitError, Log, Grown, Watermarks;
    var t := Commit(c, s, budget).0;
    if !s.poisoned {
      UnpoisonedIdle(c, s);
      CommitRuns(c, s, budget);
    } else {
      NilJoin(l.acked);
    }
    var k := t.durable - s.durable;
    JoinAssoc(l.acked, s.batch[..k], s.batch[k..]);
    assert s.batch[..k] + s.batch[k..] == s.batch;
  }

  /** The largest bound passed to checkpoint along a run, or `floor` if that is larger. */
  function LargestBound(floor: nat, ops: seq<Op>): (b: nat)
    ensures b >= floor && forall i :: 0 <= i < |ops| && ops[i].DoCheckpoint? ==> ops[i].upTo <= b
    ensures b == floor || exists i :: 0 <= i < |ops| && ops[i].DoCheckpoint? && ops[i].upTo == b
    decreases ops
  {
    if ops == [] then floor
    else LargestBound(if ops[0].DoCheckpoint? && ops[0].upTo > floor then ops[0].upTo else floor, ops[1..])
  }

  /** The ledger's floor is the largest bound the client ever passed to checkpoint. */
  lemma {:induction false} FloorIsBound(c: Env, w: World, ops: seq<Op>)
    requires Good(c, w) && AllFair(c, w, ops)
    ensures w.Live? && Run(c, w, ops).Live? ==> Run(c, w, ops).ledger.floor == LargestBound(w.ledger.floor, ops)
    decreases ops
  {
    hide Inv, Faithful, EmbeddedFrame, TearVisible, Ready, OpenDir, Settle, Commit, Checkpoint, Append;
    if ops != [] {
      StepGood(c, w, ops[0]);
      RunGrows(c, Step(c, w, ops[0]), ops[1..]);
      FloorIsBound(c, Step(c, w, ops[0]), ops[1..]);
    }
  }

  // ----- What never changes along a run -----

  /** Acknowledged records are never forgotten or rewritten, and the origin never moves. */
  ghost predicate Grows(w: World, w': World) {
    w.Live? && w'.Live? ==>
      w'.ledger.origin == w.ledger.origin && w.ledger.acked <= w'.ledger.acked && w.ledger.floor <= w'.ledger.floor
  }

  lemma {:induction false} RunGrows(c: Env, w: World, ops: seq<Op>)
    requires Good(c, w) && AllFair(c, w, ops)
    ensures Grows(w, Run(c, w, ops))
    ensures w.Down? ==> Run(c, w, ops) == w
    decreases ops
  {
    hide Faithful, Inv, EmbeddedFrame, TearVisible, Step;
    if ops != [] {
      StepGood(c, w, ops[0]);
      StepGrows(c, w, ops[0]);
      RunGrows(c, Step(c, w, ops[0]), ops[1..]);
    }
  }

  lemma StepGrows(c: Env, w: World, op: Op)
    requires (w.Live? ==> Inv(c, w.sys)) && (op.DoReopen? ==> op.seed <= MAX_LSN)
    ensures Grows(w, Step(c, w, op)) && (w.Down? ==> Step(c, w, op) == w)
  {
    hide Inv, Commit, Append, Checkpoint, OpenDir, Settle;
  }

  /** Sealed files that a checkpoint has not removed are still there, sealed, with the same bytes. */
  ghost predicate Persist(d: Dir, d': Dir) {
    && d != [] && d' != [] && d[0].base <= d'[0].base
    && forall i :: 0 <= i < |d| - 1 && d[i].base >= d'[0].base ==> d[i] in d'[..|d'| - 1]
  }

  lemma PersistTrans(a: Dir, b: Dir, d: Dir)
    requires Persist(a, b) && Persist(b, d)
    ensures Persist(a, d)
  {
    forall i | 0 <= i < |a| - 1 && a[i].base >= d[0].base ensures a[i] in d[..|d| - 1] {
      assert a[i] in b[..|b| - 1];
      var j :| 0 <= j < |b| - 1 && b[..|b| - 1][j] == a[i];
      assert b[j] == a[i];
    }
  }

  lemma DescendsPersist(c: Env, d: Dir, d': Dir)
    requires Chain(c, d) && Descends(d, d') && d' != [] && d[0].base <= d'[0].base
    ensures Persist(d, d')
  {
    hide Chain;
    var k: nat :| k < |d| && Grown(d[k..], d');
    var t := d[k..];
    forall i | 0 <= i < |d| - 1 && d[i].base >= d'[0].base ensures d[i] in d'[..|d'| - 1] {
      assert d'[0].base == t[0].base == d[k].base by {
        assert |t| > 1 ==> d'[0] == d'[..|t| - 1][0] == t[..|t| - 1][0];
      }
      if i < k {
        ChainAscending(c, d, i, k);
      } else {
        assert d[i] == t[i - k] == t[..|t| - 1][i - k] == d'[..|t| - 1][i - k];
        assert d'[..|d'| - 1][i - k] == d[i];
      }
    }
  }

  lemma StepPersists(c: Env, w: World, op: Op)
    requires Good(c, w) && Fair(c, w, op)
    ensures w.Live? && Step(c, w, op).Live? ==> Persist(w.sys.dir, Step(c, w, op).sys.dir)
  {
    hide Inv, Faithful, Ready, TearVisible, OpenDir, Settle, EmbeddedFrame, Persist;
    hide Commit, Checkpoint, Chain, Descends, Survives;
    if w.Live? {
      var s := w.sys;
      InvReady(c, s);
      ReadyParts(c, s);
      InvInflight(c, s);
      InvChain(c, s);
      SelfDescends(s.dir);
      DescendsPersist(c, s.dir, s.dir);
      match op {
        case DoAppend(payload) =>
        case DoCommit(budget) => CommitPersists(c, s, budget);
        case DoCheckpoint(upTo, budget) => CheckpointPersists(c, s, upTo, budget);
        case DoReopen(cut, seed) =>
          ReopenGood(c, s, w.ledger, cut, seed);
          if OpenDir(c, Settle(c, s, cut), seed).Opened? {
            SurvivorPersists(c, s, Handle(OpenDir(c, Settle(c, s, cut), seed)));
          }
      }
    }
  }

  lemma SurvivorPersists(c: Env, s: Sys, t: Sys)
    requires Inv(c, s) && Survives(c, s, t)
    ensures Persist(s.dir, t.dir)
  {
    hide Inv, Log, Descends, Persist;
    InvChain(c, s);
    DescendsPersist(c, s.dir, t.dir);
  }

  lemma CommitPersists(c: Env, s: Sys, budget: nat)
    requires Inv(c, s) && Ready(c, s)
    ensures Persist(s.dir, Commit(c, s, budget).0.dir)
  {
    hide Inv, Ready, CommitLoop, Log, Persist, Watermarks, Grown;
    InvDir(c, s);
    InvChain(c, s);
    if s.poisoned {
      SelfDescends(s.dir);
      DescendsPersist(c, s.dir, s.dir);
    } else {
      UnpoisonedIdle(c, s);
      CommitRuns(c, s, budget);
      var t := CommitLoop(c, s, budget);
      InvDir(c, t);
      assert s.dir[0..] == s.dir;
      assert Grown(s.dir[0..], t.dir);
      DescendsPersist(c, s.dir, t.dir);
    }
  }

  lemma CheckpointPersists(c: Env, s: Sys, upTo: nat, budget: nat)
    requires Inv(c, s) && s.dir != []
    ensures Persist(s.dir, Checkpoint(s, upTo, budget).0.dir)
  {
    hide Inv, DeletablePrefixLen, Persist, Chain;
    InvChain(c, s);
    DropPersists(c, s.dir, 0);
    assert s.dir[0..] == s.dir;
    DropPersists(c, s.dir, DeletablePrefixLen(Bases(s.dir), upTo));
  }

  lemma DropPersists(c: Env, d: Dir, n: nat)
    requires Chain(c, d) && n < |d|
    ensures Persist(d, d[n..])
  {
    hide Chain, Persist;
    assert Grown(d[n..], d[n..]);
    if n > 0 {
      ChainAscending(c, d, 0, n);
    }
    DescendsPersist(c, d, d[n..]);
  }

  /** Over every run, once a segment is sealed its bytes never change until a checkpoint removes it. */
  lemma {:induction false} SealedForever(c: Env, w: World, ops: seq<Op>)
    requires Good(c, w) && AllFair(c, w, ops)
    ensures w.Live? && Run(c, w, ops).Live? ==> Persist(w.sys.dir, Run(c, w, ops).sys.dir)
    decreases ops
  {
    hide Inv, Faithful, EmbeddedFrame, TearVisible, Step, Persist;
    if ops == [] {
      if w.Live? {
        InvDir(c, w.sys);
        InvChain(c, w.sys);
        SelfDescends(w.sys.dir);
        DescendsPersist(c, w.sys.dir, w.sys.dir);
      }
    } else {
      var v := Step(c, w, ops[0]);
      StepGood(c, w, ops[0]);
      StepPersists(c, w, ops[0]);
      RunGrows(c, v, ops[1..]);
      SealedForever(c, v, ops[1..]);
      if w.Live? && Run(c, w, ops).Live? {
        PersistTrans(w.sys.dir, v.sys.dir, Run(c, w, ops).sys.dir);
      }
    }
  }
}
