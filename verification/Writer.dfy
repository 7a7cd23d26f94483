/**
  The single writer as a state machine over device calls.

  `dir` is what the device has made durable; `inflight` is the one operation that may have been
  started but not synced. Every call of an operation either succeeds or fails, and the first
  failure poisons the handle, so an operation's fate is the number of calls that succeed before
  one fails: its `budget`. A crash inside an operation is such a failure followed by a reopen.
 */
module Writer {
  import opened ByteString
  import opened Config
  import opened Segment
  import opened Recovery
  import opened Directory
  import opened Open
  import R = Record

  datatype Inflight =
    | Nothing
    | Writing(off: nat, data: Bytes)
    | Creating(base: u64)
    | Unlinking(n: nat)

  /** `batch` is the staged, not yet durable payloads; the staging buffer holds their frames. */
  datatype Sys = Sys(
    dir: Dir,
    inflight: Inflight,
    writeOffset: nat,
    last: nat,
    durable: nat,
    batch: seq<Bytes>,
    poisoned: bool,
    observed: seq<nat>)

  /** Device calls of one prefix write: the write and its sync. */
  const WRITE_CALLS := 2
  /** Device calls of one roll: create, pre-allocate, header write, sync, directory sync. */
  const ROLL_CALLS := 5

  // ----- Append -----

  function Append(c: Env, s: Sys, payload: Bytes): (r: (Sys, Option<WalError>))
    requires s.last <= MAX_LSN
  {
    if s.poisoned then (s, Some(Poisoned))
    else if |payload| > c.maxRecordSize then (s, Some(RecordTooLarge))
    else if s.last == MAX_LSN then (s, Some(LsnExhausted))
    else (s.(batch := s.batch + [payload], last := s.last + 1), None)
  }

  // ----- Commit -----

  /** How many whole records of `batch`, from the front, fit in `room` bytes. */
  function Fit(room: nat, batch: seq<Bytes>): (k: nat)
    ensures k <= |batch|
  {
    if batch == [] || R.FramedSize(|batch[0]|) > room then 0
    else 1 + Fit(room - R.FramedSize(|batch[0]|), batch[1..])
  }

  /** The writer's numbers are consistent: the commit loop may run. */
  predicate Ready(c: Env, s: Sys) {
    && c.Valid() && Sized(c, s.batch)
    && s.dir != [] && HEADER_SIZE <= s.writeOffset <= c.segmentSize && s.writeOffset <= |Active(s.dir).data|
    && s.durable + |s.batch| <= MAX_LSN
  }

  /** What holds of every handle, whatever bytes its segments hold: the numbers fit, and a live handle is idle. */
  predicate Sane(c: Env, s: Sys) {
    && Ready(c, s) && s.last == s.durable + |s.batch|
    && (s.inflight.Writing? ==> s.inflight.off == s.writeOffset)
    && (!s.poisoned ==> s.inflight == Nothing)
  }

  function Room(c: Env, s: Sys): (n: nat)
    requires s.writeOffset <= c.segmentSize
  {
    c.segmentSize - s.writeOffset
  }

  function Chunk(c: Env, s: Sys, k: nat): (b: Bytes)
    requires k <= |s.batch|
  {
    R.Frames(c.crc, s.durable + 1, s.batch[..k])
  }

  /** The first `k` staged records are written and synced. */
  function Wrote(c: Env, s: Sys, k: nat): (r: Sys)
    requires s.dir != [] && s.writeOffset <= |Active(s.dir).data| && k <= |s.batch|
  {
    var data := Chunk(c, s, k);
    s.(dir := Replace(s.dir, Overwrite(Active(s.dir).data, s.writeOffset, data)),
       writeOffset := s.writeOffset + |data|,
       durable := s.durable + k,
       batch := s.batch[k..],
       observed := s.observed + [s.durable + k])
  }

  /** The active segment is sealed and a fresh one, based at the next LSN, takes its place. */
  function Rolled(c: Env, s: Sys): (r: Sys)
    requires c.Valid() && s.durable < MAX_LSN
  {
    s.(dir := s.dir + [Fresh(c, s.durable + 1)], writeOffset := HEADER_SIZE)
  }

  /** The commit loop: write the prefix that fits, roll when none does, stop at the first failure. */
  function CommitLoop(c: Env, s: Sys, budget: nat): (r: Sys)
    requires Ready(c, s)
    decreases |s.batch|, if s.writeOffset == HEADER_SIZE then 0 else 1
  {
    if s.batch == [] then s
    else
      var k := Fit(Room(c, s), s.batch);
      FitFacts(c, s);
      if k == 0 then
        if budget < ROLL_CALLS then s.(poisoned := true, inflight := Creating(s.durable + 1))
        else CommitLoop(c, Rolled(c, s), budget - ROLL_CALLS)
      else if budget < WRITE_CALLS then
        s.(poisoned := true, inflight := Writing(s.writeOffset, Chunk(c, s, k)))
      else CommitLoop(c, Wrote(c, s, k), budget - WRITE_CALLS)
  }

  /** What the commit loop reports: a failed sync of a prefix has its own error, every other call is an I/O error. */
  function CommitError(c: Env, s: Sys, budget: nat): (e: Option<WalError>)
    requires Ready(c, s)
    decreases |s.batch|, if s.writeOffset == HEADER_SIZE then 0 else 1
  {
    if s.batch == [] then None
    else
      var k := Fit(Room(c, s), s.batch);
      FitFacts(c, s);
      if k == 0 then
        if budget < ROLL_CALLS then Some(IoFailed) else CommitError(c, Rolled(c, s), budget - ROLL_CALLS)
      else if budget == 0 then Some(IoFailed)
      else if budget == 1 then Some(FsyncFailed)
      else CommitError(c, Wrote(c, s, k), budget - WRITE_CALLS)
  }

  function Commit(c: Env, s: Sys, budget: nat): (r: (Sys, Option<WalError>))
    requires Ready(c, s)
  {
    if s.poisoned then (s, Some(Poisoned))
    else
      (CommitLoop(c, s, budget), CommitError(c, s, budget))
  }

  // ----- Checkpoint -----

  /** How many of the oldest segments lie wholly at or below `upTo`; the active one never counts. */
  function DeletablePrefixLen(bases: seq<nat>, upTo: nat): (n: nat)
    ensures n == 0 || n < |bases|
  {
    if |bases| < 2 || bases[1] - 1 > upTo then 0
    else 1 + DeletablePrefixLen(bases[1..], upTo)
  }

  function Bases(d: Dir): (b: seq<nat>)
    ensures |b| == |d|
    ensures forall i :: 0 <= i < |d| ==> b[i] == d[i].base
  {
    seq(|d|, i requires 0 <= i < |d| => d[i].base)
  }

  /** Unlink oldest first, then one directory sync; the in-memory state moves only after that. */
  function Checkpoint(s: Sys, upTo: nat, budget: nat): (r: (Sys, Option<WalError>))
    requires s.dir != []
  {
    var n := DeletablePrefixLen(Bases(s.dir), upTo);
    if s.poisoned then (s, Some(Poisoned))
    else if n == 0 then (s, None)
    else if budget < n + 1 then
      (s.(poisoned := true, inflight := Unlinking(if budget < n then budget else n)), Some(IoFailed))
    else (s.(dir := s.dir[n..]), None)
  }

  // ----- Arithmetic of the split -----

  lemma {:induction false} FitSpec(crc: Bytes -> u32, lsn: nat, room: nat, batch: seq<Bytes>)
    ensures var k := Fit(room, batch);
            && |R.Frames(crc, lsn, batch[..k])| <= room
            && (k < |batch| ==> |R.Frames(crc, lsn, batch[..k])| + R.FramedSize(|batch[k]|) > room)
    decreases batch
  {
    hide R.FramedSize, R.Frame;
    var k := Fit(room, batch);
    if k > 0 {
      FitSpec(crc, lsn + 1, room - R.FramedSize(|batch[0]|), batch[1..]);
      assert batch[..k][1..] == batch[1..][..k - 1];
    }
  }

  lemma FitStep(room: nat, batch: seq<Bytes>)
    requires batch != []
    ensures Fit(room, batch) == if R.FramedSize(|batch[0]|) > room then 0
                                else 1 + Fit(room - R.FramedSize(|batch[0]|), batch[1..])
  {
    hide R.FramedSize;
  }

  lemma FitFacts(c: Env, s: Sys)
    requires Ready(c, s) && s.batch != []
    ensures var k := Fit(Room(c, s), s.batch);
            && (k == 0 ==> s.writeOffset != HEADER_SIZE && s.durable < MAX_LSN && Ready(c, Rolled(c, s)))
            && |Chunk(c, s, k)| <= Room(c, s)
            && (k > 0 ==> Ready(c, Wrote(c, s, k)))
  {
    hide R.Frames, Overwrite, Fresh;
    FitSpec(c.crc, s.durable + 1, Room(c, s), s.batch);
  }

  /** After a maximal prefix has been taken, the next record does not fit what is left. */
  lemma {:induction false} FitMaximal(crc: Bytes -> u32, lsn: nat, room: nat, batch: seq<Bytes>)
    requires |R.Frames(crc, lsn, batch[..Fit(room, batch)])| <= room
    ensures var k := Fit(room, batch);
            Fit(room - |R.Frames(crc, lsn, batch[..k])|, batch[k..]) == 0
  {
    hide R.FramedSize, R.Frames;
    FitSpec(crc, lsn, room, batch);
  }

  // ----- One turn of the commit loop -----

  lemma ReadyParts(c: Env, s: Sys)
    requires Ready(c, s)
    ensures c.Valid() && Sized(c, s.batch) && s.dir != []
    ensures s.writeOffset <= c.segmentSize && s.writeOffset <= |Active(s.dir).data|
    ensures s.durable + |s.batch| <= MAX_LSN
  {
  }

  lemma LoopWrites(c: Env, s: Sys, k: nat, budget: nat)
    requires Ready(c, s) && s.batch != [] && k == Fit(Room(c, s), s.batch) > 0
    ensures Ready(c, Wrote(c, s, k))
    ensures CommitLoop(c, s, budget) ==
            if budget < WRITE_CALLS then s.(poisoned := true, inflight := Writing(s.writeOffset, Chunk(c, s, k)))
            else CommitLoop(c, Wrote(c, s, k), budget - WRITE_CALLS)
    ensures CommitError(c, s, budget) ==
            if budget == 0 then Some(IoFailed) else if budget == 1 then Some(FsyncFailed)
            else CommitError(c, Wrote(c, s, k), budget - WRITE_CALLS)
  {
    hide Fit, Ready, Wrote, Chunk;
    FitFacts(c, s);
  }

  lemma LoopRolls(c: Env, s: Sys, budget: nat)
    requires Ready(c, s) && s.batch != [] && Fit(Room(c, s), s.batch) == 0
    ensures c.Valid() && s.durable < MAX_LSN && s.writeOffset != HEADER_SIZE && Ready(c, Rolled(c, s))
    ensures CommitLoop(c, s, budget) ==
            if budget < ROLL_CALLS then s.(poisoned := true, inflight := Creating(s.durable + 1))
            else CommitLoop(c, Rolled(c, s), budget - ROLL_CALLS)
    ensures CommitError(c, s, budget) ==
            if budget < ROLL_CALLS then Some(IoFailed) else CommitError(c, Rolled(c, s), budget - ROLL_CALLS)
  {
    hide Fit, Rolled, Chunk;
    FitFacts(c, s);
  }

  lemma WroteParts(c: Env, s: Sys, k: nat)
    requires s.dir != [] && s.writeOffset <= |Active(s.dir).data| && k <= |s.batch|
    ensures var t := Wrote(c, s, k);
            && t.batch == s.batch[k..] && t.durable == s.durable + k
            && t.writeOffset == s.writeOffset + |Chunk(c, s, k)|
            && t.poisoned == s.poisoned && t.inflight == s.inflight
  {
  }

  lemma NothingWritten(c: Env, s: Sys)
    requires s.dir != [] && s.writeOffset <= |Active(s.dir).data|
    ensures Chunk(c, s, 0) == []
    ensures Replace(s.dir, Overwrite(Active(s.dir).data, s.writeOffset, Chunk(c, s, 0))) == s.dir
  {
    assert s.batch[..0] == [];
    R.FramesNil(c.crc, s.durable + 1);
    var data := Active(s.dir).data;
    assert Overwrite(data, s.writeOffset, []) == data;
    assert Replace(s.dir, data) == s.dir;
  }

  lemma RolledParts(c: Env, s: Sys)
    requires c.Valid() && s.durable < MAX_LSN
    ensures var t := Rolled(c, s);
            && t.batch == s.batch && t.durable == s.durable && t.writeOffset == HEADER_SIZE
            && t.poisoned == s.poisoned && t.inflight == s.inflight
  {
  }

  /** Whether or not a prefix was just written, the next record does not fit. */
  lemma NothingFits(c: Env, v: Sys, u: Sys, k: nat)
    requires Ready(c, v) && Ready(c, u) && v.batch != [] && k == Fit(Room(c, v), v.batch)
    requires k == 0 ==> u == v
    requires k > 0 ==> u == Wrote(c, v, k)
    ensures Fit(Room(c, u), u.batch) == 0
  {
    hide R.Frames, Fit, Ready;
    ReadyParts(c, v);
    ReadyParts(c, u);
    FitFacts(c, v);
    if k > 0 {
      FitMaximal(c.crc, v.durable + 1, Room(c, v), v.batch);
    }
  }

  lemma LoopEnds(c: Env, s: Sys, budget: nat)
    requires Ready(c, s) && s.batch == []
    ensures CommitLoop(c, s, budget) == s && CommitError(c, s, budget) == None
  {
    hide Ready;
  }

  /**
    The error names the call that failed: a commit reports one if and only if the handle ends poisoned,
    and reports a failed sync only with a prefix write in flight.
   */
  lemma {:induction false} ErrorNamesFailure(c: Env, s: Sys, budget: nat)
    requires Ready(c, s) && !s.poisoned
    ensures var t := CommitLoop(c, s, budget);
            && (CommitError(c, s, budget).Some? <==> t.poisoned)
            && (CommitError(c, s, budget) == Some(FsyncFailed) ==> t.inflight.Writing?)
            && (CommitError(c, s, budget).None? || CommitError(c, s, budget).value in {IoFailed, FsyncFailed})
    decreases |s.batch|, if s.writeOffset == HEADER_SIZE then 0 else 1
  {
    hide Fit, Chunk, Ready, CommitLoop, CommitError, Rolled, Wrote;
    ReadyParts(c, s);
    var k := Fit(Room(c, s), s.batch);
    if s.batch == [] {
      LoopEnds(c, s, budget);
    } else if k == 0 {
      LoopRolls(c, s, budget);
      RolledParts(c, s);
      if budget >= ROLL_CALLS {
        ErrorNamesFailure(c, Rolled(c, s), budget - ROLL_CALLS);
      }
    } else {
      LoopWrites(c, s, k, budget);
      WroteParts(c, s, k);
      if budget >= WRITE_CALLS {
        ErrorNamesFailure(c, Wrote(c, s, k), budget - WRITE_CALLS);
      }
    }
  }

  /** The loop only adds: durable records, and segments based past what was durable before. */
  lemma {:induction false} LoopGrows(c: Env, s: Sys, budget: nat)
    requires Ready(c, s)
    ensures var t := CommitLoop(c, s, budget);
            && s.durable <= t.durable && |s.dir| <= |t.dir|
            && (forall i :: 0 <= i < |s.dir| ==> t.dir[i].base == s.dir[i].base)
            && (forall i :: |s.dir| <= i < |t.dir| ==> t.dir[i].base > s.durable)
    decreases |s.batch|, if s.writeOffset == HEADER_SIZE then 0 else 1
  {
    hide Fit, Chunk, Ready, CommitLoop, CommitError, Rolled, Wrote;
    ReadyParts(c, s);
    var k := Fit(Room(c, s), s.batch);
    if s.batch == [] {
      LoopEnds(c, s, budget);
    } else if k == 0 {
      LoopRolls(c, s, budget);
      RolledParts(c, s);
      RolledBases(c, s);
      if budget >= ROLL_CALLS {
        LoopGrows(c, Rolled(c, s), budget - ROLL_CALLS);
      }
    } else {
      LoopWrites(c, s, k, budget);
      WroteParts(c, s, k);
      WroteBases(c, s, k);
      if budget >= WRITE_CALLS {
        LoopGrows(c, Wrote(c, s, k), budget - WRITE_CALLS);
      }
    }
  }

  lemma RolledBases(c: Env, s: Sys)
    requires c.Valid() && s.durable < MAX_LSN
    ensures var d := Rolled(c, s).dir;
            && |d| == |s.dir| + 1 && d[|s.dir|].base == s.durable + 1
            && (forall i :: 0 <= i < |s.dir| ==> d[i].base == s.dir[i].base)
            && Rolled(c, s).observed == s.observed
  {
    hide Fresh;
  }

  lemma WroteBases(c: Env, s: Sys, k: nat)
    requires s.dir != [] && s.writeOffset <= |Active(s.dir).data| && k <= |s.batch|
    ensures var d := Wrote(c, s, k).dir;
            && |d| == |s.dir| && (forall i :: 0 <= i < |s.dir| ==> d[i].base == s.dir[i].base)
            && Wrote(c, s, k).observed == s.observed + [s.durable + k]
  {
    hide Overwrite, Chunk;
    var d := Wrote(c, s, k).dir;
    forall i | 0 <= i < |s.dir| ensures d[i].base == s.dir[i].base {
      assert i < |s.dir| - 1 ==> d[i] == d[..|s.dir| - 1][i] == s.dir[..|s.dir| - 1][i];
    }
  }

  /** FsyncFailed means what it says: with one call more, and only then, more records would be durable. */
  lemma {:induction false} OneMoreCall(c: Env, s: Sys, budget: nat)
    requires Ready(c, s) && !s.poisoned
    ensures CommitError(c, s, budget) == Some(FsyncFailed) <==>
            CommitLoop(c, s, budget).poisoned && CommitLoop(c, s, budget + 1).durable > CommitLoop(c, s, budget).durable
    decreases |s.batch|, if s.writeOffset == HEADER_SIZE then 0 else 1
  {
    hide Fit, Chunk, Ready, CommitLoop, CommitError, Rolled, Wrote;
    ReadyParts(c, s);
    var k := Fit(Room(c, s), s.batch);
    if s.batch == [] {
      LoopEnds(c, s, budget);
    } else if k == 0 {
      LoopRolls(c, s, budget);
      LoopRolls(c, s, budget + 1);
      RolledParts(c, s);
      if budget >= ROLL_CALLS {
        OneMoreCall(c, Rolled(c, s), budget - ROLL_CALLS);
      } else if budget + 1 == ROLL_CALLS {
        NoCalls(c, Rolled(c, s));
      }
    } else {
      LoopWrites(c, s, k, budget);
      LoopWrites(c, s, k, budget + 1);
      WroteParts(c, s, k);
      if budget >= WRITE_CALLS {
        OneMoreCall(c, Wrote(c, s, k), budget - WRITE_CALLS);
      } else if budget == 1 {
        LoopGrows(c, Wrote(c, s, k), 0);
      }
    }
  }

  lemma NoCalls(c: Env, s: Sys)
    requires Ready(c, s)
    ensures CommitLoop(c, s, 0).durable == s.durable
  {
    hide Fit, Chunk, Ready, CommitLoop, Rolled, Wrote;
    ReadyParts(c, s);
    if s.batch == [] {
      LoopEnds(c, s, 0);
    } else if Fit(Room(c, s), s.batch) == 0 {
      LoopRolls(c, s, 0);
    } else {
      LoopWrites(c, s, Fit(Room(c, s), s.batch), 0);
    }
  }

  // ----- Every operation keeps the numbers, under every failure -----

  lemma AppendSane(c: Env, s: Sys, payload: Bytes)
    requires Sane(c, s)
    ensures s.last <= MAX_LSN && Sane(c, Append(c, s, payload).0)
  {
  }

  /** A commit, whole or cut short, keeps the numbers, the last LSN and the oldest base. */
  lemma {:induction false} CommitSane(c: Env, s: Sys, budget: nat)
    requires Sane(c, s) && !s.poisoned
    ensures var t := CommitLoop(c, s, budget);
            && Sane(c, t) && t.dir != [] && t.dir[0].base == s.dir[0].base && t.last == s.last
    decreases |s.batch|, if s.writeOffset == HEADER_SIZE then 0 else 1
  {
    hide Fit, Chunk, Ready, CommitLoop, CommitError, Rolled, Wrote;
    ReadyParts(c, s);
    var k := Fit(Room(c, s), s.batch);
    if s.batch == [] {
      LoopEnds(c, s, budget);
    } else if k == 0 {
      LoopRolls(c, s, budget);
      RolledParts(c, s);
      RolledFirst(c, s);
      StuckReady(c, s, Creating(s.durable + 1));
      if budget >= ROLL_CALLS {
        CommitSane(c, Rolled(c, s), budget - ROLL_CALLS);
      }
    } else {
      LoopWrites(c, s, k, budget);
      WroteParts(c, s, k);
      WroteFirst(c, s, k);
      StuckReady(c, s, Writing(s.writeOffset, Chunk(c, s, k)));
      if budget >= WRITE_CALLS {
        CommitSane(c, Wrote(c, s, k), budget - WRITE_CALLS);
      }
    }
  }

  lemma StuckReady(c: Env, s: Sys, inflight: Inflight)
    requires Ready(c, s)
    ensures Ready(c, s.(poisoned := true, inflight := inflight))
  {
  }

  lemma RolledFirst(c: Env, s: Sys)
    requires c.Valid() && s.durable < MAX_LSN && s.dir != []
    ensures Rolled(c, s).dir != [] && Rolled(c, s).dir[0].base == s.dir[0].base && Rolled(c, s).last == s.last
  {
    hide Fresh;
  }

  lemma WroteFirst(c: Env, s: Sys, k: nat)
    requires s.dir != [] && s.writeOffset <= |Active(s.dir).data| && k <= |s.batch|
    ensures var t := Wrote(c, s, k);
            t.dir != [] && t.dir[0].base == s.dir[0].base && t.last == s.last
  {
    hide Overwrite, Chunk;
    var t := Wrote(c, s, k);
    assert |s.dir| > 1 ==> t.dir[0] == t.dir[..|s.dir| - 1][0] == s.dir[..|s.dir| - 1][0];
  }

  lemma CheckpointSane(c: Env, s: Sys, upTo: nat, budget: nat)
    requires Sane(c, s)
    ensures Sane(c, Checkpoint(s, upTo, budget).0)
  {
    hide DeletablePrefixLen;
  }
}
