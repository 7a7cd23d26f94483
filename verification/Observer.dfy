/** What the durability observer is told: one watermark for each synced prefix, and no other. */
module Observer {
  import opened ByteString
  import opened Config
  import opened Segment
  import opened Directory
  import opened Writer
  import opened Invariant

  /**
    The LSNs at which a commit that took `s` to `t` has just synced: where it ended, and the last one
    in front of each segment it rolled to.
   */
  ghost predicate Mark(s: Sys, t: Sys, lsn: nat) {
    && s.durable < lsn <= t.durable
    && (lsn == t.durable || exists i :: |s.dir| <= i < |t.dir| && t.dir[i].base == lsn + 1)
  }

  /** The observer was told exactly these, in order. */
  ghost predicate Told(s: Sys, t: Sys) {
    && s.observed <= t.observed
    && var told := t.observed[|s.observed|..];
    && Increasing(told)
    && (forall lsn :: lsn in told ==> Mark(s, t, lsn))
    && (forall lsn: nat :: Mark(s, t, lsn) ==> lsn in told)
  }

  /** For every commit, whole or cut short by a failure. */
  lemma {:induction false} ToldExactly(c: Env, s: Sys, budget: nat)
    requires Ready(c, s)
    ensures Told(s, CommitLoop(c, s, budget))
    decreases |s.batch|, if s.writeOffset == HEADER_SIZE then 0 else 1
  {
    hide Fit, Chunk, Ready, CommitLoop, CommitError, Rolled, Wrote, Told;
    ReadyParts(c, s);
    var k := Fit(Room(c, s), s.batch);
    var t := CommitLoop(c, s, budget);
    if s.batch == [] {
      LoopEnds(c, s, budget);
      ToldNothing(s, t);
    } else if k == 0 {
      LoopRolls(c, s, budget);
      RolledParts(c, s);
      RolledBases(c, s);
      if budget < ROLL_CALLS {
        ToldNothing(s, t);
      } else {
        ToldExactly(c, Rolled(c, s), budget - ROLL_CALLS);
        LoopGrows(c, Rolled(c, s), budget - ROLL_CALLS);
        ToldAfterRoll(s, Rolled(c, s), t);
      }
    } else {
      LoopWrites(c, s, k, budget);
      WroteParts(c, s, k);
      WroteBases(c, s, k);
      if budget < WRITE_CALLS {
        ToldNothing(s, t);
      } else {
        var u := Wrote(c, s, k);
        ToldExactly(c, u, budget - WRITE_CALLS);
        LoopGrows(c, u, budget - WRITE_CALLS);
        RollFollows(c, s, k, budget - WRITE_CALLS);
        ToldAfterWrite(s, u, t);
      }
    }
  }

  lemma ToldNothing(s: Sys, t: Sys)
    requires t.observed == s.observed && t.durable == s.durable
    ensures Told(s, t)
  {
  }

  lemma ToldAfterRoll(s: Sys, u: Sys, t: Sys)
    requires Told(u, t) && u.observed == s.observed && u.durable == s.durable && |u.dir| == |s.dir| + 1 <= |t.dir|
    requires t.dir[|s.dir|].base == s.durable + 1
    ensures Told(s, t)
  {
    forall lsn: nat ensures Mark(s, t, lsn) <==> Mark(u, t, lsn) {
    }
  }

  /** After a prefix has been written, what becomes durable next is in a segment rolled to. */
  lemma RollFollows(c: Env, s: Sys, k: nat, budget: nat)
    requires Ready(c, s) && s.batch != [] && k == Fit(Room(c, s), s.batch) > 0
    ensures var u := Wrote(c, s, k);
            && Ready(c, u)
            && var t := CommitLoop(c, u, budget);
            t.durable > u.durable ==> |u.dir| < |t.dir| && t.dir[|u.dir|].base == u.durable + 1
  {
    hide Fit, Chunk, Ready, CommitLoop, CommitError, Rolled, Wrote;
    ReadyParts(c, s);
    LoopWrites(c, s, k, WRITE_CALLS);
    var u := Wrote(c, s, k);
    NothingFits(c, s, u, k);
    if u.batch == [] {
      LoopEnds(c, u, budget);
    } else {
      LoopRolls(c, u, budget);
      RolledBases(c, u);
      if budget >= ROLL_CALLS {
        LoopGrows(c, Rolled(c, u), budget - ROLL_CALLS);
      }
    }
  }

  lemma ToldAfterWrite(s: Sys, u: Sys, t: Sys)
    requires Told(u, t) && u.observed == s.observed + [u.durable] && s.durable < u.durable <= t.durable
    requires |u.dir| == |s.dir| <= |t.dir| && forall i :: |u.dir| <= i < |t.dir| ==> t.dir[i].base > u.durable
    requires t.durable > u.durable ==> |u.dir| < |t.dir| && t.dir[|u.dir|].base == u.durable + 1
    ensures Told(s, t)
  {
    var rest := t.observed[|u.observed|..];
    assert t.observed == s.observed + ([u.durable] + rest);
    assert t.observed[|s.observed|..] == [u.durable] + rest;
    forall lsn: nat ensures Mark(s, t, lsn) <==> lsn == u.durable || Mark(u, t, lsn) {
    }
    forall i | 0 <= i < |rest| ensures u.durable < rest[i] {
      assert rest[i] in rest;
    }
  }
}
