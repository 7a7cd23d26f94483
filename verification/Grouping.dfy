/** Commit grouping does not matter: the batch loop refines placing one record at a time. */
module Grouping {
  import opened ByteString
  import opened Config
  import opened Segment
  import opened Recovery
  import opened Directory
  import opened Open
  import opened Writer
  import R = Record

  /** The simple form: the next staged record goes into the active segment if it fits, else into a fresh one. */
  function Place(c: Env, s: Sys): (r: Sys)
    requires Ready(c, s) && s.batch != []
    ensures |r.batch| == |s.batch| - 1
  {
    if R.FramedSize(|s.batch[0]|) <= Room(c, s) then Wrote(c, s, 1)
    else Wrote(c, Rolled(c, s), 1)
  }

  function PlaceAll(c: Env, s: Sys): (r: Sys)
    requires Ready(c, s)
    decreases |s.batch|
  {
    if s.batch == [] then s
    else
      PlaceReady(c, s);
      PlaceAll(c, Place(c, s))
  }

  /** Equal in everything but how often the observer was told. */
  predicate Same(a: Sys, b: Sys) {
    a == b.(observed := a.observed)
  }

  lemma OneFits(c: Env, s: Sys)
    requires Ready(c, s) && s.batch != []
    ensures |Chunk(c, s, 1)| == R.FramedSize(|s.batch[0]|)
    ensures Fit(Room(c, s), s.batch) > 0 <==> R.FramedSize(|s.batch[0]|) <= Room(c, s)
  {
    hide R.Frame, R.FramedSize;
    assert s.batch[..1] == [s.batch[0]];
    R.FramesNil(c.crc, s.durable + 2);
    assert s.batch[..1][1..] == [];
  }

  lemma WroteReady(c: Env, s: Sys, k: nat)
    requires Ready(c, s) && k <= |s.batch| && |Chunk(c, s, k)| <= Room(c, s)
    ensures Ready(c, Wrote(c, s, k))
  {
    hide R.Frames, Overwrite;
  }

  lemma RolledReady(c: Env, s: Sys)
    requires Ready(c, s) && s.batch != []
    ensures s.durable < MAX_LSN && Ready(c, Rolled(c, s))
    ensures R.FramedSize(|s.batch[0]|) <= Room(c, Rolled(c, s))
  {
    hide Fresh;
  }

  lemma PlaceReady(c: Env, s: Sys)
    requires Ready(c, s) && s.batch != []
    ensures Ready(c, Place(c, s))
  {
    hide Ready, Wrote, Rolled, R.FramedSize, Chunk;
    RolledReady(c, s);
    ReadyParts(c, s);
    if R.FramedSize(|s.batch[0]|) <= Room(c, s) {
      OneFits(c, s);
      WroteReady(c, s, 1);
    } else {
      RolledBatch(c, s);
      OneFits(c, Rolled(c, s));
      WroteReady(c, Rolled(c, s), 1);
    }
  }

  lemma RolledBatch(c: Env, s: Sys)
    requires c.Valid() && s.durable < MAX_LSN
    ensures Rolled(c, s).batch == s.batch
  {
  }

  /** Placing everything ignores the observer. */
  lemma {:induction false} PlaceAllSame(c: Env, a: Sys, b: Sys)
    requires Ready(c, a) && Ready(c, b) && Same(a, b)
    ensures Same(PlaceAll(c, a), PlaceAll(c, b))
    decreases |a.batch|
  {
    hide Ready, R.FramedSize, Overwrite, Replace, Fresh, R.Frames;
    if a.batch != [] {
      ReadyParts(c, a);
      ReadyParts(c, b);
      RolledReady(c, a);
      PlaceReady(c, a);
      PlaceReady(c, b);
      PlaceAllSame(c, Place(c, a), Place(c, b));
    }
  }

  /** Writing k records at once leaves the same bytes as writing one and then k - 1. */
  lemma WroteSplit(c: Env, s: Sys, k: nat)
    requires Ready(c, s) && 0 < k <= |s.batch| && |Chunk(c, s, 1)| <= Room(c, s)
    ensures Ready(c, Wrote(c, s, 1))
    ensures Same(Wrote(c, Wrote(c, s, 1), k - 1), Wrote(c, s, k))
    ensures |Chunk(c, s, k)| == |Chunk(c, s, 1)| + |Chunk(c, Wrote(c, s, 1), k - 1)|
  {
    hide Ready, Overwrite, R.Frames, Replace;
    ReadyParts(c, s);
    WroteReady(c, s, 1);
    var t := Wrote(c, s, 1);
    ReadyParts(c, t);
    assert s.batch[..k] == s.batch[..1] + t.batch[..k - 1];
    R.FramesJoin(c.crc, s.durable + 1, s.batch[..1], t.batch[..k - 1]);
    OverwriteJoin(Active(s.dir).data, s.writeOffset, Chunk(c, s, 1), Chunk(c, t, k - 1));
    ReplaceTwice(s.dir, Active(t.dir).data, Overwrite(Active(s.dir).data, s.writeOffset, Chunk(c, s, k)));
    assert t.batch[k - 1..] == s.batch[k..];
  }

  lemma ReplaceTwice(d: Dir, x: Bytes, y: Bytes)
    requires d != []
    ensures Replace(Replace(d, x), y) == Replace(d, y)
  {
  }

  /** Placing record by record passes through the state after a whole prefix. */
  lemma {:induction false} PlacePrefix(c: Env, s: Sys, k: nat)
    requires Ready(c, s) && k <= |s.batch| && |Chunk(c, s, k)| <= Room(c, s)
    ensures Ready(c, Wrote(c, s, k))
    ensures Same(PlaceAll(c, Wrote(c, s, k)), PlaceAll(c, s))
    decreases k
  {
    hide Ready, Wrote, PlaceAll, Chunk, R.FramedSize;
    ReadyParts(c, s);
    WroteReady(c, s, k);
    if k == 0 {
      WroteNothing(c, s);
      PlaceAllSame(c, Wrote(c, s, 0), s);
    } else {
      OneFits(c, s);
      FirstFits(c, s, k);
      WroteSplit(c, s, k);
      var t := Wrote(c, s, 1);
      ReadyParts(c, t);
      WroteShape(c, s);
      PlacePrefix(c, t, k - 1);
      PlaceAllSame(c, Wrote(c, t, k - 1), Wrote(c, s, k));
      PlaceAllStep(c, s);
    }
  }

  lemma FirstFits(c: Env, s: Sys, k: nat)
    requires Ready(c, s) && 0 < k <= |s.batch| && |Chunk(c, s, k)| <= Room(c, s)
    ensures |Chunk(c, s, 1)| <= |Chunk(c, s, k)|
  {
    hide R.Frames, Ready;
    assert s.batch[..k] == s.batch[..1] + s.batch[1..k];
    R.FramesJoin(c.crc, s.durable + 1, s.batch[..1], s.batch[1..k]);
  }

  lemma WroteShape(c: Env, s: Sys)
    requires s.dir != [] && s.writeOffset <= |Active(s.dir).data| && 1 <= |s.batch|
    ensures var t := Wrote(c, s, 1);
            |t.batch| == |s.batch| - 1 && t.writeOffset == s.writeOffset + |Chunk(c, s, 1)|
  {
  }

  lemma WroteNothing(c: Env, s: Sys)
    requires s.dir != [] && s.writeOffset <= |Active(s.dir).data|
    ensures Same(Wrote(c, s, 0), s)
  {
    NothingWritten(c, s);
  }

  lemma PlaceAllStep(c: Env, s: Sys)
    requires Ready(c, s) && s.batch != [] && R.FramedSize(|s.batch[0]|) <= Room(c, s)
    requires Ready(c, Wrote(c, s, 1))
    ensures PlaceAll(c, s) == PlaceAll(c, Wrote(c, s, 1))
  {
    hide Wrote, Ready;
  }

  /** Rolling before a record that does not fit is what placing it does anyway. */
  lemma PlaceRolled(c: Env, s: Sys)
    requires Ready(c, s) && s.batch != [] && R.FramedSize(|s.batch[0]|) > Room(c, s)
    ensures s.durable < MAX_LSN && Ready(c, Rolled(c, s)) && PlaceAll(c, Rolled(c, s)) == PlaceAll(c, s)
  {
    hide Wrote, Ready, Chunk;
    ReadyParts(c, s);
    RolledReady(c, s);
    RolledBatch(c, s);
  }

  /** An unfailing commit leaves exactly what placing the staged records one by one leaves. */
  lemma {:induction false} CommitIsPlaceAll(c: Env, s: Sys, budget: nat)
    requires Ready(c, s) && !CommitLoop(c, s, budget).poisoned
    ensures Same(CommitLoop(c, s, budget), PlaceAll(c, s))
    decreases |s.batch|, if s.writeOffset == HEADER_SIZE then 0 else 1
  {
    hide Ready, Fit, PlaceAll, Chunk, R.FramedSize;
    if s.batch == [] {
      PlaceNone(c, s);
    } else {
      ReadyParts(c, s);
      OneFits(c, s);
      FitFacts(c, s);
      var k := Fit(Room(c, s), s.batch);
      if k == 0 {
        PlaceRolled(c, s);
        CommitIsPlaceAll(c, Rolled(c, s), budget - ROLL_CALLS);
      } else {
        PlacePrefix(c, s, k);
        CommitIsPlaceAll(c, Wrote(c, s, k), budget - WRITE_CALLS);
      }
    }
  }

  lemma PlaceNone(c: Env, s: Sys)
    requires Ready(c, s) && s.batch == []
    ensures PlaceAll(c, s) == s
  {
    hide Ready;
  }

  // ----- Splitting a batch -----

  /** The handle with `more` appended to what is staged. */
  function Staged(s: Sys, more: seq<Bytes>): (r: Sys) {
    s.(batch := s.batch + more, last := s.last + |more|)
  }

  lemma StagedReady(c: Env, s: Sys, more: seq<Bytes>)
    requires Ready(c, Staged(s, more))
    ensures Ready(c, s)
    ensures s.batch == [] || s.batch + more != []
  {
    var b := s.batch + more;
    forall i | 0 <= i < |s.batch| ensures |s.batch[i]| <= c.maxRecordSize {
      assert b[i] == s.batch[i];
    }
  }

  lemma PlaceStaged(c: Env, s: Sys, more: seq<Bytes>)
    requires Ready(c, s) && s.batch != [] && Ready(c, Staged(s, more))
    ensures Place(c, Staged(s, more)) == Staged(Place(c, s), more)
  {
    hide Ready, Wrote, Fresh, R.FramedSize;
    ReadyParts(c, s);
    RolledReady(c, s);
    assert (s.batch + more)[0] == s.batch[0];
    if R.FramedSize(|s.batch[0]|) <= Room(c, s) {
      WroteStaged(c, s, more);
    } else {
      ReadyParts(c, Rolled(c, s));
      WroteStaged(c, Rolled(c, s), more);
    }
  }

  lemma WroteStaged(c: Env, s: Sys, more: seq<Bytes>)
    requires s.dir != [] && s.writeOffset <= |Active(s.dir).data| && s.batch != []
    ensures Wrote(c, Staged(s, more), 1) == Staged(Wrote(c, s, 1), more)
  {
    hide Overwrite, Replace, R.Frames;
    var b := s.batch + more;
    assert b[..1] == s.batch[..1] && b[1..] == s.batch[1..] + more;
  }

  lemma {:induction false} PlaceAllSplit(c: Env, s: Sys, more: seq<Bytes>)
    requires Ready(c, s) && Ready(c, Staged(s, more))
    ensures Ready(c, Staged(PlaceAll(c, s), more))
    ensures PlaceAll(c, Staged(PlaceAll(c, s), more)) == PlaceAll(c, Staged(s, more))
    decreases |s.batch|
  {
    hide Ready, Place;
    if s.batch != [] {
      PlaceReady(c, s);
      PlaceReady(c, Staged(s, more));
      PlaceStaged(c, s, more);
      PlaceAllSplit(c, Place(c, s), more);
    }
  }

  /**
    Committing batch A and then batch B leaves the same segments, bytes, write offset and durable LSN
    as committing A followed by B once, whatever each commit's budget, as long as none fails.
   */
  lemma CommitGrouping(c: Env, s: Sys, more: seq<Bytes>, b1: nat, b2: nat, b3: nat)
    requires Ready(c, s) && Ready(c, Staged(s, more))
    requires !CommitLoop(c, s, b1).poisoned && !CommitLoop(c, Staged(s, more), b3).poisoned
    ensures var first := CommitLoop(c, s, b1);
            && Ready(c, Staged(first, more))
            && (!CommitLoop(c, Staged(first, more), b2).poisoned ==>
                  Same(CommitLoop(c, Staged(first, more), b2), CommitLoop(c, Staged(s, more), b3)))
  {
    hide Ready, CommitLoop, PlaceAll;
    var first := CommitLoop(c, s, b1);
    CommitIsPlaceAll(c, s, b1);
    CommitIsPlaceAll(c, Staged(s, more), b3);
    PlaceAllSplit(c, s, more);
    SameReady(c, Staged(PlaceAll(c, s), more), Staged(first, more));
    if !CommitLoop(c, Staged(first, more), b2).poisoned {
      CommitIsPlaceAll(c, Staged(first, more), b2);
      PlaceAllSame(c, Staged(first, more), Staged(PlaceAll(c, s), more));
    }
  }

  // ----- Any sequence of commits -----

  /** Device calls that are always enough to commit one record: a roll and a write. */
  const ONE_RECORD := ROLL_CALLS + WRITE_CALLS

  /** With that many calls for each staged record, less the roll if the segment is fresh, no commit fails. */
  lemma {:induction false} EnoughCalls(c: Env, s: Sys, budget: nat)
    requires Ready(c, s) && !s.poisoned
    requires budget + (if s.writeOffset == HEADER_SIZE then ROLL_CALLS else 0) >= ONE_RECORD * |s.batch|
    ensures !CommitLoop(c, s, budget).poisoned
    decreases |s.batch|, if s.writeOffset == HEADER_SIZE then 0 else 1
  {
    hide Ready, Fit, Chunk, CommitLoop, CommitError, Wrote, Rolled;
    ReadyParts(c, s);
    var k := Fit(Room(c, s), s.batch);
    if s.batch == [] {
      LoopEnds(c, s, budget);
    } else if k == 0 {
      LoopRolls(c, s, budget);
      RolledParts(c, s);
      EnoughCalls(c, Rolled(c, s), budget - ROLL_CALLS);
    } else {
      LoopWrites(c, s, k, budget);
      WroteParts(c, s, k);
      EnoughCalls(c, Wrote(c, s, k), budget - WRITE_CALLS);
    }
  }

  function Flatten(batches: seq<seq<Bytes>>): (recs: seq<Bytes>) {
    if batches == [] then [] else batches[0] + Flatten(batches[1..])
  }

  /** Stage and commit the batches one after the other, each commit with its own fate, up to the first failure. */
  function CommitAll(c: Env, s: Sys, batches: seq<seq<Bytes>>, budgets: seq<nat>): (r: Sys)
    requires |budgets| == |batches| && s.batch == [] && !s.poisoned && Ready(c, Staged(s, Flatten(batches)))
    decreases batches
  {
    if batches == [] then s
    else
      AllStep(c, s, batches, budgets[0]);
      var t := CommitLoop(c, Staged(s, batches[0]), budgets[0]);
      if t.poisoned then t else CommitAll(c, t, batches[1..], budgets[1..])
  }

  lemma AllStep(c: Env, s: Sys, batches: seq<seq<Bytes>>, budget: nat)
    requires batches != [] && s.batch == [] && !s.poisoned && Ready(c, Staged(s, Flatten(batches)))
    ensures Ready(c, Staged(s, batches[0]))
    ensures var t, rest := CommitLoop(c, Staged(s, batches[0]), budget), Flatten(batches[1..]);
            !t.poisoned ==>
              && t.batch == [] && Ready(c, Staged(t, rest))
              && Same(PlaceAll(c, Staged(t, rest)), PlaceAll(c, Staged(s, Flatten(batches))))
  {
    hide Ready, PlaceAll, CommitLoop;
    var one, rest := Staged(s, batches[0]), Flatten(batches[1..]);
    NilJoin(batches[0]);
    NilJoin(Flatten(batches));
    assert Staged(one, rest) == Staged(s, Flatten(batches));
    StagedReady(c, one, rest);
    var t := CommitLoop(c, one, budget);
    if !t.poisoned {
      CommitIsPlaceAll(c, one, budget);
      PlaceAllEmpties(c, one);
      PlaceAllSplit(c, one, rest);
      SameReady(c, Staged(PlaceAll(c, one), rest), Staged(t, rest));
      PlaceAllSame(c, Staged(t, rest), Staged(PlaceAll(c, one), rest));
    }
  }

  lemma {:induction false} PlaceAllEmpties(c: Env, s: Sys)
    requires Ready(c, s)
    ensures PlaceAll(c, s).batch == []
    decreases |s.batch|
  {
    hide Ready, Place;
    if s.batch != [] {
      PlaceReady(c, s);
      PlaceAllEmpties(c, Place(c, s));
    }
  }

  lemma {:induction false} AllIsPlaceAll(c: Env, s: Sys, batches: seq<seq<Bytes>>, budgets: seq<nat>)
    requires |budgets| == |batches| && s.batch == [] && !s.poisoned && Ready(c, Staged(s, Flatten(batches)))
    requires !CommitAll(c, s, batches, budgets).poisoned
    ensures Same(CommitAll(c, s, batches, budgets), PlaceAll(c, Staged(s, Flatten(batches))))
    decreases batches
  {
    hide Ready, PlaceAll, CommitLoop;
    if batches == [] {
      assert Staged(s, []) == s;
      PlaceNone(c, s);
    } else {
      AllStep(c, s, batches, budgets[0]);
      AllIsPlaceAll(c, CommitLoop(c, Staged(s, batches[0]), budgets[0]), batches[1..], budgets[1..]);
    }
  }

  /** Any sequence of commits in which none fails leaves the same log as one commit of everything. */
  lemma CommitsAreOne(c: Env, s: Sys, batches: seq<seq<Bytes>>, budgets: seq<nat>, budget: nat)
    requires |budgets| == |batches| && s.batch == [] && !s.poisoned && Ready(c, Staged(s, Flatten(batches)))
    requires !CommitAll(c, s, batches, budgets).poisoned
    requires !CommitLoop(c, Staged(s, Flatten(batches)), budget).poisoned
    ensures Same(CommitAll(c, s, batches, budgets), CommitLoop(c, Staged(s, Flatten(batches)), budget))
  {
    hide Ready, PlaceAll, CommitLoop, CommitAll;
    AllIsPlaceAll(c, s, batches, budgets);
    CommitIsPlaceAll(c, Staged(s, Flatten(batches)), budget);
  }

  // ----- Commit after every append -----

  function Singles(recs: seq<Bytes>): (batches: seq<seq<Bytes>>)
    ensures |batches| == |recs|
  {
    if recs == [] then [] else [[recs[0]]] + Singles(recs[1..])
  }

  lemma {:induction false} FlattenSingles(recs: seq<Bytes>)
    ensures Flatten(Singles(recs)) == recs
  {
    if recs != [] {
      FlattenSingles(recs[1..]);
      assert Singles(recs)[1..] == Singles(recs[1..]);
      HeadTail(recs);
    }
  }

  function Repeat(n: nat, x: nat): (r: seq<nat>)
    ensures |r| == n
  {
    if n == 0 then [] else [x] + Repeat(n - 1, x)
  }

  lemma {:induction false} EachSucceeds(c: Env, s: Sys, recs: seq<Bytes>)
    requires s.batch == [] && !s.poisoned && Ready(c, Staged(s, Flatten(Singles(recs))))
    ensures !CommitAll(c, s, Singles(recs), Repeat(|recs|, ONE_RECORD)).poisoned
    decreases recs
  {
    hide Ready, PlaceAll, CommitLoop;
    if recs != [] {
      var batches, budgets := Singles(recs), Repeat(|recs|, ONE_RECORD);
      AllStep(c, s, batches, ONE_RECORD);
      EnoughCalls(c, Staged(s, batches[0]), ONE_RECORD);
      assert batches[1..] == Singles(recs[1..]) && budgets[1..] == Repeat(|recs| - 1, ONE_RECORD);
      EachSucceeds(c, CommitLoop(c, Staged(s, batches[0]), ONE_RECORD), recs[1..]);
    }
  }

  /** "Commit after every append" succeeds wherever "append all, commit once" does, and leaves the same log. */
  lemma CommitEachIsOnce(c: Env, s: Sys, recs: seq<Bytes>, budget: nat)
    requires s.batch == [] && !s.poisoned && Ready(c, Staged(s, recs))
    requires !CommitLoop(c, Staged(s, recs), budget).poisoned
    ensures Flatten(Singles(recs)) == recs
    ensures var each := CommitAll(c, s, Singles(recs), Repeat(|recs|, ONE_RECORD));
            !each.poisoned && Same(each, CommitLoop(c, Staged(s, recs), budget))
  {
    hide Ready, PlaceAll, CommitLoop, CommitAll, Singles;
    FlattenSingles(recs);
    EachSucceeds(c, s, recs);
    CommitsAreOne(c, s, Singles(recs), Repeat(|recs|, ONE_RECORD), budget);
  }

  lemma SameReady(c: Env, a: Sys, b: Sys)
    requires Ready(c, a) && Same(b, a)
    ensures Ready(c, b)
  {
  }
}
