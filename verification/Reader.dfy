/** Streaming replay across segments, and seeking by binary search over the bases. */
module Reader {
  import opened ByteString
  import opened Config
  import opened Segment
  import opened Recovery
  import opened Directory
  import opened Open
  import opened Writer
  import opened Invariant
  import R = Record

  type Item = (nat, Bytes)

  /**
    The records a reader passes from offset `off` of segment `i` on, when it wants LSN `want` next:
    it follows the roll at the end of a segment's records and stops for good at an LSN break.
   */
  function Stream(c: Env, d: Dir, i: nat, off: nat, want: nat): (items: seq<Item>)
    decreases |d| - i, c.segmentSize - off
  {
    if i >= |d| then []
    else
      match ScanAt(c, d[i].data, off)
      case Rec(lsn, payload, framed) =>
        if lsn == want then [(lsn, payload)] + Stream(c, d, i, off + framed, want + 1) else []
      case _ => Stream(c, d, i + 1, HEADER_SIZE, want)
  }

  /** The items at or above `from`. */
  function Keep(items: seq<Item>, from: nat): (r: seq<Item>) {
    if items == [] then []
    else (if items[0].0 >= from then [items[0]] else []) + Keep(items[1..], from)
  }

  function Numbered(lsn: nat, recs: seq<Bytes>): (items: seq<Item>)
    ensures |items| == |recs|
    ensures forall k :: 0 <= k < |recs| ==> items[k] == (lsn + k, recs[k])
  {
    seq(|recs|, k requires 0 <= k < |recs| => (lsn + k, recs[k]))
  }

  lemma NumberedJoin(lsn: nat, a: seq<Bytes>, b: seq<Bytes>)
    ensures Numbered(lsn, a + b) == Numbered(lsn, a) + Numbered(lsn + |a|, b)
  {
  }

  lemma NumberedCons(lsn: nat, a: seq<Bytes>)
    requires a != []
    ensures Numbered(lsn, a) == [(lsn, a[0])] + Numbered(lsn + 1, a[1..])
  {
  }

  // ----- What a stream contains -----

  /** A segment's dense run, then the stream of the segments after it; in the last one anything may end the run. */
  lemma {:induction false} StreamSegment(c: Env, d: Dir, i: nat, off: nat, want: nat)
    requires i < |d| && (i == |d| - 1 || !ScanAt(c, d[i].data, DenseRun(c, d[i].data, off, want).end).Rec?)
    ensures var run := DenseRun(c, d[i].data, off, want);
            Stream(c, d, i, off, want)
            == Numbered(want, run.payloads) + Stream(c, d, i + 1, HEADER_SIZE, want + |run.payloads|)
    decreases c.segmentSize - off
  {
    hide ScanAt, R.FramedSize, Numbered, DenseRun;
    var f := d[i].data;
    var run := DenseRun(c, f, off, want);
    var s := ScanAt(c, f, off);
    var after := Stream(c, d, i + 1, HEADER_SIZE, want + |run.payloads|);
    if s.Rec? && s.lsn == want {
      RunNext(c, f, off);
      StreamSegment(c, d, i, off + s.framed, want + 1);
      NumberedCons(want, run.payloads);
      ConsJoin((want, s.payload), Numbered(want + 1, run.payloads[1..]), after);
    } else {
      RunStops(c, f, off, want);
      NilJoin(after);
    }
  }

  /** A record with another LSN ends the stream for good, whatever segments follow. */
  lemma {:induction false} StreamBreaks(c: Env, d: Dir, i: nat, off: nat, want: nat)
    requires i < |d| && ScanAt(c, d[i].data, DenseRun(c, d[i].data, off, want).end).Rec?
    ensures Stream(c, d, i, off, want) == Numbered(want, DenseRun(c, d[i].data, off, want).payloads)
    decreases c.segmentSize - off
  {
    hide ScanAt, R.FramedSize, Numbered, DenseRun;
    var f := d[i].data;
    var run, s := DenseRun(c, f, off, want), ScanAt(c, f, off);
    if s.Rec? && s.lsn == want {
      RunNext(c, f, off);
      StreamBreaks(c, d, i, off + s.framed, want + 1);
      NumberedCons(want, run.payloads);
    } else {
      RunStops(c, f, off, want);
    }
  }

  /** A reader that starts at segment `i` of a chain passes exactly the log from that segment's base on. */
  lemma {:induction false} StreamIsLog(c: Env, d: Dir, i: nat)
    requires Chain(c, d) && i < |d|
    ensures Stream(c, d, i, HEADER_SIZE, d[i].base) == Numbered(d[i].base, Log(c, d[i..]))
    decreases |d| - i
  {
    hide ScanAt, HeaderOk, DenseRun, Stream, Numbered;
    var run := RunOf(c, d[i]);
    if i == |d| - 1 {
      StreamSegment(c, d, i, HEADER_SIZE, d[i].base);
      StreamEnds(c, d, d[i].base + |run.payloads|);
      NilJoin(Numbered(d[i].base, run.payloads));
      assert d[i..] == [d[i]];
      LogOne(c, d[i]);
    } else {
      assert LinkOk(c, d[i], d[i + 1]);
      StreamSegment(c, d, i, HEADER_SIZE, d[i].base);
      StreamIsLog(c, d, i + 1);
      assert d[i..][0] == d[i] && d[i..][1..] == d[i + 1..];
      NumberedJoin(d[i].base, run.payloads, Log(c, d[i + 1..]));
    }
  }

  lemma StreamEnds(c: Env, d: Dir, want: nat)
    ensures Stream(c, d, |d|, HEADER_SIZE, want) == []
  {
  }

  /**
    Replay over arbitrary directories: whenever open succeeds, reading from the beginning passes
    exactly the accepted records of all segments, numbered densely from the oldest base to the
    durable LSN, across every segment boundary.
   */
  lemma ReplayIsLog(c: Env, d: Dir, seed: nat)
    requires seed <= MAX_LSN && OpenDir(c, d, seed).Opened?
    ensures var r := OpenDir(c, d, seed);
            && r.dir != []
            && Stream(c, r.dir, 0, HEADER_SIZE, r.dir[0].base) == Numbered(r.dir[0].base, Log(c, r.dir))
            && r.dir[0].base + |Log(c, r.dir)| == r.last + 1
  {
    hide OpenDir, Chain, Log, Stream, RunOf, Conclude;
    OpenSound(c, d, seed);
    var r := OpenDir(c, d, seed);
    ChainNonEmpty(c, r.dir);
    StreamIsLog(c, r.dir, 0);
    assert r.dir[0..] == r.dir;
  }

  // ----- Seeking -----

  /** Length of the prefix of bases at most `from`: what a binary search finds on ascending bases. */
  function PartitionPoint(bases: seq<nat>, from: nat): (n: nat)
    ensures n <= |bases|
    ensures forall i :: 0 <= i < n ==> bases[i] <= from
    ensures n < |bases| ==> bases[n] > from
  {
    if bases == [] || bases[0] > from then 0 else 1 + PartitionPoint(bases[1..], from)
  }

  function ContainingSegmentIdx(bases: seq<nat>, from: nat): (i: nat)
    requires bases != []
    ensures i < |bases|
    ensures bases[0] <= from ==> bases[i] <= from && (i + 1 < |bases| ==> from < bases[i + 1])
    ensures bases[0] > from ==> i == 0
  {
    var n := PartitionPoint(bases, from);
    if n == 0 then 0 else n - 1
  }

  lemma {:induction false} KeepJoin(a: seq<Item>, b: seq<Item>, from: nat)
    ensures Keep(a + b, from) == Keep(a, from) + Keep(b, from)
    decreases a
  {
    if a == [] {
      NilJoin(b);
      NilJoin(Keep(b, from));
    } else {
      KeepJoin(a[1..], b, from);
      assert (a + b)[0] == a[0] && (a + b)[1..] == a[1..] + b;
      JoinAssoc(if a[0].0 >= from then [a[0]] else [], Keep(a[1..], from), Keep(b, from));
    }
  }

  lemma {:induction false} KeepNone(lsn: nat, recs: seq<Bytes>, from: nat)
    requires lsn + |recs| <= from
    ensures Keep(Numbered(lsn, recs), from) == []
    decreases recs
  {
    if recs != [] {
      NumberedCons(lsn, recs);
      KeepNone(lsn + 1, recs[1..], from);
      assert Numbered(lsn, recs)[1..] == Numbered(lsn + 1, recs[1..]);
    }
  }

  lemma {:induction false} KeepAll(lsn: nat, recs: seq<Bytes>, from: nat)
    requires from <= lsn
    ensures Keep(Numbered(lsn, recs), from) == Numbered(lsn, recs)
    decreases recs
  {
    if recs != [] {
      NumberedCons(lsn, recs);
      KeepAll(lsn + 1, recs[1..], from);
      assert Numbered(lsn, recs)[1..] == Numbered(lsn + 1, recs[1..]);
    }
  }

  /**
    Seeking refines full replay: starting at the segment that contains `from` yields the same items
    as scanning from the oldest segment and dropping those below `from`.
   */
  lemma SeekIsReplay(c: Env, d: Dir, from: nat)
    requires Chain(c, d)
    ensures d != []
    ensures var start := ContainingSegmentIdx(Bases(d), from);
            Keep(Stream(c, d, start, HEADER_SIZE, d[start].base), from)
            == Keep(Stream(c, d, 0, HEADER_SIZE, d[0].base), from)
  {
    hide Chain, Stream, Keep, Numbered, Log, ContainingSegmentIdx;
    ChainNonEmpty(c, d);
    var start := ContainingSegmentIdx(Bases(d), from);
    StreamIsLog(c, d, start);
    StreamIsLog(c, d, 0);
    if start > 0 {
      LogDrop(c, d, start);
      var base, skip := d[0].base, d[start].base - d[0].base;
      var log := Log(c, d);
      assert d[0..] == d && log == log[..skip] + log[skip..];
      NumberedJoin(base, log[..skip], log[skip..]);
      KeepJoin(Numbered(base, log[..skip]), Numbered(d[start].base, log[skip..]), from);
      ChainAscending(c, d, 0, start);
      assert Bases(d)[start] == d[start].base;
      KeepNone(base, log[..skip], from);
      NilJoin(Keep(Numbered(d[start].base, log[skip..]), from));
    }
  }

  // ----- The reader object -----

  /**
    Whether a reader at offset `off` of segment `i` meets a call that fails before it has a record at or
    above `from`: a read where it stands, or the open of the segment it has to move to.
   */
  ghost predicate Blocked(
    c: Env, d: Dir, i: nat, off: nat, want: nat, from: nat, opens: nat -> bool, readable: (nat, nat) -> bool)
    decreases |d| - i, c.segmentSize - off
  {
    i < |d| &&
    (!readable(i, off) ||
     match ScanAt(c, d[i].data, off)
     case Rec(lsn, _, framed) =>
       lsn == want && lsn < from && Blocked(c, d, i, off + framed, want + 1, from, opens, readable)
     case _ =>
       i + 1 < |d| && (!opens(i + 1) || Blocked(c, d, i + 1, HEADER_SIZE, want, from, opens, readable)))
  }

  lemma BlockedStep(
    c: Env, d: Dir, i: nat, off: nat, want: nat, from: nat, opens: nat -> bool, readable: (nat, nat) -> bool)
    requires i < |d| && readable(i, off)
    ensures var s := ScanAt(c, d[i].data, off);
            Blocked(c, d, i, off, want, from, opens, readable) <==>
            if s.Rec? then
              s.lsn == want && s.lsn < from && Blocked(c, d, i, off + s.framed, want + 1, from, opens, readable)
            else
              i + 1 < |d| && (!opens(i + 1) || Blocked(c, d, i + 1, HEADER_SIZE, want, from, opens, readable))
  {
    hide ScanAt;
  }

  lemma BlockedHere(
    c: Env, d: Dir, i: nat, off: nat, want: nat, from: nat, opens: nat -> bool, readable: (nat, nat) -> bool)
    requires i < |d| && !readable(i, off)
    ensures Blocked(c, d, i, off, want, from, opens, readable)
  {
    hide ScanAt;
  }

  /** A reader is blocked only by a call that fails. */
  lemma {:induction false} BlockedFails(
    c: Env, d: Dir, i: nat, off: nat, want: nat, from: nat, opens: nat -> bool, readable: (nat, nat) -> bool)
    requires Blocked(c, d, i, off, want, from, opens, readable)
    ensures (exists k :: i < k < |d| && !opens(k)) || (exists k, x :: i <= k < |d| && !readable(k, x))
    decreases |d| - i, c.segmentSize - off
  {
    hide ScanAt, R.FramedSize;
    if readable(i, off) {
      match ScanAt(c, d[i].data, off)
      case Rec(lsn, _, framed) => BlockedFails(c, d, i, off + framed, want + 1, from, opens, readable);
      case _ =>
        if opens(i + 1) {
          BlockedFails(c, d, i + 1, HEADER_SIZE, want, from, opens, readable);
        }
    }
  }

  /** What one call of the reader yields: a record, or the I/O error that ends the stream. */
  datatype Fetched = Fetched(item: Item) | Failed(error: WalError)

  /** A lending reader over what a handle sees of its directory, which cannot change while it is read. */
  class LogReader {
    const c: Env
    const dir: Dir
    const from: nat
    var segIdx: nat
    var file: Option<Bytes>
    var offset: nat
    var expected: Option<nat>
    var done: bool

    ghost predicate Valid()
      reads this
    {
      && c.Valid()
      && (!done && file.Some? ==> segIdx < |dir| && file.value == dir[segIdx].data)
      && (expected.Some? ==> expected.value <= MAX_LSN)
    }

    /** The LSN wanted next; past the last LSN it is one that no record can carry. */
    ghost function Want(): (n: nat)
      reads this
    {
      if expected.Some? then expected.value else MAX_LSN + 1
    }

    /** What the reader has yet to yield. */
    ghost function Remaining(): (items: seq<Item>)
      reads this
    {
      if done || file.None? then [] else Keep(Stream(c, dir, segIdx, offset, Want()), from)
    }

    /** The next call will meet an I/O error. */
    ghost predicate Stuck(opens: nat -> bool, readable: (nat, nat) -> bool)
      reads this
    {
      !done && file.Some? && Blocked(c, dir, segIdx, offset, Want(), from, opens, readable)
    }

    constructor (c: Env, dir: Dir, start: nat, from: nat)
      requires c.Valid() && start < |dir|
      ensures Valid()
      ensures this.c == c && this.dir == dir && this.from == from
      ensures Remaining() == Keep(Stream(c, dir, start, HEADER_SIZE, dir[start].base), from)
    {
      this.c, this.dir, this.from := c, dir, from;
      segIdx, file, offset := start, Some(dir[start].data), HEADER_SIZE;
      expected, done := Some(dir[start].base), false;
    }

    /**
      Move to the next segment, if there is one and it can be opened; none is a failure to open it.
      The wanted LSN carries over.
     */
    method AdvanceSegment(opens: nat -> bool) returns (more: Option<bool>)
      requires Valid() && !done && file.Some?
      modifies this`segIdx, this`file, this`offset
      ensures segIdx == old(segIdx) + 1
      ensures more == if segIdx >= |dir| then Some(false) else if opens(segIdx) then Some(true) else None
      ensures more == Some(true) ==> Valid() && file == Some(dir[segIdx].data) && offset == HEADER_SIZE
      ensures more == Some(false) ==> Valid() && file == None && offset == old(offset)
      ensures more == None ==> file == old(file) && offset == old(offset)
    {
      segIdx := segIdx + 1;
      if segIdx >= |dir| {
        file := None;
        return Some(false);
      }
      if !opens(segIdx) {
        return None;
      }
      file := Some(dir[segIdx].data);
      offset := HEADER_SIZE;
      more := Some(true);
    }

    /**
      Yield the next record at or above `from`; at the end of the log, nothing, for ever. A segment that
      cannot be opened or read (`opens`, `readable`) yields an error and ends the stream for good.
     */
    method Next(chunk: nat -> nat, opens: nat -> bool, readable: (nat, nat) -> bool) returns (next: Option<Fetched>)
      requires Valid()
      modifies this
      ensures Valid()
      ensures next.Some? && next.value.Fetched? ==> old(Remaining()) == [next.value.item] + Remaining()
      ensures next.None? ==> old(Remaining()) == [] && Remaining() == []
      ensures next.Some? && next.value.Failed? ==> next.value.error == IoFailed && done && Remaining() == []
      ensures next.Some? && next.value.Failed? <==> old(Stuck(opens, readable))
    {
      hide ScanAt, R.FramedSize, Stream, Keep, Blocked;
      while true
        invariant Valid() && Remaining() == old(Remaining())
        invariant Stuck(opens, readable) == old(Stuck(opens, readable))
        decreases if file.None? then 0 else 1 + |dir| - segIdx, c.segmentSize - offset
      {
        if done {
          return None;
        }
        if file.None? {
          done := true;
          return None;
        }
        if !readable(segIdx, offset) {
          BlockedHere(c, dir, segIdx, offset, Want(), from, opens, readable);
          done := true;
          return Some(Failed(IoFailed));
        }
        StreamStep(c, dir, segIdx, offset, Want(), from);
        BlockedStep(c, dir, segIdx, offset, Want(), from, opens, readable);
        ScannedLsnFits(c, file.value, offset);
        var s := ReadRecordAt(c, file.value, offset, chunk);
        if !s.Rec? {
          var more := AdvanceSegment(opens);
          if more.None? {
            done := true;
            return Some(Failed(IoFailed));
          }
          if !more.value {
            StreamEnds(c, dir, Want());
            KeepNil(from);
            done := true;
            return None;
          }
        } else {
          if expected != Some(s.lsn) {
            done := true;
            return None;
          }
          offset := offset + s.framed;
          expected := CheckedNext(s.lsn);
          if s.lsn >= from {
            return Some(Fetched((s.lsn, s.payload)));
          }
        }
      }
    }
  }

  lemma KeepNil(from: nat)
    ensures Keep([], from) == []
  {
  }

  /** One step of a filtered stream. */
  lemma StreamStep(c: Env, d: Dir, i: nat, off: nat, want: nat, from: nat)
    requires i < |d|
    ensures var s := ScanAt(c, d[i].data, off);
            Keep(Stream(c, d, i, off, want), from) ==
            if !s.Rec? then Keep(Stream(c, d, i + 1, HEADER_SIZE, want), from)
            else if s.lsn != want then []
            else (if s.lsn >= from then [(s.lsn, s.payload)] else [])
                 + Keep(Stream(c, d, i, off + s.framed, want + 1), from)
  {
    hide ScanAt;
    var s := ScanAt(c, d[i].data, off);
    if s.Rec? && s.lsn == want {
      var rest := Stream(c, d, i, off + s.framed, want + 1);
      assert ([(s.lsn, s.payload)] + rest)[1..] == rest;
    }
  }

  /** Read until the end or an error: a prefix of what was there, all of it if nothing failed. */
  method Replay(r: LogReader, chunk: nat -> nat, opens: nat -> bool, readable: (nat, nat) -> bool)
    returns (items: seq<Item>, failed: Option<WalError>)
    requires r.Valid()
    modifies r
    ensures items <= old(r.Remaining())
    ensures failed.None? ==> items == old(r.Remaining())
    ensures (forall i :: opens(i)) && (forall i, off :: readable(i, off)) ==> failed.None?
  {
    items := [];
    ghost var left := r.Remaining();
    NilJoin(left);
    while true
      invariant r.Valid() && items + r.Remaining() == old(r.Remaining())
      decreases |r.Remaining()|
    {
      left := r.Remaining();
      if r.Stuck(opens, readable) {
        BlockedFails(r.c, r.dir, r.segIdx, r.offset, r.Want(), r.from, opens, readable);
      }
      var next := r.Next(chunk, opens, readable);
      if next.None? {
        NilJoin(items);
        return items, None;
      }
      if next.value.Failed? {
        return items, Some(next.value.error);
      }
      JoinAssoc(items, [next.value.item], r.Remaining());
      items := items + [next.value.item];
    }
  }
}
