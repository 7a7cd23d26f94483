/** The imperative handle: device calls, recovery of a directory in place, and the single-writer log. */
module WalHandle {
  import opened ByteString
  import opened Config
  import opened Segment
  import opened Recovery
  import opened Directory
  import opened Open
  import opened Writer
  import opened Invariant
  import opened Crash
  import opened Reader
  import opened Leftover
  import R = Record

  /**
    The storage device: what is durable, the one operation in flight, and how many more calls will
    succeed. Every call either succeeds and uses one unit of budget, or fails.
   */
  class Device {
    var dir: Dir
    var inflight: Inflight
    var budget: nat

    constructor (dir: Dir, budget: nat)
      ensures this.dir == dir && this.inflight == Nothing && this.budget == budget
    {
      this.dir, this.inflight, this.budget := dir, Nothing, budget;
    }

    /** Positional write to the active segment; durable only after a sync. */
    method WriteActive(off: nat, data: Bytes) returns (ok: bool)
      requires inflight == Nothing
      modifies this
      ensures dir == old(dir) && inflight == Writing(off, data)
      ensures ok <==> old(budget) >= 1
      ensures budget == if ok then old(budget) - 1 else 0
    {
      inflight := Writing(off, data);
      ok := budget > 0;
      if ok {
        budget := budget - 1;
      }
    }

    /** Make the pending write durable. */
    method SyncActive() returns (ok: bool)
      requires inflight.Writing? && dir != [] && inflight.off <= |Active(dir).data|
      modifies this
      ensures ok <==> old(budget) >= 1
      ensures budget == if ok then old(budget) - 1 else 0
      ensures ok ==> inflight == Nothing
                     && var data := Overwrite(Active(old(dir)).data, old(inflight.off), old(inflight.data));
                     && dir == Replace(old(dir), data)
      ensures !ok ==> dir == old(dir) && inflight == old(inflight)
    {
      ok := budget > 0;
      if ok {
        budget := budget - 1;
        dir := Replace(dir, Overwrite(Active(dir).data, inflight.off, inflight.data));
        inflight := Nothing;
      }
    }

    /** What a reader sees of the directory, once `cut` bytes of a write in flight are in the page cache. */
    function Cached(cut: nat): (d: Dir)
      requires dir != [] && (inflight.Writing? ==> inflight.off <= |Active(dir).data|)
      reads this
      ensures |d| == |dir|
    {
      if inflight.Writing? then
        Replace(dir, Overwrite(Active(dir).data, inflight.off, inflight.data[..Min(cut, |inflight.data|)]))
      else dir
    }

    /** How many of the oldest files are no longer there, once `cut` unlinks in flight have happened. */
    function Gone(cut: nat): (n: nat)
      reads this
    {
      if inflight.Unlinking? then Min(cut, inflight.n) else 0
    }

    /** One call to the operating system that has no durable effect by itself. */
    method Call() returns (ok: bool)
      modifies this`budget
      ensures ok <==> old(budget) >= 1
      ensures budget == if ok then old(budget) - 1 else 0
    {
      ok := budget > 0;
      if ok {
        budget := budget - 1;
      }
    }

    /** Create, pre-allocate, write the header, sync it. Nothing is settled before the directory sync. */
    method CreateSegment(base: u64) returns (ok: bool)
      requires inflight == Nothing
      modifies this
      ensures dir == old(dir) && inflight == Creating(base)
      ensures ok <==> old(budget) >= 4
      ensures ok ==> budget == old(budget) - 4
    {
      inflight := Creating(base);
      ok := Call();
      if !ok {
        return;
      }
      ok := Call();
      if !ok {
        return;
      }
      ok := Call();
      if !ok {
        return;
      }
      ok := Call();
    }

    /** Remove the oldest file that is still linked. */
    method UnlinkOldest() returns (ok: bool)
      requires inflight == Nothing || inflight.Unlinking?
      modifies this
      ensures dir == old(dir)
      ensures ok <==> old(budget) >= 1
      ensures budget == if ok then old(budget) - 1 else 0
      ensures inflight == Unlinking((if old(inflight).Unlinking? then old(inflight.n) else 0) + if ok then 1 else 0)
    {
      var k := if inflight.Unlinking? then inflight.n else 0;
      ok := budget > 0;
      if ok {
        budget := budget - 1;
        k := k + 1;
      }
      inflight := Unlinking(k);
    }

    /** Remove the `n` oldest files one by one, then make the removals durable with one directory sync. */
    method RemoveOldest(c: Env, n: nat) returns (ok: bool)
      requires c.Valid() && inflight == Nothing && 0 < n < |dir|
      modifies this
      ensures ok <==> old(budget) >= n + 1
      ensures ok ==> dir == old(dir)[n..] && inflight == Nothing
      ensures !ok ==> dir == old(dir) && inflight == Unlinking(if old(budget) < n then old(budget) else n)
    {
      var i := 0;
      while i < n
        invariant i <= n && dir == old(dir)
        invariant inflight == if i == 0 then Nothing else Unlinking(i)
        invariant budget + i == old(budget)
      {
        ok := UnlinkOldest();
        if !ok {
          return;
        }
        i := i + 1;
      }
      ok := SyncDir(c);
    }

    /** Make created names and removals durable. */
    method SyncDir(c: Env) returns (ok: bool)
      requires c.Valid() && (inflight.Creating? || (inflight.Unlinking? && inflight.n <= |dir|))
      modifies this
      ensures ok <==> old(budget) >= 1
      ensures budget == if ok then old(budget) - 1 else 0
      ensures ok ==> inflight == Nothing
                     && dir == if old(inflight).Creating? then old(dir) + [Fresh(c, old(inflight.base))]
                               else old(dir)[old(inflight.n)..]
      ensures !ok ==> dir == old(dir) && inflight == old(inflight)
    {
      ok := budget > 0;
      if ok {
        budget := budget - 1;
        match inflight {
          case Creating(base) => dir := dir + [Fresh(c, base)];
          case Unlinking(n) => dir := dir[n..];
          case _ =>
        }
        inflight := Nothing;
      }
    }
  }

  lemma DropBases(d: Dir, n: nat)
    requires n < |d|
    ensures Bases(d[n..]) == Bases(d)[n..]
  {
  }

  // ----- Opening -----

  /** Outcome with the segments already passed put back in front. */
  function Prepend(front: Dir, r: Opening): (o: Opening) {
    match r
    case Opened(dir, w, last, tail) => Opened(front + dir, w, last, tail)
    case Refused(e) => r
  }

  /** The outcome for the whole directory, when recovery stands at sealed segment `i`. */
  ghost function OutcomeAt(c: Env, d: Dir, i: nat, prev: Option<nat>): (r: Opening)
    requires i < |d|
  {
    Prepend(d[..i], RecoverFrom(c, d[i..], prev))
  }

  lemma OutcomeRefused(c: Env, d: Dir, i: nat, prev: Option<nat>)
    requires i + 1 < |d|
    ensures !HeaderOk(c, d[i]) ==> OutcomeAt(c, d, i, prev) == Refused(BadSegmentHeader)
    ensures HeaderOk(c, d[i]) && !Follows(prev, d[i].base) ==> OutcomeAt(c, d, i, prev) == Refused(ContiguityViolation)
  {
    hide HeaderOk, Classify, Conclude;
    assert d[i..][0] == d[i];
  }

  /** Recovery of a directory, one sealed segment further on. */
  lemma PassSealed(c: Env, d: Dir, i: nat, prev: Option<nat>)
    requires i + 1 < |d| && HeaderOk(c, d[i]) && Follows(prev, d[i].base) && d[i].base >= 1
    ensures match Classify(c, d[i].data, d[i].base, false)
            case Clean(maxLsn, _) =>
              && maxLsn <= MAX_LSN
              && OutcomeAt(c, d, i, prev) == if maxLsn < d[i].base then Refused(ContiguityViolation)
                                             else OutcomeAt(c, d, i + 1, Some(maxLsn))
            case Corruption(x) => OutcomeAt(c, d, i, prev) == Refused(CorruptionAt(d[i].base, x))
            case _ => false
  {
    hide HeaderOk, SealedOk, Classify, RunOf, Conclude;
    SealedVerdict(c, d[i]);
    NextFits(c, d[i]);
    var t := d[i..];
    assert t[0] == d[i] && t[1..] == d[i + 1..];
    assert forall dir: Dir :: d[..i] + ([d[i]] + dir) == d[..i + 1] + dir;
  }

  /** Run recovery over the whole directory in place. On an error nothing has been written. */
  method RecoverAll(dev: Device, c: Env, chunk: nat -> nat) returns (r: Opening)
    requires c.Valid() && dev.dir != []
    modifies dev
    ensures r == RecoverFrom(c, old(dev.dir), None)
    ensures dev.dir == if r.Opened? then r.dir else old(dev.dir)
    ensures dev.inflight == old(dev.inflight) && dev.budget == old(dev.budget)
  {
    hide Classify, RecoverFrom, Prepend, OutcomeAt, DecodeHeader, Overwrite;
    ghost var d := dev.dir;
    var prevMax: Option<nat> := None;
    var i := 0;
    OutcomeStart(c, d);
    while i < |dev.dir| - 1
      invariant dev.dir == d && i <= |d| - 1
      invariant dev.inflight == old(dev.inflight) && dev.budget == old(dev.budget)
      invariant prevMax.Some? ==> prevMax.value <= MAX_LSN
      invariant RecoverFrom(c, d, None) == OutcomeAt(c, d, i, prevMax)
    {
      var sf := dev.dir[i];
      OutcomeRefused(c, d, i, prevMax);
      if !HeaderOk(c, sf) {
        return Refused(BadSegmentHeader);
      }
      if prevMax.Some? && CheckedNext(prevMax.value) != Some(sf.base) {
        return Refused(ContiguityViolation);
      }
      DecodedNonZero(c, sf);
      PassSealed(c, d, i, prevMax);
      var file := new File(sf.data);
      var v := RecoverSegment(c, file, sf.base, false, chunk);
      match v {
        case Clean(maxLsn, w) =>
          if maxLsn < sf.base {
            return Refused(ContiguityViolation);
          }
          prevMax := Some(maxLsn);
          i := i + 1;
        case Truncated(x, m) => assert false;
        case Corruption(x) => return Refused(CorruptionAt(sf.base, x));
        case TornMidLog(x) => assert false;
      }
    }
    r := RecoverLast(dev, c, prevMax, chunk);
  }

  lemma OutcomeStart(c: Env, d: Dir)
    requires d != []
    ensures OutcomeAt(c, d, 0, None) == RecoverFrom(c, d, None)
  {
    hide RecoverFrom;
    var r := RecoverFrom(c, d, None);
    assert d[0..] == d && d[..0] == [];
    if r.Opened? {
      NilJoin(r.dir);
    }
  }

  /** The active segment: the only one that may be repaired. */
  method RecoverLast(dev: Device, c: Env, prevMax: Option<nat>, chunk: nat -> nat) returns (r: Opening)
    requires c.Valid() && dev.dir != [] && (prevMax.Some? ==> prevMax.value <= MAX_LSN)
    modifies dev
    ensures r == OutcomeAt(c, old(dev.dir), |old(dev.dir)| - 1, prevMax)
    ensures dev.dir == if r.Opened? then r.dir else old(dev.dir)
    ensures dev.inflight == old(dev.inflight) && dev.budget == old(dev.budget)
  {
    hide Classify, DecodeHeader, Overwrite;
    ghost var d := dev.dir;
    var sf := Active(dev.dir);
    ghost var t := d[|d| - 1..];
    assert t == [sf] && d == d[..|d| - 1] + [sf];
    if !HeaderOk(c, sf) {
      return Refused(BadSegmentHeader);
    }
    if prevMax.Some? && CheckedNext(prevMax.value) != Some(sf.base) {
      return Refused(ContiguityViolation);
    }
    DecodedNonZero(c, sf);
    var file := new File(sf.data);
    var v := RecoverSegment(c, file, sf.base, true, chunk);
    match v {
      case Clean(maxLsn, w) =>
        r := Opened(dev.dir, w, maxLsn, CleanTail);
      case Truncated(x, maxLsn) =>
        dev.dir := Replace(dev.dir, file.data);
        r := Opened(dev.dir, x, maxLsn, TruncatedAt(sf.base, x));
        assert Replace(t, file.data) == [SegFile(sf.base, file.data)];
      case Corruption(x) =>
        r := Refused(CorruptionAt(sf.base, x));
      case TornMidLog(x) =>
        r := Refused(TornMidLogAt(sf.base, x));
    }
  }

  /** Unlink a highest segment whose creation never finished. */
  method DiscardIncompleteHighest(dev: Device, c: Env, chunk: nat -> nat) returns (ok: bool)
    requires c.Valid()
    modifies dev
    ensures ok <==> Discard(c, old(dev.dir)).Some?
    ensures dev.dir == if ok then Discard(c, old(dev.dir)).value else old(dev.dir)
    ensures dev.inflight == old(dev.inflight) && dev.budget == old(dev.budget)
  {
    hide DecodeHeader, ScanAt;
    if dev.dir == [] {
      return true;
    }
    var sf := Active(dev.dir);
    if |sf.data| >= HEADER_SIZE {
      if HeaderOk(c, sf) {
        return true;
      }
      var first := ReadRecordAt(c, sf.data, HEADER_SIZE, chunk);
      if first.Rec? {
        return false;
      }
    } else if |sf.data| != 0 {
      return false;
    }
    dev.dir := dev.dir[..|dev.dir| - 1];
    ok := true;
  }

  /** Open or create a log. */
  method OpenSeeded(dev: Device, c: Env, seed: u64, chunk: nat -> nat) returns (wal: Option<Wal>, r: Opening)
    requires dev.inflight == Nothing
    modifies dev
    ensures r == OpenDir(c, old(dev.dir), seed)
    ensures wal.Some? <==> r.Opened?
    ensures wal.Some? ==> fresh(wal.value) && wal.value.dev == dev && wal.value.c == c
    ensures wal.Some? ==> wal.value.View() == Handle(r)
    ensures wal.Some? ==> wal.value.Coherent() && Chain(c, dev.dir)
    ensures wal.Some? && Inv(c, Handle(r)) ==> wal.value.Valid()
    ensures r.Refused? ==>
              dev.dir == if c.Valid() && seed != 0 && Discard(c, old(dev.dir)).Some? then Discard(c, old(dev.dir)).value
                         else old(dev.dir)
  {
    hide RecoverFrom, Discard, Fresh, Inv, Ready, Chain, R.Frames;
    wal := None;
    if !c.Valid() || seed == 0 {
      return wal, Refused(InvalidConfig);
    }
    var ok := DiscardIncompleteHighest(dev, c, chunk);
    if !ok {
      return wal, Refused(BadSegmentHeader);
    }
    if dev.dir == [] {
      dev.dir := [Fresh(c, seed)];
      r := Opened(dev.dir, HEADER_SIZE, seed - 1, CleanTail);
    } else {
      r := RecoverAll(dev, c, chunk);
    }
    if r.Opened? {
      OpenedSane(c, old(dev.dir), seed);
      R.FramesNil(c.crc, r.last + 1);
      var handle := new Wal(c, dev, r.writeOffset, r.last);
      wal := Some(handle);
    }
  }

  lemma OpenedSane(c: Env, d: Dir, seed: nat)
    requires seed <= MAX_LSN && OpenDir(c, d, seed).Opened?
    ensures var r := OpenDir(c, d, seed);
            r.dir != [] && Chain(c, r.dir) && Sane(c, Handle(r))
  {
    hide OpenDir, Chain, RunOf, Ready;
    OpenSound(c, d, seed);
    OpenedIsPlaced(c, d, seed, []);
  }

  // ----- The commit-time split -----

  /** Walk the staging buffer from `pos` over the whole records that fit in `room`. */
  method FittingPrefix(c: Env, staging: Bytes, pos: nat, room: nat, ghost lsn: nat, ghost batch: seq<Bytes>)
    returns (scan: nat, lastLsn: nat)
    requires pos <= |staging| && staging[pos..] == R.Frames(c.crc, lsn, batch)
    requires Sized(c, batch) && lsn + |batch| <= MAX_LSN + 1
    ensures var k := Fit(room, batch);
            && pos <= scan <= |staging|
            && staging[pos..scan] == R.Frames(c.crc, lsn, batch[..k])
            && staging[scan..] == R.Frames(c.crc, lsn + k, batch[k..])
            && (scan > pos <==> k > 0)
            && lastLsn == (if k == 0 then 0 else lsn + k - 1)
  {
    hide R.Frames, Fit, R.FramedSize;
    scan, lastLsn := pos, 0;
    ghost var j := 0;
    PrefixStart(c.crc, lsn, batch, staging, pos);
    while scan < |staging|
      invariant j <= |batch| && PrefixRead(c.crc, lsn, batch, staging, pos, scan, j)
      invariant scan - pos <= room && Fit(room, batch) == j + Fit(room - (scan - pos), batch[j..])
      invariant scan > pos <==> j > 0
      invariant lastLsn == (if j == 0 then 0 else lsn + j - 1)
      decreases |staging| - scan
    {
      PrefixNext(c, lsn, batch, staging, pos, scan, j);
      var (recLsn, framed) := R.Peek(staging[scan..]);
      FitStep(room - (scan - pos), batch[j..]);
      if scan - pos + framed > room {
        break;
      }
      assert batch[j..][1..] == batch[j + 1..];
      lastLsn := recLsn;
      scan := scan + framed;
      j := j + 1;
    }
    PrefixDone(c, lsn, batch, staging, pos, scan, j, room);
  }

  /** The walk stands at a record boundary: `j` records are behind it. */
  ghost predicate PrefixRead(
    crc: Bytes -> u32, lsn: nat, batch: seq<Bytes>, staging: Bytes, pos: nat, scan: nat, j: nat)
    requires j <= |batch|
  {
    && pos <= scan <= |staging|
    && staging[pos..scan] == R.Frames(crc, lsn, batch[..j])
    && staging[scan..] == R.Frames(crc, lsn + j, batch[j..])
  }

  lemma PrefixStart(crc: Bytes -> u32, lsn: nat, batch: seq<Bytes>, staging: Bytes, pos: nat)
    requires pos <= |staging| && staging[pos..] == R.Frames(crc, lsn, batch)
    ensures PrefixRead(crc, lsn, batch, staging, pos, pos, 0) && batch[0..] == batch
  {
    hide R.Frames;
    assert batch[0..] == batch && batch[..0] == [];
    R.FramesNil(crc, lsn);
  }

  lemma PrefixNext(c: Env, lsn: nat, batch: seq<Bytes>, staging: Bytes, pos: nat, scan: nat, j: nat)
    requires j <= |batch| && PrefixRead(c.crc, lsn, batch, staging, pos, scan, j) && scan < |staging|
    requires Sized(c, batch) && lsn + |batch| <= MAX_LSN + 1
    ensures j < |batch| && |staging[scan..]| >= R.RECORD_HEADER_SIZE
    ensures R.Peek(staging[scan..]) == (lsn + j, R.FramedSize(|batch[j]|))
    ensures PrefixRead(c.crc, lsn, batch, staging, pos, scan + R.FramedSize(|batch[j]|), j + 1)
  {
    hide R.FramedSize, R.Frame, R.Peek, R.Frames;
    R.FramesEmpty(c.crc, lsn + j, batch[j..]);
    var rest := staging[scan..];
    R.PeekFrames(c.crc, lsn + j, batch[j..], []);
    NilJoin(rest);
    R.FramesCons(c.crc, lsn + j, batch[j..]);
    DropDrop(batch, j, 1);
    ReadOn(staging, pos, scan, R.Frame(c.crc, lsn + j, batch[j]), R.Frames(c.crc, lsn + j + 1, batch[j + 1..]));
    TakeNext(batch, j);
    R.FramesJoin(c.crc, lsn, batch[..j], [batch[j]]);
    R.FramesOne(c.crc, lsn + j, batch[j]);
  }

  /** Moving the reading position over `head`. */
  lemma ReadOn(b: Bytes, pos: nat, scan: nat, head: Bytes, tail: Bytes)
    requires pos <= scan <= |b| && b[scan..] == head + tail
    ensures scan + |head| <= |b|
    ensures b[scan + |head|..] == tail
    ensures b[pos..scan + |head|] == b[pos..scan] + head
  {
    assert |b[scan..]| == |head| + |tail|;
    assert b[scan + |head|..] == b[scan..][|head|..];
    assert b[scan..scan + |head|] == b[scan..][..|head|];
  }

  lemma TakeNext<T>(s: seq<T>, j: nat)
    requires j < |s|
    ensures s[..j + 1] == s[..j] + [s[j]]
  {
  }

  lemma PrefixDone(c: Env, lsn: nat, batch: seq<Bytes>, staging: Bytes, pos: nat, scan: nat, j: nat, room: nat)
    requires j <= |batch| && PrefixRead(c.crc, lsn, batch, staging, pos, scan, j) && scan - pos <= room
    requires scan == |staging| || (j < |batch| && R.FramedSize(|batch[j]|) > room - (scan - pos))
    ensures Fit(room - (scan - pos), batch[j..]) == 0
  {
    hide R.FramedSize, R.Frames;
    R.FramesEmpty(c.crc, lsn + j, batch[j..]);
  }

  // ----- The handle -----

  class Wal {
    const c: Env
    const dev: Device
    var segments: seq<nat>
    var writeOffset: nat
    var oldest: nat
    var last: nat
    var durable: nat
    var staging: Bytes
    var observed: seq<nat>
    var poisoned: bool
    /** The payloads whose frames the staging buffer holds. */
    ghost var batch: seq<Bytes>

    /** The handle and its device as a state of the machine. */
    ghost function View(): (s: Sys)
      reads this, dev
    {
      Sys(dev.dir, dev.inflight, writeOffset, last, durable, batch, poisoned, observed)
    }

    /** What the methods need and keep, whatever bytes the segments hold: any successful open gives it. */
    ghost predicate Coherent()
      reads this, dev
    {
      Sane(c, View()) && Mirrors() && (!poisoned ==> Staging())
    }

    /** A handle on a log in the writer's own shape. */
    ghost predicate Valid()
      reads this, dev
    {
      Coherent() && Inv(c, View())
    }

    /** The in-memory segment list is the durable directory's. */
    ghost predicate Mirrors()
      reads this, dev
    {
      dev.dir != [] && segments == Bases(dev.dir) && oldest == dev.dir[0].base
    }

    ghost predicate Staging()
      reads this, dev
    {
      staging == R.Frames(c.crc, durable + 1, batch)
    }

    constructor (c: Env, dev: Device, writeOffset: nat, last: nat)
      requires dev.dir != []
      ensures this.c == c && this.dev == dev
      ensures View() == Sys(dev.dir, dev.inflight, writeOffset, last, last, [], false, [])
      ensures Mirrors() && staging == []
    {
      this.c, this.dev := c, dev;
      segments, oldest := Bases(dev.dir), dev.dir[0].base;
      this.writeOffset, this.last, this.durable := writeOffset, last, last;
      staging, observed, poisoned, batch := [], [], false, [];
    }

    /** Sequence and stage one record; memory only. */
    method Append(payload: Bytes) returns (lsn: nat, e: Option<WalError>)
      requires Coherent()
      modifies this
      ensures Coherent() && (old(Valid()) ==> Valid()) && dev.dir == old(dev.dir) && dev.budget == old(dev.budget)
      ensures (View(), e) == Writer.Append(c, old(View()), payload)
      ensures e.None? ==> lsn == old(last) + 1 == last
    {
      hide R.Frames, Ready, Inv;
      ghost var s := View();
      AppendSane(c, s, payload);
      ReadyParts(c, s);
      if Inv(c, s) {
        AppendKeeps(c, s, payload);
      }
      lsn := 0;
      if poisoned {
        return lsn, Some(Poisoned);
      }
      if |payload| > c.maxRecordSize {
        return lsn, Some(RecordTooLarge);
      }
      var next := CheckedNext(last);
      if next.None? {
        return lsn, Some(LsnExhausted);
      }
      lsn := next.value;
      var framed;
      staging, framed := R.EncodeInto(c.crc, staging, lsn, payload);
      R.FramesJoin(c.crc, durable + 1, batch, [payload]);
      R.FramesOne(c.crc, lsn, payload);
      batch := batch + [payload];
      last := lsn;
      e := None;
    }

    /** Seal the active segment and start a fresh one at the next LSN. */
    method Roll(newBase: nat) returns (ok: bool)
      requires Mirrors() && !poisoned && dev.inflight == Nothing && c.Valid() && newBase == durable + 1 <= MAX_LSN
      modifies this`segments, this`writeOffset, this`poisoned, dev
      ensures ok <==> old(dev.budget) >= ROLL_CALLS
      ensures ok ==> View() == Rolled(c, old(View())) && Mirrors() && dev.budget == old(dev.budget) - ROLL_CALLS
      ensures !ok ==> View() == old(View()).(poisoned := true, inflight := Creating(newBase)) && Mirrors()
    {
      hide Inv, Fresh;
      ok := dev.CreateSegment(newBase);
      if ok {
        ok := dev.SyncDir(c);
      }
      if !ok {
        poisoned := true;
        return;
      }
      writeOffset := HEADER_SIZE;
      segments := segments + [newBase];
    }

    /** Write and sync the staged bytes `[pos, scan)`, which hold the first `k` staged records. */
    method WritePrefix(pos: nat, scan: nat, lastLsn: nat, ghost k: nat) returns (e: Option<WalError>)
      requires Mirrors() && !poisoned && dev.inflight == Nothing
      requires 0 < k <= |batch| && lastLsn == durable + k && pos < scan <= |staging|
      requires writeOffset <= |Active(dev.dir).data|
      requires staging[pos..scan] == Chunk(c, View(), k)
      modifies this`writeOffset, this`durable, this`observed, this`poisoned, this`batch, dev
      ensures e == if old(dev.budget) == 0 then Some(IoFailed)
                   else if old(dev.budget) == 1 then Some(FsyncFailed) else None
      ensures e.None? ==> View() == Wrote(c, old(View()), k) && Mirrors() && dev.budget == old(dev.budget) - WRITE_CALLS
      ensures e.Some? ==> Mirrors()
                          && var stuck := Writing(old(writeOffset), Chunk(c, old(View()), k));
                          && View() == old(View()).(poisoned := true, inflight := stuck)
    {
      hide R.Frames, Overwrite;
      var ok := dev.WriteActive(writeOffset, staging[pos..scan]);
      if !ok {
        poisoned := true;
        return Some(IoFailed);
      }
      ok := dev.SyncActive();
      if !ok {
        poisoned := true;
        return Some(FsyncFailed);
      }
      writeOffset := writeOffset + (scan - pos);
      durable := lastLsn;
      observed := observed + [durable];
      batch := batch[k..];
      ReplaceBases(old(dev.dir), Active(dev.dir).data);
      e := None;
    }

    /** The commit loop is under way: what is left from `pos` on is what is still staged. */
    ghost predicate Going(pos: nat)
      reads this, dev
    {
      && !poisoned && Mirrors() && dev.inflight == Nothing && Ready(c, View())
      && pos <= |staging| && staging[pos..] == R.Frames(c.crc, durable + 1, batch)
    }

    /** Steps 1 and 2 of a turn: find the prefix that fits and, if it is not empty, write and sync it. */
    method WriteWhatFits(pos: nat) returns (e: Option<WalError>, next: nat)
      requires Going(pos) && pos < |staging|
      modifies this`writeOffset, this`durable, this`observed, this`poisoned, this`batch, dev
      ensures Mirrors()
      ensures e.None? ==> Going(next) && pos <= next && Room(c, View()) >= 0
                          && CommitLoop(c, View(), dev.budget) == old(CommitLoop(c, View(), dev.budget))
                          && CommitError(c, View(), dev.budget) == old(CommitError(c, View(), dev.budget))
                          && (next < |staging| ==> Fit(Room(c, View()), batch) == 0)
                          && (next == pos ==> View() == old(View()))
                          && (next > pos ==> |batch| < old(|batch|))
      ensures e.Some? ==> poisoned && View() == old(CommitLoop(c, View(), dev.budget))
                          && e == old(CommitError(c, View(), dev.budget))
    {
      hide Ready, CommitLoop, CommitError, R.Frames, Fit, Wrote, Chunk;
      ghost var v, b := View(), dev.budget;
      ReadyParts(c, v);
      StagedLeft(c, v, staging[pos..]);
      var remaining := c.segmentSize - writeOffset;
      ghost var k := Fit(remaining, batch);
      var scan, prefixLast := FittingPrefix(c, staging, pos, remaining, durable + 1, batch);
      next := scan;
      e := None;
      if scan > pos {
        ChunkIs(c, v, k);
        LoopWrites(c, v, k, b);
        e := WritePrefix(pos, scan, prefixLast, k);
        WroteParts(c, v, k);
      }
      if e.None? {
        ReadyParts(c, View());
        NothingFits(c, v, View(), k);
      }
    }

    /** Step 3 of a turn: records remain, so seal the active segment and roll. */
    method RollOn(pos: nat) returns (ok: bool)
      requires Going(pos) && pos < |staging| && writeOffset <= c.segmentSize
      requires Fit(Room(c, View()), batch) == 0
      modifies this`segments, this`writeOffset, this`poisoned, dev
      ensures Mirrors()
      ensures ok ==> Going(pos) && batch == old(batch)
                     && CommitLoop(c, View(), dev.budget) == old(CommitLoop(c, View(), dev.budget))
                     && CommitError(c, View(), dev.budget) == old(CommitError(c, View(), dev.budget))
                     && writeOffset == HEADER_SIZE != old(writeOffset)
      ensures !ok ==> poisoned && View() == old(CommitLoop(c, View(), dev.budget))
                      && old(CommitError(c, View(), dev.budget)) == Some(IoFailed)
    {
      hide Ready, CommitLoop, CommitError, R.Frames, Fit, Rolled, Chunk;
      ghost var u := View();
      ReadyParts(c, u);
      StagedLeft(c, u, staging[pos..]);
      LoopRolls(c, u, dev.budget);
      R.PeekFrames(c.crc, durable + 1, batch, []);
      NilJoin(staging[pos..]);
      var (newBase, _) := R.Peek(staging[pos..]);
      ok := Roll(newBase);
      RolledParts(c, u);
    }

    /** Make everything staged durable, splitting across segments on whole-record boundaries. */
    method Commit() returns (lsn: nat, e: Option<WalError>)
      requires Coherent()
      modifies this, dev
      ensures Coherent() && (old(Valid()) ==> Valid())
      ensures (View(), e) == Writer.Commit(c, old(View()), old(dev.budget))
      ensures e.None? ==> lsn == durable == old(last) && batch == []
    {
      hide Inv, Ready, CommitLoop, CommitError, R.Frames, Fit, Bases, CommitEffect;
      ghost var s, budget := View(), dev.budget;
      lsn := durable;
      if poisoned {
        return lsn, Some(Poisoned);
      }
      CommitSane(c, s, budget);
      if Inv(c, s) {
        CommitRuns(c, s, budget);
        EffectInv(c, s, CommitLoop(c, s, budget));
      }
      if staging == [] {
        NothingStaged(c, s);
        LoopEnds(c, s, budget);
        return durable, None;
      }
      var total: nat, pos: nat := |staging|, 0;
      assert staging[0..] == staging;
      while pos < total
        invariant Going(pos) && total == |staging|
        invariant CommitLoop(c, View(), dev.budget) == CommitLoop(c, s, budget)
        invariant CommitError(c, View(), dev.budget) == CommitError(c, s, budget)
        decreases |batch|, if writeOffset == HEADER_SIZE then 0 else 1
      {
        var failed, next := WriteWhatFits(pos);
        if failed.Some? {
          return lsn, failed;
        }
        pos := next;
        if pos < total {
          ReadyParts(c, View());
          var ok := RollOn(pos);
          if !ok {
            return lsn, Some(IoFailed);
          }
        }
      }
      NothingLeftStaged(c, View(), staging[pos..]);
      LoopEnds(c, View(), dev.budget);
      staging := [];
      R.FramesNil(c.crc, durable + 1);
      lsn, e := durable, None;
    }

    /** Delete whole sealed segments at or below `upTo`, oldest first, then sync the directory once. */
    method Checkpoint(upTo: nat) returns (e: Option<WalError>)
      requires Coherent()
      modifies this`segments, this`oldest, this`poisoned, dev
      ensures Coherent() && (old(Valid()) ==> Valid())
      ensures (View(), e) == Writer.Checkpoint(old(View()), upTo, old(dev.budget))
    {
      hide Inv, R.Frames, DeletablePrefixLen, Bases, Ready;
      ghost var s, budget := View(), dev.budget;
      ReadyParts(c, s);
      CheckpointSane(c, s, upTo, budget);
      if Inv(c, s) {
        CheckpointInv(c, s, upTo, budget);
      }
      if poisoned {
        return Some(Poisoned);
      }
      var n := DeletablePrefixLen(segments, upTo);
      if n == 0 {
        return None;
      }
      var ok := dev.RemoveOldest(c, n);
      if !ok {
        poisoned := true;
        return Some(IoFailed);
      }
      DropBases(s.dir, n);
      segments := segments[n..];
      oldest := segments[0];
      e := None;
    }

    /**
      A replay reader starting in the segment that contains `from`; 0 means from the beginning. A poisoned
      handle serves readers too: they see what the page cache holds of the write that failed, and fail to
      open a segment that a failed checkpoint has removed. `cut` says how far that operation got.
     */
    method ReaderFrom(from: nat, cut: nat) returns (reader: Option<LogReader>, e: Option<WalError>)
      requires Coherent()
      ensures dev.inflight.Writing? ==> dev.inflight.off <= |Active(dev.dir).data|
      ensures e == Some(ContiguityViolation) <==> from != 0 && from < oldest
      ensures e == Some(IoFailed) <==>
                (from == 0 || from >= oldest) && ContainingSegmentIdx(segments, Effective(from)) < dev.Gone(cut)
      ensures reader.Some? <==> e.None?
      ensures reader.Some? ==>
                && fresh(reader.value) && reader.value.Valid()
                && var start := ContainingSegmentIdx(segments, Effective(from));
                && reader.value.Remaining()
                   == Keep(Stream(c, dev.Cached(cut), start, HEADER_SIZE, segments[start]), Effective(from))
      ensures reader.Some? && Chain(c, dev.dir) ==>
                reader.value.Remaining() == Keep(Numbered(oldest, Log(c, dev.Cached(cut))), from)
      ensures !poisoned ==> dev.Cached(cut) == dev.dir && dev.Gone(cut) == 0
    {
      hide R.Frames, Stream, Keep, Numbered, Log, Chain, Overwrite, ContainingSegmentIdx, Ready;
      ghost var s := View();
      ReadyParts(c, s);
      var seen := dev.Cached(cut);
      CachedBases(s, seen, cut);
      if from != 0 && from < oldest {
        return None, Some(ContiguityViolation);
      }
      var effective := Effective(from);
      var start := ContainingSegmentIdx(segments, effective);
      if start < dev.Gone(cut) {
        return None, Some(IoFailed);
      }
      var r := new LogReader(c, seen, start, effective);
      if Chain(c, dev.dir) {
        CachedChain(c, s, seen, cut);
        ReadsLog(c, seen, from);
      }
      reader, e := Some(r), None;
    }
  }

  /** "From 0" means from the beginning. */
  function Effective(from: nat): (lsn: nat)
    ensures lsn >= 1
  {
    if from == 0 then 1 else from
  }

  /** What the page cache shows of a directory while a write to its active segment is in flight. */
  predicate Shown(s: Sys, seen: Dir, cut: nat)
    requires s.dir != [] && (s.inflight.Writing? ==> s.inflight.off <= |Active(s.dir).data|)
  {
    seen == match s.inflight
            case Writing(off, data) => Replace(s.dir, Overwrite(Active(s.dir).data, off, data[..Min(cut, |data|)]))
            case _ => s.dir
  }

  lemma CachedBases(s: Sys, seen: Dir, cut: nat)
    requires s.dir != [] && (s.inflight.Writing? ==> s.inflight.off <= |Active(s.dir).data|) && Shown(s, seen, cut)
    ensures seen != [] && Bases(seen) == Bases(s.dir) && seen[0].base == s.dir[0].base
  {
    hide Overwrite, Bases;
    if s.inflight.Writing? {
      ReplaceBases(s.dir, Active(seen).data);
    }
    assert Bases(seen)[0] == Bases(s.dir)[0];
  }

  /** What the page cache shows of a chain is a chain. */
  lemma CachedChain(c: Env, s: Sys, seen: Dir, cut: nat)
    requires Chain(c, s.dir) && s.dir != [] && Sane(c, s) && Shown(s, seen, cut)
    ensures Chain(c, seen)
  {
    hide Overwrite, Chain;
    if s.inflight.Writing? {
      var g := Active(seen).data;
      var f, off := Active(s.dir).data, s.inflight.off;
      SliceOfSlice(g, 0, off, 0, HEADER_SIZE);
      SliceOfSlice(f, 0, off, 0, HEADER_SIZE);
      assert g[..HEADER_SIZE] == g[..off][0..HEADER_SIZE] == f[..off][0..HEADER_SIZE] == f[..HEADER_SIZE];
      ChainReplace(c, s.dir, g);
    }
  }

  /** A seeking reader of a chain yields its log from the start LSN on. */
  lemma ReadsLog(c: Env, d: Dir, from: nat)
    requires Chain(c, d) && d != []
    ensures var start := ContainingSegmentIdx(Bases(d), Effective(from));
            Keep(Stream(c, d, start, HEADER_SIZE, d[start].base), Effective(from))
            == Keep(Numbered(d[0].base, Log(c, d)), from)
  {
    hide Stream, Keep, Numbered, Log, Chain, ContainingSegmentIdx;
    SeekIsReplay(c, d, Effective(from));
    StreamIsLog(c, d, 0);
    assert d[0..] == d;
    FirstBase(c, d);
    FromTheBeginning(d[0].base, Log(c, d));
  }

  lemma CheckpointInv(c: Env, s: Sys, upTo: nat, budget: nat)
    requires Inv(c, s) && s.dir != []
    ensures Inv(c, Checkpoint(s, upTo, budget).0)
  {
    hide Inv, Checkpoint, Log, Chain;
    CheckpointKeeps(c, s, upTo, budget);
  }

  lemma ReplaceBases(d: Dir, data: Bytes)
    requires d != []
    ensures Bases(Replace(d, data)) == Bases(d)
  {
    var r := Replace(d, data);
    forall i | 0 <= i < |d| ensures r[i].base == d[i].base {
      assert i < |d| - 1 ==> r[i] == r[..|d| - 1][i] == d[..|d| - 1][i];
    }
  }

  // ----- Facts the commit loop needs, one at a time -----

  lemma StagedLeft(c: Env, s: Sys, rest: Bytes)
    requires rest == R.Frames(c.crc, s.durable + 1, s.batch) && rest != []
    ensures s.batch != []
  {
    hide R.Frames;
    R.FramesEmpty(c.crc, s.durable + 1, s.batch);
  }

  lemma NothingLeftStaged(c: Env, s: Sys, rest: Bytes)
    requires rest == R.Frames(c.crc, s.durable + 1, s.batch) && rest == []
    ensures s.batch == []
  {
    hide R.Frames;
    R.FramesEmpty(c.crc, s.durable + 1, s.batch);
  }

  lemma NothingStaged(c: Env, s: Sys)
    requires R.Frames(c.crc, s.durable + 1, s.batch) == []
    ensures s.batch == []
  {
    NothingLeftStaged(c, s, []);
  }

  lemma ChunkIs(c: Env, s: Sys, k: nat)
    requires k <= |s.batch| && s.writeOffset <= c.segmentSize
    ensures Chunk(c, s, k) == R.Frames(c.crc, s.durable + 1, s.batch[..k])
    ensures Room(c, s) == c.segmentSize - s.writeOffset
  {
  }

  lemma FirstBase(c: Env, d: Dir)
    requires Chain(c, d) && d != []
    ensures d[0].base >= 1
  {
    hide LinkOk, DecodeHeader;
    assert HeaderOk(c, d[0]);
  }

  /** Every record is at or above LSN 1, so "from 0" and "from 1" name the same items. */
  lemma FromTheBeginning(base: nat, recs: seq<Bytes>)
    requires base >= 1
    ensures Keep(Numbered(base, recs), 0) == Keep(Numbered(base, recs), 1)
  {
    hide Keep, Numbered;
    KeepAll(base, recs, 0);
    KeepAll(base, recs, 1);
  }
}
