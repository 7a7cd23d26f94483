/**
  Multi-segment recovery over a whole directory.

  A directory is the sequence of its segment files in ascending order of base LSN, which is how
  discovery leaves it; file names and bases correspond one to one (Segment.FilenamesAreBases).
 */
module Directory {
  import opened ByteString
  import opened Config
  import opened Segment
  import opened Recovery
  import R = Record

  datatype SegFile = SegFile(base: u64, data: Bytes)
  type Dir = seq<SegFile>

  datatype WalError =
    | InvalidConfig
    | BadSegmentHeader
    | ContiguityViolation
    | CorruptionAt(segment: nat, offset: nat)
    | TornMidLogAt(segment: nat, offset: nat)
    | RecordTooLarge
    | LsnExhausted
    | Poisoned
    | IoFailed
    | FsyncFailed

  datatype TailState = CleanTail | TruncatedAt(segment: nat, offset: nat)

  /** Outcome of opening: the directory as recovery leaves it and the writer's position, or an error. */
  datatype Opening =
    | Opened(dir: Dir, writeOffset: nat, last: nat, tail: TailState)
    | Refused(error: WalError)

  predicate HeaderOk(c: Env, sf: SegFile) {
    HEADER_SIZE <= |sf.data| && DecodeHeader(c, sf.data[..HEADER_SIZE]) == Some(sf.base)
  }

  /** A freshly created segment: header, then the pre-allocated zero region. */
  function Fresh(c: Env, base: u64): (sf: SegFile)
    requires c.Valid()
    ensures sf.base == base && |sf.data| == c.segmentSize
  {
    SegFile(base, Header(c, base) + Zeros(c.segmentSize - HEADER_SIZE))
  }

  /**
    Drop a highest segment whose creation did not finish. None is the fatal case: a populated
    segment with a bad header, or a file cut inside its header.
   */
  function Discard(c: Env, d: Dir): (r: Option<Dir>)
    ensures r.Some? ==> r.value == d || (d != [] && r.value == d[..|d| - 1])
  {
    if d == [] then Some(d)
    else
      var sf := d[|d| - 1];
      if |sf.data| < HEADER_SIZE then
        if |sf.data| != 0 then None else Some(d[..|d| - 1])
      else if HeaderOk(c, sf) then Some(d)
      else if ScanAt(c, sf.data, HEADER_SIZE).Rec? then None
      else Some(d[..|d| - 1])
  }

  /** Recover the segments of `d` in order; `prev` is the largest LSN of the segment before them. */
  function RecoverFrom(c: Env, d: Dir, prev: Option<nat>): (r: Opening)
    requires d != []
    decreases d
  {
    var sf := d[0];
    if !HeaderOk(c, sf) then Refused(BadSegmentHeader)
    else if prev.Some? && (prev.value == MAX_LSN || prev.value + 1 != sf.base) then Refused(ContiguityViolation)
    else if |d| == 1 then Conclude(c, d)
    else
      match Classify(c, sf.data, sf.base, false)
      case Clean(maxLsn, _) =>
        if maxLsn < sf.base then Refused(ContiguityViolation)
        else (match RecoverFrom(c, d[1..], Some(maxLsn))
              case Opened(rest, w, last, tail) => Opened([sf] + rest, w, last, tail)
              case Refused(e) => Refused(e))
      case Truncated(x, _) => Refused(CorruptionAt(sf.base, x))
      case Corruption(x) => Refused(CorruptionAt(sf.base, x))
      case TornMidLog(x) => Refused(TornMidLogAt(sf.base, x))
  }

  /** The active segment's verdict decides the outcome for the whole directory. */
  function Conclude(c: Env, d: Dir): (r: Opening)
    requires d != [] && HeaderOk(c, Active(d))
    ensures r.Opened? ==> |r.dir| == |d| && r.dir[..|d| - 1] == d[..|d| - 1]
  {
    var sf := Active(d);
    DecodedNonZero(c, sf);
    var v := Classify(c, sf.data, sf.base, true);
    match v
    case Clean(maxLsn, w) => Opened(d, w, maxLsn, CleanTail)
    case Truncated(x, maxLsn) =>
      TruncationInFile(c, sf.data, sf.base);
      Opened(Replace(d, Repaired(c, sf.data, v)), x, maxLsn, TruncatedAt(sf.base, x))
    case Corruption(x) => Refused(CorruptionAt(sf.base, x))
    case TornMidLog(x) => Refused(TornMidLogAt(sf.base, x))
  }

  function Active(d: Dir): (sf: SegFile)
    requires d != []
  {
    d[|d| - 1]
  }

  /** The directory with new bytes in its active segment. */
  function Replace(d: Dir, data: Bytes): (r: Dir)
    requires d != []
    ensures |r| == |d| && r[..|d| - 1] == d[..|d| - 1]
    ensures Active(r) == SegFile(Active(d).base, data)
  {
    d[..|d| - 1] + [SegFile(Active(d).base, data)]
  }

  lemma DecodedNonZero(c: Env, sf: SegFile)
    requires HeaderOk(c, sf)
    ensures sf.base >= 1
  {
  }

  lemma TruncationInFile(c: Env, f: Bytes, base: nat)
    requires base >= 1 && HEADER_SIZE <= |f|
    ensures var v := Classify(c, f, base, true);
            v.Truncated? ==> v.offset <= |f| && v.offset <= c.segmentSize
  {
  }

  // ----- Chains of segments -----

  /** The dense run a segment file holds. */
  function RunOf(c: Env, sf: SegFile): (r: Run)
    ensures HEADER_SIZE <= r.end
  {
    DenseRun(c, sf.data, HEADER_SIZE, sf.base)
  }

  /** The LSN that follows a segment's run. */
  function NextLsn(c: Env, sf: SegFile): (n: nat)
    ensures n >= sf.base
  {
    sf.base + |RunOf(c, sf).payloads|
  }

  /** What recovery demands of a segment that is not the last: at least one record, then a clean end. */
  predicate SealedOk(c: Env, sf: SegFile) {
    RunOf(c, sf).payloads != [] && ScanAt(c, sf.data, RunOf(c, sf).end).CleanEnd?
  }

  predicate LinkOk(c: Env, sf: SegFile, next: SegFile) {
    SealedOk(c, sf) && next.base == NextLsn(c, sf)
  }

  /** The segments form one contiguous log. */
  predicate Chain(c: Env, d: Dir) {
    && d != []
    && (forall i :: 0 <= i < |d| ==> HeaderOk(c, d[i]))
    && (forall i :: 0 <= i < |d| - 1 ==> LinkOk(c, d[i], d[i + 1]))
  }

  lemma ChainNonEmpty(c: Env, d: Dir)
    requires Chain(c, d)
    ensures d != []
  {
    hide HeaderOk, LinkOk;
  }

  /** All records of the directory, oldest first: record k has LSN `d[0].base + k`. */
  function Log(c: Env, d: Dir): (recs: seq<Bytes>)
    decreases d
  {
    if d == [] then [] else RunOf(c, d[0]).payloads + Log(c, d[1..])
  }

  lemma {:induction false} LogJoin(c: Env, a: Dir, b: Dir)
    ensures Log(c, a + b) == Log(c, a) + Log(c, b)
    decreases a
  {
    hide RunOf;
    if a == [] {
      NilJoin(b);
      NilJoin(Log(c, b));
    } else {
      LogJoin(c, a[1..], b);
      assert (a + b)[1..] == a[1..] + b;
      JoinAssoc(RunOf(c, a[0]).payloads, Log(c, a[1..]), Log(c, b));
    }
  }

  /** The log is the sealed segments' records followed by the active segment's. */
  lemma LogSplit(c: Env, d: Dir)
    requires d != []
    ensures Log(c, d) == Log(c, d[..|d| - 1]) + RunOf(c, Active(d)).payloads
  {
    hide RunOf;
    assert d == d[..|d| - 1] + [Active(d)];
    LogJoin(c, d[..|d| - 1], [Active(d)]);
    LogOne(c, Active(d));
  }

  lemma LogOne(c: Env, sf: SegFile)
    ensures Log(c, [sf]) == RunOf(c, sf).payloads
  {
    hide RunOf;
    NilJoin(RunOf(c, sf).payloads);
  }

  lemma ChainTail(c: Env, d: Dir, k: nat)
    requires Chain(c, d) && k < |d|
    ensures Chain(c, d[k..]) && Active(d[k..]) == Active(d)
  {
    hide HeaderOk, LinkOk;
    var t := d[k..];
    forall i | 0 <= i < |t| - 1 ensures LinkOk(c, t[i], t[i + 1]) {
      assert t[i] == d[k + i] && t[i + 1] == d[k + i + 1];
      assert LinkOk(c, d[k + i], d[k + i + 1]);
    }
  }

  /** In a chain the LSNs run without gap from the oldest base to the end of the active segment. */
  lemma {:induction false} ChainDense(c: Env, d: Dir)
    requires Chain(c, d)
    ensures d[0].base + |Log(c, d)| == NextLsn(c, Active(d))
    decreases d
  {
    hide HeaderOk, SealedOk, RunOf;
    if |d| == 1 {
      assert d == [d[0]];
      LogOne(c, d[0]);
    } else {
      ChainTail(c, d, 1);
      ChainDense(c, d[1..]);
      assert LinkOk(c, d[0], d[1]);
    }
  }

  // ----- Recovery accepts exactly the chains -----

  /** What the previous segment's largest LSN allows as the next base. */
  predicate Follows(prev: Option<nat>, base: nat) {
    prev.Some? ==> prev.value < MAX_LSN && prev.value + 1 == base
  }

  lemma SealedVerdict(c: Env, sf: SegFile)
    requires sf.base >= 1
    ensures var v := Classify(c, sf.data, sf.base, false);
            && !v.Truncated? && !v.TornMidLog?
            && (SealedOk(c, sf) <==> v.Clean? && v.maxLsn >= sf.base)
            && (v.Clean? ==> v.maxLsn + 1 == NextLsn(c, sf))
            && (!v.Clean? ==> v == Corruption(RunOf(c, sf).end))
  {
    hide ScanAt;
  }

  lemma {:induction false} ChainRecovers(c: Env, d: Dir, prev: Option<nat>)
    requires Chain(c, d) && Follows(prev, d[0].base)
    ensures RecoverFrom(c, d, prev) == Conclude(c, d)
    decreases d
  {
    hide ScanAt, SealedOk, Classify, RunOf, Conclude, HeaderOk, DecodeHeader;
    if |d| > 1 {
      assert LinkOk(c, d[0], d[1]);
      DecodedNonZero(c, d[0]);
      SealedVerdict(c, d[0]);
      ChainTail(c, d, 1);
      ChainRecovers(c, d[1..], Some(d[1].base - 1));
      ConcludeTail(c, d);
    }
  }

  lemma ConcludeTail(c: Env, d: Dir)
    requires |d| > 1 && HeaderOk(c, Active(d))
    ensures Active(d[1..]) == Active(d)
    ensures Conclude(c, d) == match Conclude(c, d[1..])
                              case Opened(rest, w, last, tail) => Opened([d[0]] + rest, w, last, tail)
                              case Refused(e) => Refused(e)
  {
    hide HeaderOk, Classify, Repaired;
    assert [d[0]] + d[1..] == d;
    assert [d[0]] + d[1..][..|d| - 2] == d[..|d| - 1];
  }

  lemma {:induction false} OpenedIsChain(c: Env, d: Dir, prev: Option<nat>)
    requires d != [] && RecoverFrom(c, d, prev).Opened?
    ensures Chain(c, d) && Follows(prev, d[0].base)
    decreases d
  {
    hide ScanAt, SealedOk, Classify, RunOf, Conclude, HeaderOk;
    if |d| > 1 {
      DecodedNonZero(c, d[0]);
      SealedVerdict(c, d[0]);
      var maxLsn := Classify(c, d[0].data, d[0].base, false).maxLsn;
      OpenedIsChain(c, d[1..], Some(maxLsn));
      assert LinkOk(c, d[0], d[1]);
      assert forall i :: 1 <= i < |d| ==> d[i] == d[1..][i - 1];
    }
  }
}
