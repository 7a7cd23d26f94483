/** Opening a log: discard, recovery or cold start, and what every successful open guarantees. */
module Open {
  import opened ByteString
  import opened Config
  import opened Segment
  import opened Recovery
  import opened Directory
  import R = Record

  /** The whole open path over the directory's contents. */
  function OpenDir(c: Env, d: Dir, seed: nat): (r: Opening)
    requires seed <= MAX_LSN
  {
    if !c.Valid() || seed == 0 then Refused(InvalidConfig)
    else
      match Discard(c, d)
      case None => Refused(BadSegmentHeader)
      case Some(kept) =>
        if kept == [] then Opened([Fresh(c, seed)], HEADER_SIZE, seed - 1, CleanTail)
        else RecoverFrom(c, kept, None)
  }

  /** A log in the shape the writer keeps: a chain whose active segment is zero past its last record. */
  predicate Tight(c: Env, d: Dir) {
    Chain(c, d) && ZeroTail(c, Active(d))
  }

  predicate ZeroTail(c: Env, sf: SegFile) {
    c.segmentSize <= |sf.data| && ZeroOn(sf.data, RunOf(c, sf).end, c.segmentSize)
  }

  /** Zeroing a torn tail keeps the surviving run, byte for byte, and leaves a clean segment. */
  lemma RepairKeeps(c: Env, f: Bytes, base: nat)
    requires base >= 1 && HEADER_SIZE <= |f| && Classify(c, f, base, true).Truncated?
    ensures var v := Classify(c, f, base, true);
            && v.offset <= |f| && v.offset <= c.segmentSize
            && var g := Repaired(c, f, v);
            && DenseRun(c, g, HEADER_SIZE, base) == DenseRun(c, f, HEADER_SIZE, base)
            && v.offset == DenseRun(c, f, HEADER_SIZE, base).end
            && v.maxLsn + 1 == base + |DenseRun(c, f, HEADER_SIZE, base).payloads|
            && g[..v.offset] == f[..v.offset]
            && c.segmentSize <= |g| && ZeroOn(g, v.offset, c.segmentSize)
            && |g| == (if c.segmentSize <= |f| then |f| else c.segmentSize)
            && (forall i :: c.segmentSize <= i < |f| ==> g[i] == f[i])
            && Classify(c, g, base, true) == Clean(v.maxLsn, v.offset)
  {
    hide ScanAt, Classify, Overwrite, DenseRun, ZeroOn;
    var v := Classify(c, f, base, true);
    TruncationInFile(c, f, base);
    TruncatedAtEnd(c, f, base);
    var run := DenseRun(c, f, HEADER_SIZE, base);
    var g := Repaired(c, f, v);
    OverwriteZeroTail(c, f, v.offset);
    assert SameOn(f, g, HEADER_SIZE, run.end);
    RunExtends(c, f, g, HEADER_SIZE, base);
    RunInZeros(c, g, run.end, base + |run.payloads|, run.end);
    NilJoin(run.payloads);
    ScanZeros(c, g, run.end, run.end);
    CleanAtEnd(c, g, base);
  }

  lemma TruncatedAtEnd(c: Env, f: Bytes, base: nat)
    requires base >= 1 && Classify(c, f, base, true).Truncated?
    ensures var v, run := Classify(c, f, base, true), DenseRun(c, f, HEADER_SIZE, base);
            v.offset == run.end && v.maxLsn + 1 == base + |run.payloads|
  {
    hide ScanAt, DenseRun, Continues, ZeroCut;
  }

  lemma CleanAtEnd(c: Env, f: Bytes, base: nat)
    requires base >= 1 && ScanAt(c, f, DenseRun(c, f, HEADER_SIZE, base).end).CleanEnd?
    ensures var run := DenseRun(c, f, HEADER_SIZE, base);
            Classify(c, f, base, true) == Clean(base + |run.payloads| - 1, run.end)
  {
    hide ScanAt, DenseRun, Continues, ZeroCut;
  }

  lemma OverwriteZeroTail(c: Env, f: Bytes, x: nat)
    requires x <= |f| && x <= c.segmentSize
    ensures var g := Overwrite(f, x, Zeros(c.segmentSize - x));
            c.segmentSize <= |g| && ZeroOn(g, x, c.segmentSize)
  {
    var z := Zeros(c.segmentSize - x);
    var g := Overwrite(f, x, z);
    assert g[x..x + |z|] == z;
    forall i | x <= i < c.segmentSize ensures g[i] == 0 {
      assert g[i] == g[x..x + |z|][i - x];
    }
  }

  /** New bytes in the active segment keep the chain if its header still stands. */
  lemma ChainReplace(c: Env, d: Dir, data: Bytes)
    requires Chain(c, d) && HEADER_SIZE <= |data|
    requires data[..HEADER_SIZE] == Active(d).data[..HEADER_SIZE]
    ensures Chain(c, Replace(d, data))
    ensures Log(c, Replace(d, data)) == Log(c, d[..|d| - 1]) + RunOf(c, SegFile(Active(d).base, data)).payloads
    ensures Replace(d, data)[0].base == d[0].base
  {
    hide LinkOk, RunOf, DecodeHeader;
    var n := Replace(d, data);
    LogSplit(c, n);
    assert HeaderOk(c, Active(d));
    forall i | 0 <= i < |n| ensures HeaderOk(c, n[i]) {
      assert i < |n| - 1 ==> n[i] == n[..|d| - 1][i] == d[..|d| - 1][i];
    }
    forall i | 0 <= i < |n| - 1 ensures LinkOk(c, n[i], n[i + 1]) {
      assert n[i] == n[..|d| - 1][i] == d[i];
      assert i + 1 < |d| - 1 ==> n[i + 1] == n[..|d| - 1][i + 1] == d[i + 1];
      assert LinkOk(c, d[i], d[i + 1]);
      LinkByBase(c, d[i], d[i + 1], n[i + 1]);
    }
    assert n[0].base == d[0].base by {
      assert |d| > 1 ==> n[0] == n[..|d| - 1][0] == d[0];
    }
  }

  lemma LinkByBase(c: Env, sf: SegFile, a: SegFile, b: SegFile)
    requires LinkOk(c, sf, a) && a.base == b.base
    ensures LinkOk(c, sf, b)
  {
    hide SealedOk, RunOf;
  }

  /** What open reports of the active segment it found: clean, or where it cut the tail. */
  function TailOf(c: Env, sf: SegFile, offset: nat): (t: TailState) {
    if EndsAt(c, sf.data, RunOf(c, sf).end) then CleanTail else TruncatedAt(sf.base, offset)
  }

  /** What a successful recovery of a chain leaves: the same records, a clean end, the writer placed on it. */
  lemma Concluded(c: Env, d: Dir)
    requires Chain(c, d) && Conclude(c, d).Opened?
    ensures var r := Conclude(c, d);
            && Chain(c, r.dir)
            && Log(c, r.dir) == Log(c, d)
            && r.dir[0].base == d[0].base && Active(r.dir).base == Active(d).base
            && r.writeOffset == RunOf(c, Active(r.dir)).end
            && r.last + 1 == NextLsn(c, Active(r.dir))
            && Conclude(c, r.dir) == Opened(r.dir, r.writeOffset, r.last, CleanTail)
            && (r.tail.TruncatedAt? ==> Tight(c, r.dir))
            && (r.tail.CleanTail? ==> r.dir == d)
            && r.tail == TailOf(c, Active(d), r.writeOffset)
  {
    hide ScanAt, Continues, ZeroCut, DenseRun, HeaderOk, LinkOk, DecodeHeader, Overwrite, EndsAt;
    var sf, r := Active(d), Conclude(c, d);
    DecodedNonZero(c, sf);
    EndsExactly(c, sf.data, RunOf(c, sf).end);
    if r.tail.TruncatedAt? {
      ConcludedTorn(c, d);
    }
  }

  lemma ConcludedTorn(c: Env, d: Dir)
    requires Chain(c, d) && Conclude(c, d).Opened? && Conclude(c, d).tail.TruncatedAt?
    ensures var r := Conclude(c, d);
            && Tight(c, r.dir)
            && Log(c, r.dir) == Log(c, d)
            && r.dir[0].base == d[0].base && Active(r.dir).base == Active(d).base
            && r.writeOffset == RunOf(c, Active(r.dir)).end
            && r.last + 1 == NextLsn(c, Active(r.dir))
            && Conclude(c, r.dir) == Opened(r.dir, r.writeOffset, r.last, CleanTail)
  {
    hide ScanAt, Continues, ZeroCut, LinkOk, DecodeHeader, Overwrite, DenseRun, Judge;
    var sf, r := Active(d), Conclude(c, d);
    DecodedNonZero(c, sf);
    var v := Classify(c, sf.data, sf.base, true);
    RepairKeeps(c, sf.data, sf.base);
    var g := Repaired(c, sf.data, v);
    SliceOfSlice(g, 0, v.offset, 0, HEADER_SIZE);
    SliceOfSlice(sf.data, 0, v.offset, 0, HEADER_SIZE);
    assert g[..HEADER_SIZE] == g[..v.offset][0..HEADER_SIZE] == sf.data[..HEADER_SIZE];
    ChainReplace(c, d, g);
    LogSplit(c, d);
  }

  // ----- Cold start -----

  lemma FreshShape(c: Env, base: u64)
    requires c.Valid() && base >= 1
    ensures HeaderOk(c, Fresh(c, base))
    ensures RunOf(c, Fresh(c, base)) == Run([], HEADER_SIZE)
    ensures ZeroTail(c, Fresh(c, base))
  {
    hide DenseRun, Header, ScanAt, DecodeHeader;
    var sf := Fresh(c, base);
    HeaderRoundTrip(c, base);
    assert sf.data[..HEADER_SIZE] == Header(c, base);
    assert ZeroOn(sf.data, HEADER_SIZE, c.segmentSize);
    RunInZeros(c, sf.data, HEADER_SIZE, base, HEADER_SIZE);
  }

  lemma FreshAlone(c: Env, base: u64)
    requires c.Valid() && base >= 1
    ensures Tight(c, [Fresh(c, base)]) && Log(c, [Fresh(c, base)]) == []
    ensures Conclude(c, [Fresh(c, base)]) == Opened([Fresh(c, base)], HEADER_SIZE, base - 1, CleanTail)
  {
    hide HeaderOk, RunOf, LinkOk, Fresh, Conclude, ZeroTail;
    FreshShape(c, base);
    LogOne(c, Fresh(c, base));
    TightIsClean(c, [Fresh(c, base)]);
  }

  /** A tight log opens cleanly, untouched. */
  lemma TightIsClean(c: Env, d: Dir)
    requires Tight(c, d)
    ensures Conclude(c, d) == Opened(d, RunOf(c, Active(d)).end, NextLsn(c, Active(d)) - 1, CleanTail)
  {
    hide DenseRun, ScanAt, HeaderOk, LinkOk;
    var sf := Active(d);
    DecodedNonZero(c, sf);
    ScanZeros(c, sf.data, RunOf(c, sf).end, RunOf(c, sf).end);
  }

  // ----- What every successful open guarantees, over arbitrary directories -----

  lemma DiscardHeader(c: Env, d: Dir)
    requires d != [] && HeaderOk(c, Active(d))
    ensures Discard(c, d) == Some(d)
  {
    hide DecodeHeader, ScanAt;
  }

  lemma DiscardKeepsChain(c: Env, d: Dir)
    requires Chain(c, d)
    ensures Discard(c, d) == Some(d)
  {
    hide DecodeHeader, Discard, LinkOk;
    assert HeaderOk(c, Active(d));
    DiscardHeader(c, d);
  }

  lemma ChainOpens(c: Env, d: Dir, seed: nat)
    requires Chain(c, d) && c.Valid() && 1 <= seed <= MAX_LSN
    ensures OpenDir(c, d, seed) == Conclude(c, d)
  {
    hide Conclude, Discard, RecoverFrom, HeaderOk, LinkOk;
    DiscardKeepsChain(c, d);
    ChainRecovers(c, d, None);
  }

  /** The directory a successful open leaves, as recovery of some chain or a cold start. */
  lemma OpenedFrom(c: Env, d: Dir, seed: nat)
    requires seed <= MAX_LSN && OpenDir(c, d, seed).Opened?
    ensures c.Valid() && seed >= 1
    ensures var r := OpenDir(c, d, seed);
            || (Discard(c, d) == Some([]) && r == Opened([Fresh(c, seed)], HEADER_SIZE, seed - 1, CleanTail))
            || (Discard(c, d).Some? && Chain(c, Discard(c, d).value) && r == Conclude(c, Discard(c, d).value))
  {
    hide Conclude, Discard, RecoverFrom, HeaderOk, LinkOk;
    if Discard(c, d).value != [] {
      OpenedIsChain(c, Discard(c, d).value, None);
      ChainRecovers(c, Discard(c, d).value, None);
    }
  }

  /**
    Soundness over any file contents: a successful open leaves one contiguous chain whose records
    are numbered without gap or duplicate from the oldest base to the durable LSN, and places the
    writer at the end of the active segment's run, where the records end.
   */
  lemma OpenSound(c: Env, d: Dir, seed: nat)
    requires seed <= MAX_LSN && OpenDir(c, d, seed).Opened?
    ensures var r := OpenDir(c, d, seed);
            && Chain(c, r.dir)
            && r.dir[0].base + |Log(c, r.dir)| == r.last + 1
            && r.last <= MAX_LSN
            && r.writeOffset == RunOf(c, Active(r.dir)).end
            && (Discard(c, d) != Some([]) ==> Log(c, r.dir) == Log(c, Discard(c, d).value))
            && Conclude(c, r.dir) == Opened(r.dir, r.writeOffset, r.last, CleanTail)
  {
    hide Conclude, Discard, Chain, Fresh, ZeroTail, RunOf;
    OpenedFrom(c, d, seed);
    var r := OpenDir(c, d, seed);
    if Discard(c, d) == Some([]) && r == Opened([Fresh(c, seed)], HEADER_SIZE, seed - 1, CleanTail) {
      FreshShape(c, seed);
      FreshAlone(c, seed);
    } else {
      Concluded(c, Discard(c, d).value);
    }
    ChainDense(c, r.dir);
    NextFits(c, Active(r.dir));
  }

  lemma RunEndInFile(c: Env, sf: SegFile)
    ensures HEADER_SIZE <= RunOf(c, sf).end
    ensures c.Valid() ==> RunOf(c, sf).end <= c.segmentSize
    ensures HEADER_SIZE <= |sf.data| ==> RunOf(c, sf).end <= |sf.data|
  {
    hide DenseRun;
  }

  lemma NextFits(c: Env, sf: SegFile)
    ensures NextLsn(c, sf) <= MAX_LSN + 1
  {
    hide DenseRun;
    RunFits(c, sf.data, HEADER_SIZE, sf.base);
  }

  /** A second open of any opened directory, whatever the seed, finds the same log and changes nothing. */
  lemma OpenIdempotent(c: Env, d: Dir, seed: nat, seed': nat)
    requires seed <= MAX_LSN && 1 <= seed' <= MAX_LSN && OpenDir(c, d, seed).Opened?
    ensures var r := OpenDir(c, d, seed);
            OpenDir(c, r.dir, seed') == Opened(r.dir, r.writeOffset, r.last, CleanTail)
  {
    hide OpenDir, Conclude, Chain, RunOf;
    OpenSound(c, d, seed);
    OpenedFrom(c, d, seed);
    ChainOpens(c, OpenDir(c, d, seed).dir, seed');
  }

  /** Opening writes to the active segment only: every other surviving file keeps its bytes. */
  lemma OpenTouchesActiveOnly(c: Env, d: Dir, seed: nat)
    requires seed <= MAX_LSN && OpenDir(c, d, seed).Opened? && Discard(c, d) != Some([])
    ensures var r := OpenDir(c, d, seed);
            var kept := Discard(c, d).value;
            && kept != [] && kept <= d && |kept| >= |d| - 1
            && |r.dir| == |kept| && r.dir[..|kept| - 1] == kept[..|kept| - 1]
            && Active(r.dir).base == Active(kept).base
            && (r.tail == CleanTail ==> r.dir == kept)
  {
    hide Chain, RunOf, Fresh, Classify, ScanAt, HeaderOk;
    OpenedFrom(c, d, seed);
    Concluded(c, Discard(c, d).value);
  }

  // ----- What open answers, and why -----

  /** The tail report, over any directory: a truncation names the active segment and the place of the cut. */
  lemma TailReported(c: Env, d: Dir, seed: nat)
    requires seed <= MAX_LSN && OpenDir(c, d, seed).Opened?
    ensures var r := OpenDir(c, d, seed);
            && r.dir != []
            && (r.tail.TruncatedAt? ==> r.tail == TruncatedAt(Active(r.dir).base, r.writeOffset))
            && (r.tail.TruncatedAt? <==>
                  && Discard(c, d).Some? && Discard(c, d).value != []
                  && var sf := Active(Discard(c, d).value);
                  && !EndsAt(c, sf.data, RunOf(c, sf).end))
  {
    hide OpenDir, Conclude, Chain, RunOf, Discard, EndsAt, Fresh;
    OpenSound(c, d, seed);
    ChainNonEmpty(c, OpenDir(c, d, seed).dir);
    OpenedFrom(c, d, seed);
    if Discard(c, d) != Some([]) {
      Concluded(c, Discard(c, d).value);
    }
  }

  /** The configuration is refused exactly if a largest record might not fit a fresh segment, or the seed is 0. */
  lemma ConfigRefused(c: Env, d: Dir, seed: nat)
    requires seed <= MAX_LSN
    ensures OpenDir(c, d, seed) == Refused(InvalidConfig) <==> seed == 0 || c.maxRecordSize + 91 > c.segmentSize
  {
    hide Discard, RecoverFrom, Fresh;
    if c.Valid() && seed != 0 && Discard(c, d).Some? && Discard(c, d).value != [] {
      NeverConfig(c, Discard(c, d).value, None);
    }
  }

  lemma {:induction false} NeverConfig(c: Env, d: Dir, prev: Option<nat>)
    requires d != []
    ensures RecoverFrom(c, d, prev) != Refused(InvalidConfig)
    decreases d
  {
    hide Classify, HeaderOk;
    if |d| > 1 && HeaderOk(c, d[0]) {
      DecodedNonZero(c, d[0]);
      var v := Classify(c, d[0].data, d[0].base, false);
      if v.Clean? {
        NeverConfig(c, d[1..], Some(v.maxLsn));
      }
    }
  }

  /** A log whose active segment has reached the last LSN: the outcome of open, on its bytes. */
  lemma LastLsnOpens(c: Env, d: Dir, seed: nat)
    requires Chain(c, d) && c.Valid() && 1 <= seed <= MAX_LSN && NextLsn(c, Active(d)) == MAX_LSN + 1
    ensures d != []
    ensures var f, x := Active(d).data, RunOf(c, Active(d)).end;
            var r := OpenDir(c, d, seed);
            && (r.Refused? <==> x + 20 <= c.segmentSize && exists i :: x <= i < x + 20 && i < |f| && f[i] != 0)
            && (r.Refused? ==> r == Refused(CorruptionAt(Active(d).base, x)))
            && (r.Opened? ==> r.last == MAX_LSN && r.writeOffset == x)
  {
    hide DenseRun, Chain, OpenDir, Classify, HeaderOk, Overwrite;
    ChainNonEmpty(c, d);
    ChainOpens(c, d, seed);
    ActiveHeader(c, d);
    DecodedNonZero(c, Active(d));
    LastLsnExactly(c, Active(d).data, Active(d).base);
    CleanExactly(c, Active(d).data, Active(d).base, true);
  }

  lemma ActiveHeader(c: Env, d: Dir)
    requires Chain(c, d)
    ensures HeaderOk(c, Active(d))
  {
    hide HeaderOk, LinkOk;
  }
}
