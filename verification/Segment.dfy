/** Segment files: names, headers, and the bounded two-phase record scanner. */
module Segment {
  import opened ByteString
  import opened Config
  import R = Record

  const HEADER_SIZE: nat := 64
  const MAGIC: Bytes := [87, 65, 76, 0, 83, 69, 71, 49]
  const FORMAT_VERSION: nat := 1

  // ----- File names -----

  function Digits(n: nat, k: nat): (s: string)
    ensures |s| == k
  {
    if k == 0 then "" else Digits(n / 10, k - 1) + [('0' as int + n % 10) as char]
  }

  predicate IsDigits(s: string) {
    forall i :: 0 <= i < |s| ==> '0' <= s[i] <= '9'
  }

  function Value(s: string): (n: nat)
    requires IsDigits(s)
  {
    if s == "" then 0
    else 10 * Value(s[..|s| - 1]) + (s[|s| - 1] as int - '0' as int)
  }

  function Pow10(k: nat): (p: nat)
    ensures p > 0
  {
    if k == 0 then 1 else 10 * Pow10(k - 1)
  }

  function FilenameFor(base: nat): (name: string)
    ensures |name| == 24
  {
    Digits(base, 20) + ".wal"
  }

  function ParseBaseLsn(name: string): (r: Option<nat>) {
    if |name| < 4 || name[|name| - 4..] != ".wal" then None
    else
      var digits := name[..|name| - 4];
      if |digits| != 20 || !IsDigits(digits) then None
      else if Value(digits) > MAX_LSN then None
      else Some(Value(digits))
  }

  lemma {:induction false} DigitsValue(n: nat, k: nat)
    requires n < Pow10(k)
    ensures IsDigits(Digits(n, k)) && Value(Digits(n, k)) == n
  {
    if k > 0 {
      DigitsValue(n / 10, k - 1);
      var s := Digits(n, k);
      assert s[..|s| - 1] == Digits(n / 10, k - 1);
    }
  }

  lemma {:induction false} ValueDigits(s: string)
    requires IsDigits(s)
    ensures Digits(Value(s), |s|) == s
  {
    if s != "" {
      var t := s[..|s| - 1];
      ValueDigits(t);
      assert Value(s) / 10 == Value(t);
      assert s == t + [s[|s| - 1]];
    }
  }

  lemma Pow10Reaches()
    ensures Pow10(20) > MAX_LSN
  {
    assert Pow10(5) == 10 * 10 * 10 * 10 * 10 by {
      assert Pow10(2) == 100;
      assert Pow10(4) == 100 * Pow10(2);
    }
    assert Pow10(7) == 100 * Pow10(5);
    assert Pow10(9) == 100 * Pow10(7);
    assert Pow10(11) == 100 * Pow10(9);
    assert Pow10(13) == 100 * Pow10(11);
    assert Pow10(15) == 100 * Pow10(13);
    assert Pow10(17) == 100 * Pow10(15);
    assert Pow10(19) == 100 * Pow10(17);
    assert Pow10(20) == 10 * Pow10(19);
  }

  /** Segment names and base LSNs correspond one to one, so a directory is a map from bases to files. */
  lemma FilenamesAreBases(name: string, base: nat)
    ensures ParseBaseLsn(name) == Some(base) <==> base <= MAX_LSN && name == FilenameFor(base)
  {
    if base <= MAX_LSN {
      Pow10Reaches();
      DigitsValue(base, 20);
      var f := FilenameFor(base);
      assert f[|f| - 4..] == ".wal" && f[..|f| - 4] == Digits(base, 20);
    }
    if ParseBaseLsn(name) == Some(base) {
      ValueDigits(name[..|name| - 4]);
      assert name == name[..|name| - 4] + ".wal";
    }
  }

  /** What the names look like: 20 decimal digits, most significant first, then the suffix. */
  lemma FilenameShape(base: nat, i: nat)
    requires i < 20
    ensures FilenameFor(base)[i] as int == '0' as int + base / Pow10(19 - i) % 10
    ensures FilenameFor(base)[20..] == ".wal"
  {
    DigitAt(base, 20, i);
  }

  lemma {:induction false} DigitAt(n: nat, k: nat, i: nat)
    requires i < k
    ensures Digits(n, k)[i] as int == '0' as int + n / Pow10(k - 1 - i) % 10
  {
    if i < k - 1 {
      DigitAt(n / 10, k - 1, i);
      DivDiv(n, 10, Pow10(k - 2 - i));
    }
  }

  // ----- Headers -----

  function HeaderPrefix(c: Env, base: u64): (h: Bytes)
    ensures |h| == 60
  {
    MAGIC + Le(FORMAT_VERSION, 2) + Zeros(2) + Le(base, 8) + Le(c.stamp(base), 8) + Zeros(32)
  }

  function Header(c: Env, base: u64): (h: Bytes)
    ensures |h| == HEADER_SIZE
  {
    HeaderPrefix(c, base) + Le(c.crc(HeaderPrefix(c, base)), 4)
  }

  function DecodeHeader(c: Env, bytes: Bytes): (r: Option<nat>)
    ensures r.Some? ==> 1 <= r.value
  {
    if |bytes| < HEADER_SIZE then None
    else if bytes[..8] != MAGIC then None
    else if c.crc(bytes[..60]) != FromLe(bytes[60..64]) then None
    else if FromLe(bytes[8..10]) != FORMAT_VERSION then None
    else
      var base := FromLe(bytes[12..20]);
      if base == 0 then None else Some(base)
  }

  /** The layout of a header. */
  lemma HeaderFields(c: Env, base: u64)
    ensures var h := Header(c, base);
            && h[..8] == [0x57, 0x41, 0x4C, 0x00, 0x53, 0x45, 0x47, 0x31] && h[8..12] == [1, 0, 0, 0]
            && h[12..20] == Le(base, 8) && h[20..28] == Le(c.stamp(base), 8) && AllZero(h[28..60])
            && h[60..64] == Le(c.crc(h[..60]), 4)
  {
    var p, h := HeaderPrefix(c, base), Header(c, base);
    assert h[..60] == p && h[60..64] == Le(c.crc(p), 4);
    assert h[..8] == p[..8] == MAGIC;
    assert Le(1, 2) == [1, 0];
    assert h[8..12] == p[8..12] == Le(FORMAT_VERSION, 2) + Zeros(2);
    assert h[12..20] == p[12..20] == Le(base, 8);
    assert h[20..28] == p[20..28] == Le(c.stamp(base), 8);
    assert h[28..60] == p[28..60] == Zeros(32);
  }

  /**
    Exactly which bytes are a header, and of which base: the magic, version 1, a base of at least 1, and
    the checksum of everything before it. The flag, time and reserved bytes are free.
   */
  lemma HeaderExactly(c: Env, h: Bytes, base: nat)
    ensures DecodeHeader(c, h) == Some(base) <==>
            && |h| >= 64
            && h[..8] == [0x57, 0x41, 0x4C, 0x00, 0x53, 0x45, 0x47, 0x31] && h[8..10] == [1, 0]
            && 1 <= base <= MAX_LSN && h[12..20] == Le(base, 8)
            && h[60..64] == Le(c.crc(h[..60]), 4)
  {
    hide Le, FromLe;
    if |h| >= 64 {
      LeInverse(h[8..10]);
      LeInverse(h[12..20]);
      LeInverse(h[60..64]);
      FromLe8(h[12..20]);
      LeRoundTrip4(c.crc(h[..60]));
      VersionBytes();
      if 1 <= base <= MAX_LSN {
        LeRoundTrip8(base);
      }
    }
  }

  lemma VersionBytes()
    ensures Le(1, 2) == [1, 0] && FromLe([1, 0]) == 1
  {
    assert [1, 0][1..] == [0];
  }

  /** A header decodes to its base; the reserved base 0 is refused. */
  lemma HeaderRoundTrip(c: Env, base: u64)
    ensures DecodeHeader(c, Header(c, base)) == if base == 0 then None else Some(base)
  {
    hide Header, Le;
    var h := Header(c, base);
    HeaderFields(c, base);
    assert h[8..10] == h[8..12][..2];
    if base == 0 {
      LeRoundTrip8(0);
    } else {
      HeaderExactly(c, h, base);
    }
  }

  /** Fill a zeroed 64-byte buffer field by field, the checksum last. */
  method EncodeHeader(c: Env, base: u64) returns (h: array<byte>)
    ensures fresh(h) && h[..] == Header(c, base)
  {
    hide Le;
    h := new byte[HEADER_SIZE](i => 0);
    CopyInto(h, 0, MAGIC);
    CopyInto(h, 8, Le(FORMAT_VERSION, 2));
    CopyInto(h, 12, Le(base, 8));
    CopyInto(h, 20, Le(c.stamp(base), 8));
    assert h[..60] == HeaderPrefix(c, base) by {
      assert h[..60] == h[0..8] + h[8..10] + h[10..12] + h[12..20] + h[20..28] + h[28..60];
      assert h[10..12] == Zeros(2) && h[28..60] == Zeros(32);
    }
    var sum := c.crc(h[..60]);
    CopyInto(h, 60, Le(sum, 4));
    assert h[..] == h[..60] + h[60..64];
  }

  method CopyInto(h: array<byte>, off: nat, src: Bytes)
    requires off + |src| <= h.Length
    modifies h
    ensures h[off..off + |src|] == src
    ensures forall i :: 0 <= i < h.Length && !(off <= i < off + |src|) ==> h[i] == old(h[i])
  {
    forall i | 0 <= i < |src| {
      h[off + i] := src[i];
    }
  }

  // ----- The scanner -----

  datatype Scan =
    | Rec(lsn: nat, payload: Bytes, framed: nat)
    | CleanEnd
    | Invalid

  /**
    What lies at `off` of a segment file: the one-shot reading of the differential tests.
    Reads are bounded by the segment size, and a file may end early.
   */
  function ScanAt(c: Env, file: Bytes, off: nat): (s: Scan)
    ensures s.Rec? ==>
              && |s.payload| <= c.maxRecordSize
              && s.framed == R.FramedSize(|s.payload|)
              && off + s.framed <= c.segmentSize
              && off + s.framed <= |file|
  {
    if c.segmentSize < off + R.RECORD_HEADER_SIZE then CleanEnd
    else if |file| < off + R.RECORD_HEADER_SIZE then Invalid
    else if AllZero(file[off..off + R.RECORD_HEADER_SIZE]) then CleanEnd
    else
      var length := FromLe(file[off + 4..off + 8]);
      if length > c.maxRecordSize then Invalid
      else
        var framed := R.FramedSize(length);
        if off + framed > c.segmentSize || off + framed > |file| then Invalid
        else if c.crc(file[off + 4..off + framed]) != FromLe(file[off..off + 4]) then Invalid
        else if file[off + 16] != 1 then Invalid
        else Rec(FromLe(file[off + 8..off + 16]), file[off + 20..off + 20 + length], framed)
  }

  lemma ScannedLsnFits(c: Env, file: Bytes, off: nat)
    ensures ScanAt(c, file, off).Rec? ==> ScanAt(c, file, off).lsn <= MAX_LSN
  {
    if ScanAt(c, file, off).Rec? {
      FromLe8(file[off + 8..off + 16]);
    }
  }

  /**
    Fill `len` bytes from `off`, however the reads are split: the k-th read returns at most
    `chunk(k) + 1` bytes, and none at end of file.
   */
  method ReadFullAt(file: Bytes, off: nat, len: nat, chunk: nat -> nat) returns (full: bool, buf: Bytes)
    ensures full <==> len == 0 || off + len <= |file|
    ensures full && len > 0 ==> buf == file[off..off + len]
    ensures full ==> |buf| == len
  {
    buf := [];
    var k := 0;
    while |buf| < len
      invariant |buf| <= len
      invariant |buf| > 0 ==> off + |buf| <= |file| && buf == file[off..off + |buf|]
      decreases len - |buf|
    {
      var at := off + |buf|;
      if at >= |file| {
        return false, buf;
      }
      var want := len - |buf|;
      var n := if chunk(k) + 1 < want then chunk(k) + 1 else want;
      n := if at + n <= |file| then n else |file| - at;
      assert file[off..at] + file[at..at + n] == file[off..at + n];
      assert |buf| == 0 ==> file[off..at] == buf;
      buf := buf + file[at..at + n];
      k := k + 1;
    }
    full := true;
  }

  /** The production scanner: header first, then the rest of the frame, then decode the whole. */
  method ReadRecordAt(c: Env, file: Bytes, off: nat, chunk: nat -> nat) returns (s: Scan)
    requires c.Valid()
    ensures s == ScanAt(c, file, off)
  {
    hide FromLe;
    var remaining := if off <= c.segmentSize then c.segmentSize - off else 0;
    if remaining < R.RECORD_HEADER_SIZE {
      return CleanEnd;
    }
    var ok, buf := ReadFullAt(file, off, R.RECORD_HEADER_SIZE, chunk);
    if !ok {
      return Invalid;
    }
    ghost var h := file[off..off + 20];
    assert h[16] == file[off + 16] && h[..20] == h && h[4..8] == file[off + 4..off + 8];
    var peeked := R.Decode(c.crc, buf[..R.RECORD_HEADER_SIZE], c.maxRecordSize);
    if peeked.Sentinel? {
      return CleanEnd;
    }
    var length := FromLe(buf[4..8]);
    if length > c.maxRecordSize {
      return Invalid;
    }
    var framed := R.FramedSize(length);
    if framed > remaining {
      return Invalid;
    }
    var more, tail := ReadFullAt(file, off + R.RECORD_HEADER_SIZE, framed - R.RECORD_HEADER_SIZE, chunk);
    if !more {
      return Invalid;
    }
    buf := buf + tail;
    assert buf == file[off..off + framed];
    DecodeSlice(c, file, off, framed);
    match R.Decode(c.crc, buf[..framed], c.maxRecordSize)
    case Record(lsn, payload, framedLen) => s := Rec(lsn, payload, framedLen);
    case _ => s := Invalid;
  }

  /** Decoding a copy of the frame reads the same fields as scanning it in place. */
  lemma DecodeSlice(c: Env, file: Bytes, off: nat, framed: nat)
    requires off + R.RECORD_HEADER_SIZE <= off + framed <= |file|
    ensures var b := file[off..off + framed];
            && b[..framed] == b
            && b[16] == file[off + 16]
            && b[..20] == file[off..off + 20]
            && b[..4] == file[off..off + 4]
            && b[4..8] == file[off + 4..off + 8]
            && b[8..16] == file[off + 8..off + 16]
            && b[4..framed] == file[off + 4..off + framed]
            && forall j :: 20 <= j <= framed ==> b[20..j] == file[off + 20..off + j]
  {
    var b := file[off..off + framed];
    forall i, j | 0 <= i <= j <= framed ensures b[i..j] == file[off + i..off + j] {
      SliceOfSlice(file, off, off + framed, i, j);
    }
    assert b[4..8] == file[off + 4..off + 8] && b[8..16] == file[off + 8..off + 16];
  }

  // ----- What a scan depends on -----

  /** An encoded frame scans as its record. */
  lemma ScanFrame(c: Env, file: Bytes, off: nat, lsn: u64, payload: Bytes)
    requires |payload| <= c.maxRecordSize
    requires off + R.FramedSize(|payload|) <= |file| && off + R.FramedSize(|payload|) <= c.segmentSize
    requires file[off..off + R.FramedSize(|payload|)] == R.Frame(c.crc, lsn, payload)
    ensures ScanAt(c, file, off) == Rec(lsn, payload, R.FramedSize(|payload|))
  {
    var n := R.FramedSize(|payload|);
    R.FrameFields(c.crc, lsn, payload);
    DecodeSlice(c, file, off, n);
    var f := R.Frame(c.crc, lsn, payload);
    assert f[4..n] == f[4..];
    assert file[off + 16] == f[16..20][0];
    assert file[off..off + 20][16] == 1;
  }

  /** From some place on the files are the same: so are the scans there. */
  lemma ScanSuffix(c: Env, f: Bytes, g: Bytes, off: nat)
    requires |f| == |g| && SameOn(f, g, off, |f|)
    ensures ScanAt(c, f, off) == ScanAt(c, g, off)
  {
    hide FromLe, R.FramedSize;
    forall i, j | off <= i <= j <= |f| ensures f[i..j] == g[i..j] {
      SameSlice(f, g, off, |f|, i, j);
    }
  }

  /** The scan is the decoding of what can be seen: the file from there on, as far as the segment reaches. */
  lemma ScanIsDecode(c: Env, f: Bytes, off: nat)
    ensures ScanAt(c, f, off) ==
            if c.segmentSize < off + 20 then CleanEnd
            else if |f| < off then Invalid
            else match R.Decode(c.crc, f[off..if |f| < c.segmentSize then |f| else c.segmentSize], c.maxRecordSize)
                 case Record(lsn, payload, framed) => Rec(lsn, payload, framed)
                 case Sentinel => CleanEnd
                 case _ => Invalid
  {
    hide FromLe, R.FramedSize;
    var end := if |f| < c.segmentSize then |f| else c.segmentSize;
    if off + 20 <= end {
      DecodeSlice(c, f, off, end - off);
      var b := f[off..end];
      var n := R.FramedSize(FromLe(b[4..8]));
      if n <= |b| {
        SliceOfSlice(f, off, end, 4, n);
      }
    }
  }

  /** A record's scan depends on the record's own bytes only. */
  lemma ScanLocal(c: Env, f: Bytes, g: Bytes, off: nat)
    requires ScanAt(c, f, off).Rec?
    requires SameOn(f, g, off, off + ScanAt(c, f, off).framed)
    ensures ScanAt(c, g, off) == ScanAt(c, f, off)
  {
    var n := ScanAt(c, f, off).framed;
    assert f[off..off + n] == g[off..off + n];
    DecodeSlice(c, f, off, n);
    DecodeSlice(c, g, off, n);
  }

  /** A zeroed region reads as the end of the records, at its start and everywhere inside. */
  lemma ScanZeros(c: Env, f: Bytes, off: nat, from: nat)
    requires from <= off && c.segmentSize <= |f| && ZeroOn(f, from, c.segmentSize)
    ensures ScanAt(c, f, off) == CleanEnd
  {
  }
}
