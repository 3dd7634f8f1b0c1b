/**
 * The file utilities of the scanner: the ELF signature check, the entropy of a file's
 * bytes and the guarded digests, over a model of the file system.
 */
module FileUtils {
  import opened Base
  import Hex

  /** The largest size entropy and digests are computed for: 2 GiB. */
  const MaxFileSize: nat := 2147483648
  /** The size of the buffer the entropy pass reads into. */
  const MaxEntropyChunk: nat := 256000
  /** The number of leading bytes the ELF check reads. */
  const MagicNumRead: nat := 4
  /** The ELF magic number as the source spells it, in hexadecimal. */
  const MagicNumElf: string := "7f454c46"
  /** e_ident[EI_MAG0..EI_MAG3] of the ELF identification: 0x7F 'E' 'L' 'F'. */
  const ElfMagic: seq<byte> := [0x7F, 0x45, 0x4C, 0x46]

  /** What opening and stat-ing a path shows: whether it is a regular file, and its bytes (the size is their number). */
  datatype FileEntry = FileEntry(regular: bool, content: seq<byte>)

  /** The file system as the scanner sees it; a path that is not a key cannot be opened. */
  type FileSystem = map<string, FileEntry>

  // ---------------------------------------------------------------------------------------------
  // ELF signature

  /** The reference definition of an ELF file: regular, at least 4 bytes, beginning with the magic. */
  predicate HasElfMagic(e: FileEntry) {
    e.regular && |e.content| >= MagicNumRead && e.content[..MagicNumRead] == ElfMagic
  }

  /** `IsElfType`: open and stat the path, then compare the first 4 bytes with the decoded magic. */
  function IsElfType(fs: FileSystem, path: string): (r: Result<bool>)
  {
    if path == "" then Err(EmptyPath)
    else if path !in fs then Err(OpenFailed(path))
    else if !fs[path].regular then Ok(false)
    else if |fs[path].content| < MagicNumRead then Ok(false)
    else
      CompareMagic(fs[path].content[..MagicNumRead])
  }

  /** The comparison of `IsElfType`: decode the magic constant, check its length, compare it with the bytes read. */
  function CompareMagic(hexData: seq<byte>): (r: Result<bool>)
    requires |hexData| == MagicNumRead
    ensures r == Ok(hexData == ElfMagic)
  {
    MagicNumElfDecodes();
    match Hex.Decode(MagicNumElf)
    case Err(e) => Err(e)
    case Ok(elfType) =>
      if |elfType| > MagicNumRead then Err(MagicTooLong)
      else Ok(hexData[..|elfType|] == elfType)
  }

  /** The magic constant decodes to exactly the 4 identification bytes. */
  lemma MagicNumElfDecodes()
    ensures Hex.Decode(MagicNumElf) == Ok(ElfMagic)
  {
    assert MagicNumElf[2..] == "454c46" && "454c46"[2..] == "4c46";
    assert "4c46"[2..] == "46" && "46"[2..] == "";
    assert Hex.Decode("") == Ok([]);
    assert Hex.Decode("46") == Ok([(4 * 16 + 6) as byte] + []);
    assert [(4 * 16 + 6) as byte] + [] == [0x46];
    assert Hex.Decode("4c46") == Ok([(4 * 16 + 12) as byte] + [0x46]);
    assert [(4 * 16 + 12) as byte] + [0x46] == [0x4C, 0x46];
    assert Hex.Decode("454c46") == Ok([(4 * 16 + 5) as byte] + [0x4C, 0x46]);
    assert [(4 * 16 + 5) as byte] + [0x4C, 0x46] == [0x45, 0x4C, 0x46];
    assert Hex.Decode(MagicNumElf) == Ok([(7 * 16 + 15) as byte] + [0x45, 0x4C, 0x46]);
    assert [(7 * 16 + 15) as byte] + [0x45, 0x4C, 0x46] == ElfMagic;
  }

  /**
   * `IsElfType` fails exactly on an empty path or a path that cannot be opened, and otherwise
   * answers whether the file is an ELF file: a non-regular or short file is a negative, not an error.
   */
  lemma IsElfTypeExact(fs: FileSystem, path: string)
    ensures IsElfType(fs, path) ==
      if path == "" then Err(EmptyPath)
      else if path !in fs then Err(OpenFailed(path))
      else Ok(HasElfMagic(fs[path]))
  {
    MagicNumElfDecodes();
  }

  // ---------------------------------------------------------------------------------------------
  // Byte histogram

  /** The number of occurrences of byte v in s. */
  function Count(s: seq<byte>, v: byte): nat
  {
    if s == [] then 0 else Count(s[..|s| - 1], v) + (if s[|s| - 1] == v then 1 else 0)
  }

  /** The 256-entry histogram of s: entry v is the number of occurrences of byte v. */
  function Histogram(s: seq<byte>): (h: seq<nat>)
    ensures |h| == 256
  {
    seq(256, v requires 0 <= v < 256 => Count(s, v as byte))
  }

  /** The sum of the entries of h. */
  function Total(h: seq<nat>): nat
  {
    if h == [] then 0 else Total(h[..|h| - 1]) + h[|h| - 1]
  }

  /** Counting is the multiplicity of the byte in the multiset of the bytes. */
  lemma {:induction false} CountIsMultiplicity(s: seq<byte>, v: byte)
    ensures Count(s, v) == multiset(s)[v]
  {
    if s != [] {
      CountIsMultiplicity(s[..|s| - 1], v);
      assert s == s[..|s| - 1] + [s[|s| - 1]];
    }
  }

  /** Extending a prefix by one byte adds one to that byte's count and leaves the others. */
  lemma CountSnoc(s: seq<byte>, k: nat)
    requires k < |s|
    ensures forall v: byte :: Count(s[..k + 1], v) == Count(s[..k], v) + (if s[k] == v then 1 else 0)
  {
    assert s[..k + 1][..k] == s[..k];
  }

  /** Counts add up over a split of the stream: how the bytes are chunked does not matter. */
  lemma CountConcat(a: seq<byte>, b: seq<byte>, v: byte)
    ensures Count(a + b, v) == Count(a, v) + Count(b, v)
  {
    CountIsMultiplicity(a + b, v);
    CountIsMultiplicity(a, v);
    CountIsMultiplicity(b, v);
  }

  /** Contents that are permutations of each other have the same histogram. */
  lemma HistogramOfPermutation(a: seq<byte>, b: seq<byte>)
    requires multiset(a) == multiset(b)
    ensures Histogram(a) == Histogram(b)
  {
    forall v | 0 <= v < 256 ensures Histogram(a)[v] == Histogram(b)[v] {
      CountIsMultiplicity(a, v as byte);
      CountIsMultiplicity(b, v as byte);
    }
  }

  lemma {:induction false} TotalBump(h: seq<nat>, k: nat)
    requires k < |h|
    ensures Total(h[k := h[k] + 1]) == Total(h) + 1
  {
    var h' := h[k := h[k] + 1];
    if k < |h| - 1 {
      assert h'[..|h'| - 1] == h[..|h| - 1][k := h[k] + 1];
      TotalBump(h[..|h| - 1], k);
    } else {
      assert h'[..|h'| - 1] == h[..|h| - 1];
    }
  }

  /** The 256 counts sum to the number of bytes. */
  lemma {:induction false} HistogramTotal(s: seq<byte>)
    ensures Total(Histogram(s)) == |s|
  {
    if s == [] {
      var h := Histogram(s);
      assert forall v :: 0 <= v < 256 ==> h[v] == 0;
      ZeroTotal(h);
    } else {
      var init, x := s[..|s| - 1], s[|s| - 1];
      HistogramTotal(init);
      var h := Histogram(init);
      assert Histogram(s) == h[x as int := h[x as int] + 1];
      TotalBump(h, x as int);
    }
  }

  lemma {:induction false} ZeroTotal(h: seq<nat>)
    requires forall v :: 0 <= v < |h| ==> h[v] == 0
    ensures Total(h) == 0
  {
    if h != [] {
      ZeroTotal(h[..|h| - 1]);
    }
  }

  /** No count exceeds the number of bytes. */
  lemma {:induction false} CountBound(s: seq<byte>, v: byte)
    ensures Count(s, v) <= |s|
  {
    if s != [] {
      CountBound(s[..|s| - 1], v);
    }
  }

  // ---------------------------------------------------------------------------------------------
  // Entropy

  /**
   * The summand `-p * log2(p)` of Shannon entropy, left abstract: floating-point logarithms are
   * not modelled. All the model relies on is that it is non-negative on (0, 1] and 0 at 1.
   */
  type PLog = f: real -> real | (forall p: real :: 0.0 < p <= 1.0 ==> f(p) >= 0.0) && f(1.0) == 0.0
    witness (p: real) => 0.0

  /** The contribution of one symbol: `plog(count / size)`, and nothing when the count is 0. */
  function Term(count: nat, size: nat, plog: PLog): real
    requires size > 0
  {
    var px := count as real / size as real;
    if px > 0.0 then plog(px) else 0.0
  }

  /** The entropy accumulated over the first k symbols of histogram h. */
  function PartialSum(h: seq<nat>, size: nat, plog: PLog, k: nat): real
    requires size > 0 && k <= |h|
  {
    if k == 0 then 0.0 else PartialSum(h, size, plog, k - 1) + Term(h[k - 1], size, plog)
  }

  /** Go's `math.Round`: to the nearest integer, halves away from zero. */
  function RoundHalfAway(x: real): (n: int)
    ensures x - 0.5 <= n as real <= x + 0.5
    ensures x >= 0.0 ==> x - 0.5 < n as real
    ensures x < 0.0 ==> n as real < x + 0.5
    ensures x >= 0.0 ==> n >= 0
  {
    if x >= 0.0 then (x + 0.5).Floor else -((-x + 0.5).Floor)
  }

  /** `math.Round(x*100)/100`: x rounded to two decimals. */
  function Round2(x: real): (r: real)
    ensures x - 0.005 <= r <= x + 0.005
    ensures x >= 0.0 ==> x - 0.005 < r
    ensures x < 0.0 ==> r < x + 0.005
    ensures r * 100.0 == (r * 100.0).Floor as real
    ensures x >= 0.0 ==> r >= 0.0
  {
    RoundHalfAway(x * 100.0) as real / 100.0
  }

  /** The entropy of bytes with histogram h and size `size`, as `Entropy` returns it. */
  function Shannon(h: seq<nat>, size: nat, plog: PLog): real
    requires size > 0 && |h| == 256
  {
    Round2(PartialSum(h, size, plog, |h|))
  }

  /** What `Entropy` returns at a path: the guards in the source's order, then the rounded sum. */
  function EntropyOf(fs: FileSystem, path: string, plog: PLog): Result<real>
  {
    if path == "" then Err(EmptyPath)
    else if path !in fs then Err(OpenFailed(path))
    else if !fs[path].regular then Err(NotRegular(path))
    else if |fs[path].content| == 0 then Ok(0.0)
    else if |fs[path].content| > MaxFileSize then Err(TooLarge(|fs[path].content|))
    else Ok(Shannon(Histogram(fs[path].content), |fs[path].content|, plog))
  }

  /** An open file handle: the file it reads and the offset of the next read. */
  class OpenFile {
    const entry: FileEntry
    var offset: nat

    constructor (e: FileEntry)
      ensures entry == e && offset == 0
    {
      entry := e;
      offset := 0;
    }

    /**
     * `f.Read(buf)`: at end of file, no bytes and EOF; otherwise some bytes, at least one and at
     * most the buffer's length. How many is up to the operating system, so the model leaves it open.
     */
    method Read(buf: array<byte>) returns (n: nat, eof: bool)
      requires offset <= |entry.content| && buf.Length > 0
      modifies this, buf
      ensures offset <= |entry.content|
      ensures eof <==> old(offset) == |entry.content|
      ensures eof ==> n == 0 && offset == old(offset)
      ensures !eof ==> 0 < n <= buf.Length && offset == old(offset) + n
      ensures !eof ==> buf[..n] == entry.content[old(offset)..offset]
    {
      if offset == |entry.content| {
        return 0, true;
      }
      var avail := |entry.content| - offset;
      n :| 0 < n <= buf.Length && n <= avail;
      forall i | 0 <= i < n {
        buf[i] := entry.content[offset + i];
      }
      offset := offset + n;
      eof := false;
    }
  }

  /** One chunk of the counting pass: the `n` bytes just read, which follow the first `start` bytes of `content`. */
  method CountChunk(byteCounts: array<int>, dataBytes: array<byte>, n: nat, ghost content: seq<byte>, ghost start: nat)
    requires byteCounts.Length == 256
    requires n <= dataBytes.Length && start + n <= |content|
    requires dataBytes[..n] == content[start..start + n]
    requires forall v :: 0 <= v < 256 ==> byteCounts[v] == Count(content[..start], v as byte)
    modifies byteCounts
    ensures forall v :: 0 <= v < 256 ==> byteCounts[v] == Count(content[..start + n], v as byte)
  {
    for i := 0 to n
      invariant forall v :: 0 <= v < 256 ==> byteCounts[v] == Count(content[..start + i], v as byte)
    {
      assert dataBytes[i] == dataBytes[..n][i] == content[start + i];
      CountSnoc(content, start + i);
      byteCounts[dataBytes[i] as int] := byteCounts[dataBytes[i] as int] + 1;
    }
  }

  /**
   * The counting pass of `Entropy` (fileutils.go lines 148-165): reads the file to its end in chunks of at
   * most `MaxEntropyChunk` bytes and counts every byte read in a 256-entry histogram.
   */
  method CountBytes(f: OpenFile) returns (byteCounts: array<int>)
    requires f.offset == 0
    modifies f
    ensures fresh(byteCounts) && byteCounts.Length == 256
    ensures forall v :: 0 <= v < 256 ==> byteCounts[v] == Count(f.entry.content, v as byte)
    ensures f.offset == |f.entry.content|
  {
    ghost var content := f.entry.content;
    var dataBytes := new byte[MaxEntropyChunk];
    byteCounts := new int[256](_ => 0);
    while true
      invariant f.offset <= |content|
      invariant forall v :: 0 <= v < 256 ==> byteCounts[v] == Count(content[..f.offset], v as byte)
      decreases |content| - f.offset
    {
      ghost var start := f.offset;
      var numBytesRead, eof := f.Read(dataBytes);
      if eof {
        break;
      }
      assert f.offset == start + numBytesRead;
      CountChunk(byteCounts, dataBytes, numBytesRead, content, start);
    }
    assert content[..f.offset] == content;
  }

  /**
   * `Entropy`: the guards, then a pass over the file in chunks that counts every byte in a
   * 256-entry histogram, then the sum over the symbols seen, rounded to two decimals.
   */
  method Entropy(fs: FileSystem, path: string, plog: PLog) returns (r: Result<real>)
    ensures r == EntropyOf(fs, path, plog)
  {
    if path == "" {
      return Err(EmptyPath);
    }
    if path !in fs {
      return Err(OpenFailed(path));
    }
    var f := new OpenFile(fs[path]);
    if !f.entry.regular {
      return Err(NotRegular(path));
    }
    var size := |f.entry.content|;
    if size == 0 {
      return Ok(0.0);
    }
    if size > MaxFileSize {
      return Err(TooLarge(size));
    }
    ghost var content := f.entry.content;
    var byteCounts := CountBytes(f);
    var entropy := 0.0;
    for i := 0 to 256
      invariant entropy == PartialSum(Histogram(content), size, plog, i)
    {
      var px := byteCounts[i] as real / size as real;
      if px > 0.0 {
        entropy := entropy + plog(px);
      }
    }
    return Ok(Round2(entropy));
  }

  /** The entropy of a file depends only on its histogram: a permutation of its bytes has the same entropy. */
  lemma EntropyDependsOnlyOnHistogram(fs: FileSystem, p: string, q: string, plog: PLog)
    requires p in fs && q in fs && p != "" && q != ""
    requires fs[p].regular && fs[q].regular
    requires multiset(fs[p].content) == multiset(fs[q].content)
    ensures EntropyOf(fs, p, plog) == EntropyOf(fs, q, plog)
  {
    var a, b := fs[p].content, fs[q].content;
    HistogramOfPermutation(a, b);
    assert |a| == |multiset(a)| == |multiset(b)| == |b|;
    assert Histogram(a) == Histogram(b);
  }

  /** Symbols with a zero count contribute nothing: if only symbol x occurs, the sum is its single term. */
  lemma {:induction false} PartialSumSingle(h: seq<nat>, size: nat, plog: PLog, x: nat, k: nat)
    requires size > 0 && x < |h| && k <= |h|
    requires forall v :: 0 <= v < |h| && v != x ==> h[v] == 0
    ensures PartialSum(h, size, plog, k) == if x < k then Term(h[x], size, plog) else 0.0
  {
    if k > 0 {
      PartialSumSingle(h, size, plog, x, k - 1);
    }
  }

  /** The sum of the terms is non-negative, since every count is at most the size. */
  lemma {:induction false} PartialSumNonNegative(h: seq<nat>, size: nat, plog: PLog, k: nat)
    requires size > 0 && k <= |h|
    requires forall v :: 0 <= v < |h| ==> h[v] <= size
    ensures PartialSum(h, size, plog, k) >= 0.0
  {
    if k > 0 {
      PartialSumNonNegative(h, size, plog, k - 1);
      RatioBounds(h[k - 1], size);
    }
  }

  /** A count of at most the size gives a ratio in [0, 1]. */
  lemma RatioBounds(count: nat, size: nat)
    requires 0 < size && count <= size
    ensures 0.0 <= count as real / size as real <= 1.0
  {
    var px := count as real / size as real;
    assert px * size as real == count as real;
  }

  /** When entropy is computed it is never negative; in particular it is never the sentinel -1. */
  lemma EntropyNonNegative(fs: FileSystem, path: string, plog: PLog)
    requires EntropyOf(fs, path, plog).Ok?
    ensures EntropyOf(fs, path, plog).value >= 0.0
  {
    var c := fs[path].content;
    if |c| > 0 {
      forall v | 0 <= v < 256 ensures Histogram(c)[v] <= |c| {
        CountBound(c, v as byte);
      }
      PartialSumNonNegative(Histogram(c), |c|, plog, 256);
    }
  }

  /** A non-empty file made of one repeated byte value has entropy 0. */
  lemma SingleValueEntropy(fs: FileSystem, path: string, plog: PLog, x: byte)
    requires path != "" && path in fs && fs[path].regular
    requires 0 < |fs[path].content| <= MaxFileSize
    requires forall i :: 0 <= i < |fs[path].content| ==> fs[path].content[i] == x
    ensures EntropyOf(fs, path, plog) == Ok(0.0)
  {
    var c := fs[path].content;
    var h := Histogram(c);
    forall v | 0 <= v < 256 && v != x as int ensures h[v] == 0 {
      CountIsMultiplicity(c, v as byte);
      assert v as byte !in multiset(c);
    }
    HistogramTotal(c);
    PartialSumSingle(h, |c|, plog, x as int, 256);
    ZeroTotalExcept(h, x as int);
    assert h[x as int] == |c|;
    RatioOfWhole(|c|);
    assert Term(h[x as int], |c|, plog) == plog(1.0);
  }

  lemma RatioOfWhole(n: nat)
    requires n > 0
    ensures n as real / n as real == 1.0
  {
  }

  /** If every entry but one is 0, the total is that entry. */
  lemma {:induction false} ZeroTotalExcept(h: seq<nat>, x: nat)
    requires x < |h|
    requires forall v :: 0 <= v < |h| && v != x ==> h[v] == 0
    ensures Total(h) == h[x]
  {
    if |h| - 1 == x {
      ZeroTotal(h[..|h| - 1]);
    } else {
      ZeroTotalExcept(h[..|h| - 1], x);
    }
  }

  // ---------------------------------------------------------------------------------------------
  // Digests

  datatype Algorithm = MD5 | SHA1 | SHA256 | SHA512

  /** Digest sizes in bytes: 128, 160, 256 and 512 bits. */
  function DigestLength(a: Algorithm): nat {
    match a
    case MD5 => 16
    case SHA1 => 20
    case SHA256 => 32
    case SHA512 => 64
  }

  /**
   * The four hash algorithms of Go's `crypto` packages, left abstract: any function whose
   * output has the algorithm's digest length.
   */
  type Digester = d: (Algorithm, seq<byte>) -> seq<byte> | forall a, c :: |d(a, c)| == DigestLength(a)
    witness (a: Algorithm, c: seq<byte>) => seq(DigestLength(a), _ => 0 as byte)

  /** The guard sequence shared by the four hash functions, then the hex encoding of the digest. */
  function Hash(fs: FileSystem, path: string, alg: Algorithm, digest: Digester): (r: Result<string>)
    ensures r.Err? <==>
      path == "" || path !in fs || !fs[path].regular || |fs[path].content| > MaxFileSize
    ensures r.Ok? ==> (r.value == "" <==> |fs[path].content| == 0)
    ensures r.Ok? && r.value != "" ==> |r.value| == 2 * DigestLength(alg)
    ensures r.Ok? ==> forall i :: 0 <= i < |r.value| ==> Hex.IsLowerHexDigit(r.value[i])
  {
    if path == "" then Err(EmptyPath)
    else if path !in fs then Err(OpenFailed(path))
    else if !fs[path].regular then Err(NotRegular(path))
    else if |fs[path].content| == 0 then Ok("")
    else if |fs[path].content| > MaxFileSize then Err(TooLarge(|fs[path].content|))
    else Ok(Hex.Encode(digest(alg, fs[path].content)))
  }

  /** `HashMD5`: "" for an empty file, else 32 lowercase hex digits. */
  function HashMD5(fs: FileSystem, path: string, digest: Digester): (r: Result<string>)
    ensures r.Ok? ==> path in fs && (|fs[path].content| > 0 ==> |r.value| == 32)
  {
    Hash(fs, path, MD5, digest)
  }

  /** `HashSHA1`: "" for an empty file, else 40 lowercase hex digits. */
  function HashSHA1(fs: FileSystem, path: string, digest: Digester): (r: Result<string>)
    ensures r.Ok? ==> path in fs && (|fs[path].content| > 0 ==> |r.value| == 40)
  {
    Hash(fs, path, SHA1, digest)
  }

  /** `HashSHA256`: "" for an empty file, else 64 lowercase hex digits. */
  function HashSHA256(fs: FileSystem, path: string, digest: Digester): (r: Result<string>)
    ensures r.Ok? ==> path in fs && (|fs[path].content| > 0 ==> |r.value| == 64)
  {
    Hash(fs, path, SHA256, digest)
  }

  /** `HashSHA512`: "" for an empty file, else 128 lowercase hex digits. */
  function HashSHA512(fs: FileSystem, path: string, digest: Digester): (r: Result<string>)
    ensures r.Ok? ==> path in fs && (|fs[path].content| > 0 ==> |r.value| == 128)
  {
    Hash(fs, path, SHA512, digest)
  }

  /** A successful non-empty hash string decodes back to the digest of the whole content. */
  lemma HashDecodes(fs: FileSystem, path: string, alg: Algorithm, digest: Digester)
    requires Hash(fs, path, alg, digest).Ok? && |fs[path].content| > 0
    ensures Hex.Decode(Hash(fs, path, alg, digest).value) == Ok(digest(alg, fs[path].content))
  {
    Hex.DecodeEncode(digest(alg, fs[path].content));
  }

  /**
   * The digests and the entropy share one guard sequence: they fail on the same files with the
   * same error, and on an empty file both succeed trivially ("" and 0).
   */
  lemma SameGuards(fs: FileSystem, path: string, alg: Algorithm, digest: Digester, plog: PLog)
    ensures Hash(fs, path, alg, digest).Err? <==> EntropyOf(fs, path, plog).Err?
    ensures Hash(fs, path, alg, digest).Err? ==>
      Hash(fs, path, alg, digest).error == EntropyOf(fs, path, plog).error
    ensures Hash(fs, path, alg, digest) == Ok("") <==>
      EntropyOf(fs, path, plog).Ok? && |fs[path].content| == 0
  {
  }

  /** An empty path fails every entry point with its own error, whatever the file system holds at "". */
  lemma EmptyPathRejected(fs: FileSystem, alg: Algorithm, digest: Digester, plog: PLog)
    ensures IsElfType(fs, "") == Err(EmptyPath)
    ensures EntropyOf(fs, "", plog) == Err(EmptyPath)
    ensures Hash(fs, "", alg, digest) == Err(EmptyPath)
  {
  }

  /**
   * The entropy guards in order: non-regular is an error, size 0 gives 0, a size above 2 GiB is
   * an error, and exactly 2 GiB is accepted since the comparison is strict.
   */
  lemma EntropyGuards(fs: FileSystem, path: string, plog: PLog)
    requires path != "" && path in fs
    ensures !fs[path].regular ==> EntropyOf(fs, path, plog) == Err(NotRegular(path))
    ensures fs[path].regular && |fs[path].content| == 0 ==> EntropyOf(fs, path, plog) == Ok(0.0)
    ensures fs[path].regular && |fs[path].content| > MaxFileSize ==>
      EntropyOf(fs, path, plog) == Err(TooLarge(|fs[path].content|))
    ensures fs[path].regular && |fs[path].content| == MaxFileSize ==> EntropyOf(fs, path, plog).Ok?
  {
  }
}
