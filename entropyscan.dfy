/**
 * The scanner's driver: the classification of one path (`checkFilePath`), the PID-busting
 * candidate list (`genPIDExePaths`) and the scan loops of `main` with their display filter.
 */
module EntropyScan {
  import opened Base
  import Decimal
  import Paths
  import opened FileUtils

  /** The process file system root. */
  const ProcDir: string := "/proc"
  /** The PID range brute-forced by a process scan: [MinPID, MaxPID), 2^22 being the 64-bit Linux limit. */
  const MinPID: nat := 1
  const MaxPID: nat := 4194304

  /** The entropy a record carries when entropy was not computed. */
  const NotComputed: real := -1.0

  datatype Hashes = Hashes(md5: string, sha1: string, sha256: string, sha512: string)

  const NoHashes: Hashes := Hashes("", "", "", "")

  /** The record `checkFilePath` fills for one path (the source's `fileData`). */
  datatype FileData = FileData(path: string, name: string, entropy: real, elf: bool, hash: Hashes)

  /**
   * The outcome of `checkFilePath`: a record; the error `IsElfType` returned (with a zero
   * record); or an abort through `log.Fatalf` when entropy or a digest fails.
   */
  datatype CheckResult = Checked(info: FileData) | Rejected(err: Error) | Aborted(err: Error)

  /** The file-reading operations of a classification, in the order performed. */
  datatype Step = CheckElf | ComputeEntropy | ComputeHash(alg: Algorithm)

  datatype Classification = Classification(result: CheckResult, trace: seq<Step>)

  // ---------------------------------------------------------------------------------------------
  // Classification of one path

  /** Whether the policy asks for entropy: the path is readable, and it is an ELF file or all files are wanted. */
  predicate EntropyWanted(fs: FileSystem, path: string, elfOnly: bool) {
    IsElfType(fs, path).Ok? && (!elfOnly || IsElfType(fs, path).value)
  }

  /**
   * The four digests in the source's order, with the steps taken. The four share one guard
   * sequence on the same file, so once MD5 has passed its guards the other three cannot fail.
   */
  function HashAll(fs: FileSystem, path: string, digest: Digester): (Result<Hashes>, seq<Step>)
  {
    var md5 := HashMD5(fs, path, digest);
    if md5.Err? then (Err(md5.error), [ComputeHash(MD5)])
    else
      var sha1, sha256, sha512 := HashSHA1(fs, path, digest), HashSHA256(fs, path, digest), HashSHA512(fs, path, digest);
      (Ok(Hashes(md5.value, sha1.value, sha256.value, sha512.value)), AllHashSteps)
  }

  const AllHashSteps: seq<Step> := [ComputeHash(MD5), ComputeHash(SHA1), ComputeHash(SHA256), ComputeHash(SHA512)]

  /** The hash gate: digests only when the entropy reaches the threshold (inclusive). */
  function HashGate(fs: FileSystem, info: FileData, threshold: real, digest: Digester, trace: seq<Step>): Classification
  {
    if info.entropy >= threshold then
      var (h, steps) := HashAll(fs, info.path, digest);
      if h.Err? then Classification(Aborted(h.error), trace + steps)
      else Classification(Checked(info.(hash := h.value)), trace + steps)
    else Classification(Checked(info), trace)
  }

  /**
   * The first two stages of `checkFilePath`: the ELF check, then entropy unless only ELF files
   * are wanted and this is not one. The result is the record so far, or the outcome that ends
   * the classification before the hash gate.
   */
  function Measure(fs: FileSystem, path: string, elfOnly: bool, plog: PLog): Classification
  {
    match IsElfType(fs, path)
    case Err(e) => Classification(Rejected(e), [CheckElf])
    case Ok(isElf) =>
      var info := FileData(path, Paths.Base(path), NotComputed, isElf, NoHashes);
      if elfOnly && !isElf then Classification(Checked(info), [CheckElf])
      else
        match EntropyOf(fs, path, plog)
        case Err(e) => Classification(Aborted(e), [CheckElf, ComputeEntropy])
        case Ok(entropy) => Classification(Checked(info.(entropy := entropy)), [CheckElf, ComputeEntropy])
  }

  /** What `checkFilePath` does: the first two stages, then the hash gate. */
  function Classify(fs: FileSystem, path: string, elfOnly: bool, threshold: real, plog: PLog, digest: Digester): Classification
  {
    var m := Measure(fs, path, elfOnly, plog);
    if m.result.Checked? then HashGate(fs, m.result.info, threshold, digest, m.trace) else m
  }

  /**
   * The four digest calls of `checkFilePath` (sandfly-entropyscan.go lines 238-257), each aborting on its error. The
   * three further hash functions repeat the guards MD5 has just passed on the same file, so
   * their error branches cannot be taken.
   */
  method HashFile(fs: FileSystem, filePath: string, digest: Digester) returns (hashes: Result<Hashes>, ghost steps: seq<Step>)
    ensures hashes == HashAll(fs, filePath, digest).0
    ensures steps == HashAll(fs, filePath, digest).1
  {
    var md5 := HashMD5(fs, filePath, digest);
    steps := [ComputeHash(MD5)];
    if md5.Err? {
      return Err(md5.error), steps;
    }
    var sha1 := HashSHA1(fs, filePath, digest);
    var sha256 := HashSHA256(fs, filePath, digest);
    var sha512 := HashSHA512(fs, filePath, digest);
    steps := steps + [ComputeHash(SHA1), ComputeHash(SHA256), ComputeHash(SHA512)];
    assert steps == AllHashSteps;
    return Ok(Hashes(md5.value, sha1.value, sha256.value, sha512.value)), steps;
  }

  /**
   * The first two stages of `checkFilePath` (sandfly-entropyscan.go lines 209-235): the ELF check, the name, the
   * entropy sentinel, and entropy in either of two mutually exclusive branches.
   */
  method MeasureFile(fs: FileSystem, filePath: string, elfOnly: bool, plog: PLog)
    returns (out: CheckResult, ghost steps: seq<Step>)
    ensures out == Measure(fs, filePath, elfOnly, plog).result
    ensures steps == Measure(fs, filePath, elfOnly, plog).trace
    ensures out.Checked? ==> out.info.path == filePath && out.info.hash == NoHashes
  {
    steps := [CheckElf];
    var isElfType := IsElfType(fs, filePath);
    if isElfType.Err? {
      return Rejected(isElfType.error), steps;
    }
    var (_, fileName) := Paths.Split(filePath);
    var fileInfo := FileData(filePath, fileName, NotComputed, isElfType.value, NoHashes);

    if elfOnly && isElfType.value {
      var entropy := Entropy(fs, filePath, plog);
      steps := steps + [ComputeEntropy];
      if entropy.Err? {
        return Aborted(entropy.error), steps;
      }
      fileInfo := fileInfo.(entropy := entropy.value);
    }
    if !elfOnly {
      var entropy := Entropy(fs, filePath, plog);
      steps := steps + [ComputeEntropy];
      if entropy.Err? {
        return Aborted(entropy.error), steps;
      }
      fileInfo := fileInfo.(entropy := entropy.value);
    }
    return Checked(fileInfo), steps;
  }

  /**
   * `checkFilePath`: the first two stages fill the record, overwriting the entropy sentinel
   * when entropy is wanted; the hash gate then fills the empty digests when the entropy
   * reaches the threshold. The ghost `steps` records the file-reading calls made.
   */
  method CheckFilePath(fs: FileSystem, filePath: string, elfOnly: bool, entropyMaxVal: real, plog: PLog, digest: Digester)
    returns (out: CheckResult, ghost steps: seq<Step>)
    ensures out == Classify(fs, filePath, elfOnly, entropyMaxVal, plog, digest).result
    ensures steps == Classify(fs, filePath, elfOnly, entropyMaxVal, plog, digest).trace
  {
    var measured;
    measured, steps := MeasureFile(fs, filePath, elfOnly, plog);
    if !measured.Checked? {
      return measured, steps;
    }
    out, steps := GateFile(fs, filePath, measured.info, entropyMaxVal, digest, steps);
  }

  /**
   * The hash gate of `checkFilePath` (sandfly-entropyscan.go lines 237-258): the digests of the file at or above the
   * threshold, the record unchanged below it.
   */
  method GateFile(fs: FileSystem, filePath: string, fileInfo: FileData, entropyMaxVal: real, digest: Digester, ghost trace: seq<Step>)
    returns (out: CheckResult, ghost steps: seq<Step>)
    requires fileInfo.path == filePath
    ensures out == HashGate(fs, fileInfo, entropyMaxVal, digest, trace).result
    ensures steps == HashGate(fs, fileInfo, entropyMaxVal, digest, trace).trace
  {
    steps := trace;
    var info := fileInfo;
    if info.entropy >= entropyMaxVal {
      var hashes, hashSteps := HashFile(fs, filePath, digest);
      steps := steps + hashSteps;
      if hashes.Err? {
        return Aborted(hashes.error), steps;
      }
      info := info.(hash := hashes.value);
    }
    return Checked(info), steps;
  }

  /** `checkFilePath` fails exactly when `IsElfType` fails, with its error, having read nothing else. */
  lemma ClassifyRejected(fs: FileSystem, path: string, elfOnly: bool, threshold: real, plog: PLog, digest: Digester)
    ensures var c := Classify(fs, path, elfOnly, threshold, plog, digest);
      (c.result.Rejected? <==> path == "" || path !in fs)
      && (c.result.Rejected? ==> c.result.err == IsElfType(fs, path).error && c.trace == [CheckElf])
  {
    IsElfTypeExact(fs, path);
  }

  /** A record names its path unchanged, the final component of the path, and whether the file is ELF. */
  lemma ClassifyRecord(fs: FileSystem, path: string, elfOnly: bool, threshold: real, plog: PLog, digest: Digester)
    requires Classify(fs, path, elfOnly, threshold, plog, digest).result.Checked?
    ensures var info := Classify(fs, path, elfOnly, threshold, plog, digest).result.info;
      && path in fs
      && info.path == path
      && info.name == Paths.Base(path) && Paths.NoSlash(info.name)
      && info.elf == HasElfMagic(fs[path])
  {
    IsElfTypeExact(fs, path);
  }

  /**
   * Entropy is computed once when the policy wants it and never otherwise: the two branches that
   * compute it are mutually exclusive. The ELF check comes first and is made once.
   */
  lemma EntropyComputedOnce(fs: FileSystem, path: string, elfOnly: bool, threshold: real, plog: PLog, digest: Digester)
    ensures var t := Classify(fs, path, elfOnly, threshold, plog, digest).trace;
      && t[0] == CheckElf && CheckElf !in t[1..]
      && (EntropyWanted(fs, path, elfOnly) ==> |t| >= 2 && t[1] == ComputeEntropy && ComputeEntropy !in t[2..])
      && (!EntropyWanted(fs, path, elfOnly) ==> ComputeEntropy !in t)
  {
    TraceShape(fs, path, elfOnly, threshold, plog, digest);
    StepsOnce(Classify(fs, path, elfOnly, threshold, plog, digest).trace, Measure(fs, path, elfOnly, plog).trace);
  }

  /** In each possible trace, the ELF check is first and alone, and entropy, when present, is second and alone. */
  lemma StepsOnce(t: seq<Step>, m: seq<Step>)
    requires m == [CheckElf] || m == [CheckElf, ComputeEntropy]
    requires t == m || t == m + [ComputeHash(MD5)] || t == m + AllHashSteps
    ensures t[0] == CheckElf && CheckElf !in t[1..]
    ensures m == [CheckElf, ComputeEntropy] ==> |t| >= 2 && t[1] == ComputeEntropy && ComputeEntropy !in t[2..]
    ensures m == [CheckElf] ==> ComputeEntropy !in t
  {
    var hashSteps := t[|m|..];
    assert t == m + hashSteps;
    assert CheckElf !in hashSteps && ComputeEntropy !in hashSteps;
    assert t[1..] == m[1..] + hashSteps;
    if |m| == 2 {
      assert t[2..] == hashSteps;
    }
  }

  /** The calls of a classification: one or two for the first stages, then none, MD5 alone, or all four digests. */
  lemma TraceShape(fs: FileSystem, path: string, elfOnly: bool, threshold: real, plog: PLog, digest: Digester)
    ensures var m := Measure(fs, path, elfOnly, plog).trace;
      && (EntropyWanted(fs, path, elfOnly) ==> m == [CheckElf, ComputeEntropy])
      && (!EntropyWanted(fs, path, elfOnly) ==> m == [CheckElf])
    ensures var t := Classify(fs, path, elfOnly, threshold, plog, digest).trace;
      var m := Measure(fs, path, elfOnly, plog).trace;
      t == m || t == m + [ComputeHash(MD5)] || t == m + AllHashSteps
  {
  }

  /** The entropy of a record is the sentinel -1 exactly when only ELF files are wanted and this is not one. */
  lemma SentinelExactly(fs: FileSystem, path: string, elfOnly: bool, threshold: real, plog: PLog, digest: Digester)
    requires Classify(fs, path, elfOnly, threshold, plog, digest).result.Checked?
    ensures var info := Classify(fs, path, elfOnly, threshold, plog, digest).result.info;
      (info.entropy == NotComputed <==> elfOnly && !info.elf)
      && (!(elfOnly && !info.elf) ==> info.entropy == EntropyOf(fs, path, plog).value && info.entropy >= 0.0)
  {
    if EntropyWanted(fs, path, elfOnly) {
      EntropyNonNegative(fs, path, plog);
    }
  }

  /**
   * The hash gate: a record has all four digests exactly when its entropy is at least the
   * threshold (equality included), and none otherwise; the digest calls happen only then.
   */
  lemma HashGateExact(fs: FileSystem, path: string, elfOnly: bool, threshold: real, plog: PLog, digest: Digester)
    requires Classify(fs, path, elfOnly, threshold, plog, digest).result.Checked?
    ensures var c := Classify(fs, path, elfOnly, threshold, plog, digest);
      var info := c.result.info;
      && (info.entropy >= threshold ==> HashAll(fs, path, digest).0 == Ok(info.hash))
      && (info.entropy < threshold ==> info.hash == NoHashes)
      && (ComputeHash(MD5) in c.trace <==> info.entropy >= threshold)
  {
    var m := Measure(fs, path, elfOnly, plog);
    MeasureChecked(fs, path, elfOnly, plog);
    HashGateOf(fs, m.result.info, threshold, digest, m.trace);
  }

  /** A record the first two stages produce carries the path given and no digests, and no digest call has been made. */
  lemma MeasureChecked(fs: FileSystem, path: string, elfOnly: bool, plog: PLog)
    ensures var m := Measure(fs, path, elfOnly, plog);
      && ComputeHash(MD5) !in m.trace
      && (m.result.Checked? ==> m.result.info.path == path && m.result.info.hash == NoHashes)
  {
  }

  /** The gate on its own: it adds the digests and their four calls exactly at or above the threshold. */
  lemma HashGateOf(fs: FileSystem, info: FileData, threshold: real, digest: Digester, trace: seq<Step>)
    requires ComputeHash(MD5) !in trace
    requires HashGate(fs, info, threshold, digest, trace).result.Checked?
    ensures var c := HashGate(fs, info, threshold, digest, trace);
      && c.result.info == info.(hash := c.result.info.hash)
      && (info.entropy >= threshold ==> HashAll(fs, info.path, digest).0 == Ok(c.result.info.hash))
      && (info.entropy < threshold ==> c.result.info == info)
      && (ComputeHash(MD5) in c.trace <==> info.entropy >= threshold)
  {
    if info.entropy >= threshold {
      assert HashGate(fs, info, threshold, digest, trace).trace == trace + AllHashSteps;
      assert (trace + AllHashSteps)[|trace|] == ComputeHash(MD5);
    }
  }

  /** When hashed, each digest is "" for an empty file and otherwise has its full hexadecimal length. */
  lemma HashedRecordShape(fs: FileSystem, path: string, digest: Digester)
    requires HashAll(fs, path, digest).0.Ok?
    ensures var h := HashAll(fs, path, digest).0.value;
      && (|fs[path].content| == 0 ==> h == NoHashes)
      && (|fs[path].content| > 0 ==>
            |h.md5| == 32 && |h.sha1| == 40 && |h.sha256| == 64 && |h.sha512| == 128)
  {
  }

  /**
   * With a threshold in [0, 8], a non-ELF file under the ELF-only policy is skipped after the
   * signature read alone: sentinel entropy, no digests, nothing else read.
   */
  lemma ElfOnlySkip(fs: FileSystem, path: string, threshold: real, plog: PLog, digest: Digester)
    requires threshold >= 0.0
    requires IsElfType(fs, path) == Ok(false)
    ensures Classify(fs, path, true, threshold, plog, digest) ==
      Classification(Checked(FileData(path, Paths.Base(path), NotComputed, false, NoHashes)), [CheckElf])
  {
  }

  /**
   * With a threshold in [0, 8] the digests never fail once the guards have been passed: a
   * classification aborts exactly when the entropy it wants fails, with the entropy's error.
   */
  lemma AbortsExactlyOnEntropyFailure(fs: FileSystem, path: string, elfOnly: bool, threshold: real, plog: PLog, digest: Digester)
    requires threshold >= 0.0
    ensures var c := Classify(fs, path, elfOnly, threshold, plog, digest);
      (c.result.Aborted? <==> EntropyWanted(fs, path, elfOnly) && EntropyOf(fs, path, plog).Err?)
      && (c.result.Aborted? ==> c.result.err == EntropyOf(fs, path, plog).error)
  {
    if EntropyWanted(fs, path, elfOnly) && EntropyOf(fs, path, plog).Ok? {
      SameGuards(fs, path, MD5, digest, plog);
      SameGuards(fs, path, SHA1, digest, plog);
      SameGuards(fs, path, SHA256, digest, plog);
      SameGuards(fs, path, SHA512, digest, plog);
    }
  }

  // ---------------------------------------------------------------------------------------------
  // PID busting

  /** `path.Join(constProcDir, strconv.Itoa(pid), "/exe")`; for a digit string, cleaning only drops the doubled '/'. */
  function ProcExePath(pid: nat): string {
    ProcDir + "/" + Decimal.Itoa(pid) + "/exe"
  }

  /** The PID a candidate path names, when it has the form "/proc/<digits>/exe". */
  function ProcPid(p: string): Option<nat> {
    if |p| > 10 && p[..6] == "/proc/" && p[|p| - 4..] == "/exe" && Decimal.AllDigits(p[6..|p| - 4])
    then Some(Decimal.Value(p[6..|p| - 4]))
    else None
  }

  /** Every candidate path names its own PID back. */
  lemma ProcPidOfProcExePath(pid: nat)
    ensures ProcPid(ProcExePath(pid)) == Some(pid)
  {
    var d := Decimal.Itoa(pid);
    var p := ProcExePath(pid);
    assert p == "/proc/" + d + "/exe";
    assert p[..6] == "/proc/" && p[|p| - 4..] == "/exe" && p[6..|p| - 4] == d;
    Decimal.ValueOfItoa(pid);
  }

  /** The file name of every candidate is "exe". */
  lemma ProcExeBase(pid: nat)
    ensures Paths.Base(ProcExePath(pid)) == "exe"
  {
    var dir := ProcDir + "/" + Decimal.Itoa(pid) + "/";
    assert dir + "exe" == ProcExePath(pid);
    Paths.SplitUnique(ProcExePath(pid), dir, "exe");
  }

  /** The candidate list: one path per PID in [MinPID, MaxPID), in increasing order. */
  function PidExePaths(): (ps: seq<string>)
    ensures |ps| == MaxPID - MinPID
  {
    seq(MaxPID - MinPID, i requires 0 <= i < MaxPID - MinPID => ProcExePath(MinPID + i))
  }

  /** `genPIDExePaths`: appends the path of every PID from MinPID up to MaxPID, exclusive. */
  method GenPIDExePaths() returns (pidPaths: seq<string>)
    ensures |pidPaths| == MaxPID - MinPID == 4194303
    ensures forall i :: 0 <= i < |pidPaths| ==> pidPaths[i] == ProcExePath(MinPID + i)
  {
    pidPaths := [];
    var pid := MinPID;
    while pid < MaxPID
      invariant MinPID <= pid <= MaxPID
      invariant |pidPaths| == pid - MinPID
      invariant forall i :: 0 <= i < |pidPaths| ==> pidPaths[i] == ProcExePath(MinPID + i)
    {
      pidPaths := pidPaths + [ProcDir + "/" + Decimal.Itoa(pid) + "/exe"];
      pid := pid + 1;
    }
  }

  /** No two candidates coincide, so no PID is checked twice. */
  lemma PidExePathsDistinct()
    ensures forall i, j :: 0 <= i < j < |PidExePaths()| ==> PidExePaths()[i] != PidExePaths()[j]
  {
    var ps := PidExePaths();
    forall i, j | 0 <= i < j < |ps| ensures ps[i] != ps[j] {
      ProcPidOfProcExePath(MinPID + i);
      ProcPidOfProcExePath(MinPID + j);
    }
  }

  // ---------------------------------------------------------------------------------------------
  // The scan loops of main

  /** What a scan printed, and the error it died with, if any. */
  datatype ScanResult = ScanResult(shown: seq<FileData>, abort: Option<Error>)

  /** One target of a scan: skip or abort on a rejection, abort on an abort, show a record that passes the filter. */
  function ScanStep(prev: ScanResult, c: CheckResult, skipRejected: bool, threshold: real): ScanResult
  {
    match c
    case Rejected(e) => if skipRejected then prev else ScanResult(prev.shown, Some(e))
    case Aborted(e) => ScanResult(prev.shown, Some(e))
    case Checked(info) => if info.entropy >= threshold then ScanResult(prev.shown + [info], None) else prev
  }

  /** The outcome of classifying each target, in order. */
  function Outcomes(fs: FileSystem, targets: seq<string>, elfOnly: bool, threshold: real, plog: PLog, digest: Digester): (cs: seq<CheckResult>)
    ensures |cs| == |targets|
  {
    seq(|targets|, k requires 0 <= k < |targets| => Classify(fs, targets[k], elfOnly, threshold, plog, digest).result)
  }

  /** The loop body run over the outcomes in order, until the first abort. */
  function Fold(cs: seq<CheckResult>, skipRejected: bool, threshold: real): ScanResult
  {
    if cs == [] then ScanResult([], None)
    else
      var prev := Fold(cs[..|cs| - 1], skipRejected, threshold);
      if prev.abort.Some? then prev else ScanStep(prev, cs[|cs| - 1], skipRejected, threshold)
  }

  /** A scan of the targets; `skipRejected` holds for the process scan only. */
  function Sweep(fs: FileSystem, targets: seq<string>, elfOnly: bool, skipRejected: bool, threshold: real, plog: PLog, digest: Digester): ScanResult
  {
    Fold(Outcomes(fs, targets, elfOnly, threshold, plog, digest), skipRejected, threshold)
  }

  /** The outcomes of a prefix of the targets are a prefix of their outcomes. */
  lemma OutcomesPrefix(fs: FileSystem, targets: seq<string>, i: nat, elfOnly: bool, threshold: real, plog: PLog, digest: Digester)
    requires i <= |targets|
    ensures Outcomes(fs, targets[..i], elfOnly, threshold, plog, digest) == Outcomes(fs, targets, elfOnly, threshold, plog, digest)[..i]
  {
  }

  /** One more outcome is one more step of the loop, unless the scan had already aborted. */
  lemma FoldSnoc(cs: seq<CheckResult>, i: nat, skipRejected: bool, threshold: real)
    requires i < |cs|
    ensures var prev := Fold(cs[..i], skipRejected, threshold);
      Fold(cs[..i + 1], skipRejected, threshold) ==
        if prev.abort.Some? then prev else ScanStep(prev, cs[i], skipRejected, threshold)
  {
    assert cs[..i + 1][..i] == cs[..i];
  }

  /** Once a scan has aborted, later outcomes change nothing: the process has exited. */
  lemma {:induction false} FoldAbortStable(cs: seq<CheckResult>, k: nat, skipRejected: bool, threshold: real)
    requires k <= |cs|
    requires Fold(cs[..k], skipRejected, threshold).abort.Some?
    ensures Fold(cs, skipRejected, threshold) == Fold(cs[..k], skipRejected, threshold)
  {
    if k < |cs| {
      var init := cs[..|cs| - 1];
      assert init[..k] == cs[..k];
      FoldAbortStable(init, k, skipRejected, threshold);
    } else {
      assert cs[..k] == cs;
    }
  }

  /** Every record shown passed the display filter and is the record of one of the outcomes. */
  lemma {:induction false} FoldShown(cs: seq<CheckResult>, skipRejected: bool, threshold: real)
    ensures forall info :: info in Fold(cs, skipRejected, threshold).shown ==> info.entropy >= threshold && Checked(info) in cs
  {
    if cs != [] {
      var init, last := cs[..|cs| - 1], cs[|cs| - 1];
      FoldShown(init, skipRejected, threshold);
      assert cs == init + [last];
      var prev := Fold(init, skipRejected, threshold).shown;
      var shown := Fold(cs, skipRejected, threshold).shown;
      assert shown == prev || (last.Checked? && last.info.entropy >= threshold && shown == prev + [last.info]);
    }
  }

  /** A scan dies only of an abort, or of a rejection when rejections are not skipped. */
  lemma {:induction false} FoldAbort(cs: seq<CheckResult>, skipRejected: bool, threshold: real)
    requires Fold(cs, skipRejected, threshold).abort.Some?
    ensures var e := Fold(cs, skipRejected, threshold).abort.value;
      Aborted(e) in cs || (!skipRejected && Rejected(e) in cs)
  {
    var init, last := cs[..|cs| - 1], cs[|cs| - 1];
    assert cs == init + [last];
    if Fold(init, skipRejected, threshold).abort.Some? {
      FoldAbort(init, skipRejected, threshold);
    }
  }

  /** Conversely, without an abort, and without a rejection unless rejections are skipped, the loop never stops. */
  lemma {:induction false} FoldCompletes(cs: seq<CheckResult>, skipRejected: bool, threshold: real)
    requires forall k :: 0 <= k < |cs| ==> !cs[k].Aborted? && (skipRejected || !cs[k].Rejected?)
    ensures Fold(cs, skipRejected, threshold).abort.None?
  {
    if cs != [] {
      var init := cs[..|cs| - 1];
      assert forall k :: 0 <= k < |init| ==> init[k] == cs[k];
      FoldCompletes(init, skipRejected, threshold);
    }
  }

  /** A scan that aborts at the `k`-th target is the scan of the first `k` targets. */
  lemma SweepStops(fs: FileSystem, targets: seq<string>, k: nat, elfOnly: bool, skipRejected: bool, threshold: real, plog: PLog, digest: Digester)
    requires k <= |targets|
    requires Fold(Outcomes(fs, targets, elfOnly, threshold, plog, digest)[..k], skipRejected, threshold).abort.Some?
    ensures Sweep(fs, targets, elfOnly, skipRejected, threshold, plog, digest) == Sweep(fs, targets[..k], elfOnly, skipRejected, threshold, plog, digest)
    ensures Sweep(fs, targets, elfOnly, skipRejected, threshold, plog, digest) == Fold(Outcomes(fs, targets, elfOnly, threshold, plog, digest)[..k], skipRejected, threshold)
  {
    FoldAbortStable(Outcomes(fs, targets, elfOnly, threshold, plog, digest), k, skipRejected, threshold);
    OutcomesPrefix(fs, targets, k, elfOnly, threshold, plog, digest);
  }

  /** Checks the `i`-th target: its outcome. */
  method CheckTarget(fs: FileSystem, targets: seq<string>, i: nat, elfOnly: bool, threshold: real, plog: PLog, digest: Digester)
    returns (c: CheckResult)
    requires i < |targets|
    ensures c == Outcomes(fs, targets, elfOnly, threshold, plog, digest)[i]
  {
    ghost var steps;
    c, steps := CheckFilePath(fs, targets[i], elfOnly, threshold, plog, digest);
  }

  /**
   * The loop shared by the three modes of `main`: each target classified once and in order, a
   * record shown when its entropy reaches the threshold; the ghost `visited` lists the targets checked.
   */
  method Scan(fs: FileSystem, targets: seq<string>, elfOnly: bool, skipRejected: bool, threshold: real, plog: PLog, digest: Digester)
    returns (r: ScanResult, ghost visited: seq<string>)
    ensures r == Sweep(fs, targets, elfOnly, skipRejected, threshold, plog, digest)
    ensures visited <= targets && r == Sweep(fs, visited, elfOnly, skipRejected, threshold, plog, digest)
    ensures r.abort.None? ==> visited == targets
  {
    ghost var cs := Outcomes(fs, targets, elfOnly, threshold, plog, digest);
    var shown: seq<FileData> := [];
    visited := [];
    var i := 0;
    while i < |targets|
      invariant 0 <= i <= |targets|
      invariant visited == targets[..i]
      invariant Fold(cs[..i], skipRejected, threshold) == ScanResult(shown, None)
    {
      var fileInfo := CheckTarget(fs, targets, i, elfOnly, threshold, plog, digest);
      assert targets[..i + 1] == targets[..i] + [targets[i]];
      visited := visited + [targets[i]];
      FoldSnoc(cs, i, skipRejected, threshold);
      var next := ScanStep(ScanResult(shown, None), fileInfo, skipRejected, threshold);
      if next.abort.Some? {
        SweepStops(fs, targets, i + 1, elfOnly, skipRejected, threshold, plog, digest);
        return next, visited;
      }
      shown := next.shown;
      i := i + 1;
    }
    assert cs[..i] == cs && targets[..i] == targets;
    r := ScanResult(shown, None);
  }

  /** The check of the -entropy flag that precedes every mode: it must lie in [0, 8]. */
  function ThresholdError(entropyMaxVal: real): (r: Option<Error>)
    ensures r.None? <==> 0.0 <= entropyMaxVal <= 8.0
  {
    if entropyMaxVal > 8.0 then Some(ThresholdTooHigh)
    else if entropyMaxVal < 0.0 then Some(ThresholdTooLow)
    else None
  }

  /** The -proc mode: every PID candidate is checked as an ELF-only target, and a path that cannot be checked is skipped. */
  method ProcScan(fs: FileSystem, entropyMaxVal: real, plog: PLog, digest: Digester)
    returns (r: ScanResult, ghost visited: seq<string>)
    ensures ThresholdError(entropyMaxVal).Some? ==> r == ScanResult([], ThresholdError(entropyMaxVal)) && visited == []
    ensures ThresholdError(entropyMaxVal).None? ==> r == Sweep(fs, PidExePaths(), true, true, entropyMaxVal, plog, digest)
    ensures ThresholdError(entropyMaxVal).None? && r.abort.None? ==> visited == PidExePaths()
  {
    var bad := ThresholdError(entropyMaxVal);
    if bad.Some? {
      return ScanResult([], bad), [];
    }
    var pidPaths := GenPIDExePaths();
    assert pidPaths == PidExePaths();
    r, visited := Scan(fs, pidPaths, true, true, entropyMaxVal, plog, digest);
  }

  /** The -file mode: one target; any failure to check it aborts. */
  method FileScan(fs: FileSystem, filePath: string, elfOnly: bool, entropyMaxVal: real, plog: PLog, digest: Digester)
    returns (r: ScanResult)
    requires filePath != ""
    ensures ThresholdError(entropyMaxVal).Some? ==> r == ScanResult([], ThresholdError(entropyMaxVal))
    ensures ThresholdError(entropyMaxVal).None? ==> r == Sweep(fs, [filePath], elfOnly, false, entropyMaxVal, plog, digest)
  {
    var bad := ThresholdError(entropyMaxVal);
    if bad.Some? {
      return ScanResult([], bad);
    }
    ghost var visited;
    r, visited := Scan(fs, [filePath], elfOnly, false, entropyMaxVal, plog, digest);
  }

  /** The -dir mode, given the regular files the directory walk delivers in walk order; any failure aborts. */
  method DirScan(fs: FileSystem, walked: seq<string>, elfOnly: bool, entropyMaxVal: real, plog: PLog, digest: Digester)
    returns (r: ScanResult)
    ensures ThresholdError(entropyMaxVal).Some? ==> r == ScanResult([], ThresholdError(entropyMaxVal))
    ensures ThresholdError(entropyMaxVal).None? ==> r == Sweep(fs, walked, elfOnly, false, entropyMaxVal, plog, digest)
  {
    var bad := ThresholdError(entropyMaxVal);
    if bad.Some? {
      return ScanResult([], bad);
    }
    ghost var visited;
    r, visited := Scan(fs, walked, elfOnly, false, entropyMaxVal, plog, digest);
  }

  /** What a shown record satisfies: it passed the filter, carries its file's digests and is a target's record. */
  predicate ShownRecord(fs: FileSystem, info: FileData, targets: seq<string>, elfOnly: bool, threshold: real, plog: PLog, digest: Digester) {
    && info.entropy >= threshold
    && HashAll(fs, info.path, digest).0 == Ok(info.hash)
    && info.path in targets
    && Classify(fs, info.path, elfOnly, threshold, plog, digest).result == Checked(info)
  }

  /**
   * The display filter is the hash gate's test: every record a scan shows reached the threshold,
   * carries the digests of its file, and is the record of one of the targets.
   */
  lemma ShownWereHashed(fs: FileSystem, targets: seq<string>, elfOnly: bool, skipRejected: bool, threshold: real, plog: PLog, digest: Digester)
    ensures forall info :: info in Sweep(fs, targets, elfOnly, skipRejected, threshold, plog, digest).shown ==>
      ShownRecord(fs, info, targets, elfOnly, threshold, plog, digest)
  {
    var cs := Outcomes(fs, targets, elfOnly, threshold, plog, digest);
    FoldShown(cs, skipRejected, threshold);
    forall info | info in Sweep(fs, targets, elfOnly, skipRejected, threshold, plog, digest).shown
      ensures ShownRecord(fs, info, targets, elfOnly, threshold, plog, digest)
    {
      var k :| 0 <= k < |cs| && cs[k] == Checked(info);
      ClassifyRecord(fs, targets[k], elfOnly, threshold, plog, digest);
      HashGateExact(fs, targets[k], elfOnly, threshold, plog, digest);
    }
  }

  /**
   * A scan with `elfOnly` and a valid threshold, in any mode, shows only records of ELF files with
   * computed, non-negative entropy: a non-ELF target's sentinel never passes the filter.
   */
  lemma ElfOnlyShowsOnlyElf(fs: FileSystem, targets: seq<string>, skipRejected: bool, threshold: real, plog: PLog, digest: Digester)
    requires threshold >= 0.0
    ensures forall info :: info in Sweep(fs, targets, true, skipRejected, threshold, plog, digest).shown ==>
      info.elf && info.path in fs && HasElfMagic(fs[info.path]) && info.entropy >= 0.0
  {
    var shown := Sweep(fs, targets, true, skipRejected, threshold, plog, digest).shown;
    ShownWereHashed(fs, targets, true, skipRejected, threshold, plog, digest);
    forall info | info in shown
      ensures info.elf && info.path in fs && HasElfMagic(fs[info.path]) && info.entropy >= 0.0
    {
      assert ShownRecord(fs, info, targets, true, threshold, plog, digest);
      ClassifyRecord(fs, info.path, true, threshold, plog, digest);
      SentinelExactly(fs, info.path, true, threshold, plog, digest);
    }
  }

  /** An ELF image the entropy pass refuses: above the 2 GiB ceiling. */
  predicate OversizedElf(fs: FileSystem, p: string) {
    p in fs && HasElfMagic(fs[p]) && |fs[p].content| > MaxFileSize
  }

  /**
   * A process scan with a valid threshold skips every candidate that cannot be opened; the only
   * thing that stops it is an ELF image above the 2 GiB ceiling, and it dies with that image's size.
   */
  lemma ProcScanAbortsOnlyOnOversizedElf(fs: FileSystem, targets: seq<string>, threshold: real, plog: PLog, digest: Digester)
    requires threshold >= 0.0
    requires Sweep(fs, targets, true, true, threshold, plog, digest).abort.Some?
    ensures var e := Sweep(fs, targets, true, true, threshold, plog, digest).abort.value;
      exists k :: 0 <= k < |targets| && OversizedElf(fs, targets[k]) && e == TooLarge(|fs[targets[k]].content|)
  {
    var cs := Outcomes(fs, targets, true, threshold, plog, digest);
    FoldAbort(cs, true, threshold);
    var e := Fold(cs, true, threshold).abort.value;
    var k :| 0 <= k < |cs| && cs[k] == Aborted(e);
    AbortsExactlyOnEntropyFailure(fs, targets[k], true, threshold, plog, digest);
    IsElfTypeExact(fs, targets[k]);
    assert OversizedElf(fs, targets[k]);
  }

  /**
   * Conversely, a process scan with a valid threshold and no oversized ELF image among its
   * candidates never stops: every candidate that cannot be checked is skipped.
   */
  lemma ProcScanCompletes(fs: FileSystem, targets: seq<string>, threshold: real, plog: PLog, digest: Digester)
    requires threshold >= 0.0
    requires forall k :: 0 <= k < |targets| ==> !OversizedElf(fs, targets[k])
    ensures Sweep(fs, targets, true, true, threshold, plog, digest).abort.None?
  {
    var cs := Outcomes(fs, targets, true, threshold, plog, digest);
    forall k | 0 <= k < |cs| ensures !cs[k].Aborted? {
      AbortsExactlyOnEntropyFailure(fs, targets[k], true, threshold, plog, digest);
      IsElfTypeExact(fs, targets[k]);
    }
    FoldCompletes(cs, true, threshold);
  }
}
