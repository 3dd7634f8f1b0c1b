# sandfly-entropyscan classification core in Dafny

This project models how sandfly-entropyscan decides what to report about a file. The scanner looks for packed or encrypted Linux executables. It does this by computing the Shannon entropy of a file's bytes and printing the files whose entropy reaches a threshold, together with their MD5, SHA-1, SHA-256 and SHA-512 digests.

The project models these parts, and proves properties about them:

- `fileutils/fileutils.go`:
  - `IsElfType` is a pure function over a file model. The ELF magic is `e_ident[EI_MAG0..EI_MAG3]` = `7F 45 4C 46`, from the "ELF Identification" section of the System V ABI.
  - `Entropy` is an imperative method. It reads the file in chunks through an `OpenFile` handle class and counts bytes into a 256-entry `array`. It is proved equal to the specification function `EntropyOf`.
  - the guard and encoding shell of the four hash functions.
- `sandfly-entropyscan.go`:
  - `checkFilePath` is an imperative method that fills the record field by field. It is proved equal to the specification function `Classify`.
  - `genPIDExePaths` is a loop that appends paths.
  - the scan loops of `main` with their display filter. The `-proc` loop is modelled fully. The `-file` and `-dir` modes are modelled over the targets they deliver.

Modules:

| module | file | contents |
|---|---|---|
| `Base` | `base.dfy` | `byte`, `Option`, `Result` (Go's `(value, error)` pair) and the error kinds |
| `Hex` | `hex.dfy` | Go's `hex.EncodeToString` and `hex.DecodeString` |
| `Decimal` | `decimal.dfy` | `strconv.Itoa` on non-negative values, and its inverse |
| `Paths` | `paths.dfy` | `filepath.Split` on Unix paths |
| `FileUtils` | `fileutils.dfy` | the package `fileutils` |
| `EntropyScan` | `entropyscan.dfy` | `checkFilePath`, `genPIDExePaths`, the scan loops |

The file system is a `map<string, FileEntry>`:

- A path that is not a key cannot be opened.
- A `FileEntry` records whether the path is a regular file, and its bytes. The file's size is the number of bytes.
- An `OpenFile.Read` call returns an unspecified number of bytes: at least one, and at most the buffer length. The histogram is therefore proved for every way the operating system may split the stream into chunks.

Two parts are left abstract, as parameters:

- `PLog` is the summand `-p * log2(p)`. All the model assumes is that it is non-negative on (0, 1] and 0 at 1.
- `Digester` is the hash algorithm. All the model assumes is that it returns 16, 20, 32 or 64 bytes.

The rounding `math.Round(x*100)/100` is modelled exactly on reals, rounding halves away from zero.

Outcomes:

- A `log.Fatalf` call inside `checkFilePath` becomes the outcome `Aborted`.
- An error returned by `IsElfType` becomes `Rejected`.
- A scan ends either normally or with the error that stopped the process.

## Model

| member | source | states |
|---|---|---|
| FileUtils.IsElfType | fileutils/fileutils.go:65-111 | Definition of `IsElfType`: `EmptyPath` for "", `OpenFailed` for a path that cannot be opened, `Ok(false)` for a non-regular file or one of fewer than 4 bytes, and otherwise the comparison of the first 4 bytes with the magic. Its properties are in `IsElfTypeExact`. |
| FileUtils.IsElfTypeExact | fileutils/fileutils.go:65-111 | `IsElfType` fails only for an empty path (`EmptyPath`) or a path that cannot be opened. In every other case it returns `Ok(b)`, where `b` holds exactly when the file is regular, has at least 4 bytes and starts with `7F 45 4C 46`. A non-regular file or a file of fewer than 4 bytes is therefore a negative answer, not an error. |
| FileUtils.CompareMagic | fileutils/fileutils.go:99-111 | The comparison after the 4 bytes are read: the answer is `Ok(true)` exactly when those bytes are the ELF magic, and never an error. |
| FileUtils.MagicNumElfDecodes | fileutils/fileutils.go:99-107 | The constant `"7f454c46"` decodes to exactly the 4 ELF identification bytes. So the length guard never fires, and the comparison covers all 4 bytes read. |
| FileUtils.EmptyPathRejected | fileutils/fileutils.go:68-182 | An empty path makes the ELF check, the entropy and every digest fail with `EmptyPath`, whatever the file system holds. |
| FileUtils.Histogram | fileutils/fileutils.go:149 | The histogram has exactly 256 entries, one per byte value. |
| FileUtils.CountIsMultiplicity | fileutils/fileutils.go:162-164 | The count of byte `v` is the multiplicity of `v` in the multiset of the file's bytes. |
| FileUtils.CountConcat | fileutils/fileutils.go:150-165 | Counts add up over any split of the byte stream, so chunking does not change the histogram. |
| FileUtils.CountSnoc | fileutils/fileutils.go:162-164 | Counting one more byte adds one to that byte's count and leaves every other count unchanged. |
| FileUtils.HistogramOfPermutation | fileutils/fileutils.go:148-165 | Two contents that are permutations of each other have equal histograms. |
| FileUtils.HistogramTotal | fileutils/fileutils.go:148-165 | The 256 counts sum to the number of bytes read. |
| FileUtils.CountBound | fileutils/fileutils.go:162-164 | No count exceeds the number of bytes, so every ratio `px` lies in [0, 1]. |
| FileUtils.RatioBounds | fileutils/fileutils.go:168 | A count of at most the size gives a ratio `px` in [0, 1]. |
| FileUtils.TotalBump | fileutils/fileutils.go:163 | Incrementing one histogram entry increases the total by exactly one. |
| FileUtils.ZeroTotal | fileutils/fileutils.go:149 | The freshly zeroed histogram has total 0. |
| FileUtils.ZeroTotalExcept | fileutils/fileutils.go:149-165 | If all entries but one are 0, the total is that entry. |
| FileUtils.Term | fileutils/fileutils.go:168-170 | Definition of one symbol's contribution: the ratio `px` of its count to the size, and `plog(px)` when `px > 0`. A count of 0 contributes nothing. |
| FileUtils.PartialSum | fileutils/fileutils.go:167-172 | Definition of the second loop: the sum of `Term` over the first `k` entries of the histogram, in index order. |
| FileUtils.RoundHalfAway | fileutils/fileutils.go:175 | `math.Round`: the result is the integer nearest its argument, and is non-negative for a non-negative argument. A tie goes away from zero: for a non-negative argument the result is strictly above `x - 0.5`, and for a negative one strictly below `x + 0.5`. |
| FileUtils.Round2 | fileutils/fileutils.go:175 | Rounding to two decimals: the result is a whole number of hundredths, within 0.005 of the value, with a tie going away from zero, and non-negative for a non-negative value. |
| FileUtils.OpenFile.constructor | fileutils/fileutils.go:122 | A freshly opened file reads from offset 0. |
| FileUtils.OpenFile.Read | fileutils/fileutils.go:151-153 | At end of file, `Read` reads nothing and reports EOF. Otherwise it reads at least one byte and at most the buffer's length. The bytes it reads are the next bytes of the file, and the offset advances past them. |
| FileUtils.CountChunk | fileutils/fileutils.go:161-164 | Folding one chunk of `n` bytes into the histogram gives the counts of the content up to the end of that chunk. |
| FileUtils.CountBytes | fileutils/fileutils.go:148-165 | The counting pass reads the file to its end in chunks, however the reads split it. Afterwards the handle's offset is the file's size, `byteCounts` has 256 entries, and entry `v` is the number of occurrences of byte `v` in the whole content. |
| FileUtils.Shannon | fileutils/fileutils.go:167-175 | Definition of the entropy of a histogram: `PartialSum` over all 256 entries, rounded to two decimals by `Round2`. |
| FileUtils.EntropyOf | fileutils/fileutils.go:115-176 | Definition of `Entropy`'s result: the guards in the source's order (empty path, open failure, non-regular file, size 0 giving 0, size above 2147483648), then the sum of `-p * log2(p)` over the 256 counts, rounded to two decimals. `Entropy` is proved equal to it. |
| FileUtils.Entropy | fileutils/fileutils.go:115-176 | The result equals `EntropyOf`. The guards come first, in the source's order: empty path, open failure, non-regular file, size 0 giving 0, size above 2 GiB. Then comes the counting pass. Last comes the sum over the symbols with a non-zero count, rounded to two decimals. |
| FileUtils.EntropyGuards | fileutils/fileutils.go:133-146 | A non-regular file is an error. Size 0 gives 0 with no error. A size above 2147483648 is an error. Size exactly 2147483648 is accepted, because the comparison is strict. |
| FileUtils.EntropyDependsOnlyOnHistogram | fileutils/fileutils.go:167-172 | Two regular files whose bytes are permutations of each other have the same entropy. |
| FileUtils.PartialSumSingle | fileutils/fileutils.go:167-172 | Symbols with count 0 contribute nothing: when only byte `x` occurs, the sum is `x`'s single term. |
| FileUtils.PartialSumNonNegative | fileutils/fileutils.go:167-172 | The sum of the terms is non-negative when every count is at most the size. |
| FileUtils.EntropyNonNegative | fileutils/fileutils.go:137-175 | A successfully computed entropy is at least 0, so it is never the sentinel -1. |
| FileUtils.SingleValueEntropy | fileutils/fileutils.go:148-175 | A non-empty file made of one repeated byte value, within the ceiling, has entropy exactly 0. |
| FileUtils.Hash | fileutils/fileutils.go:179-218 | The guard sequence shared by the four hash functions. The call fails exactly on an empty path, an unopenable path, a non-regular file or a size above the ceiling. On success the result is `""` exactly for an empty file, and otherwise has 2 × the digest length characters, all lowercase hex digits. |
| FileUtils.HashMD5 | fileutils/fileutils.go:179-218 | On success, a non-empty file gets a 32-character MD5 string. |
| FileUtils.HashSHA1 | fileutils/fileutils.go:221-260 | On success, a non-empty file gets a 40-character SHA-1 string. |
| FileUtils.HashSHA256 | fileutils/fileutils.go:263-302 | On success, a non-empty file gets a 64-character SHA-256 string. |
| FileUtils.HashSHA512 | fileutils/fileutils.go:305-344 | On success, a non-empty file gets a 128-character SHA-512 string. |
| FileUtils.HashDecodes | fileutils/fileutils.go:215 | A non-empty hash string decodes back to the digest of the whole content. |
| FileUtils.SameGuards | fileutils/fileutils.go:118-207 | Each digest and the entropy fail on the same files with the same error. On an empty file, both succeed trivially: `""` and 0. |
| Hex.DigitChar | fileutils/fileutils.go:215 | Every digit produced is a lowercase hex digit. |
| Hex.DigitValue | fileutils/fileutils.go:99 | A character has a value exactly when it is a hex digit of either case, and the value is below 16. |
| Hex.DigitValueOfDigitChar | fileutils/fileutils.go:215 | Reading an encoded digit gives back its value. |
| Hex.Encode | fileutils/fileutils.go:215 | `hex.EncodeToString` gives twice as many characters as bytes, all of them lowercase hex digits. |
| Hex.Decode | fileutils/fileutils.go:99-102 | `hex.DecodeString` succeeds exactly on even-length strings of hex digits, giving half as many bytes. Otherwise it fails with `BadHex`. |
| Hex.DecodeEncode | fileutils/fileutils.go:215 | Decoding undoes encoding, for every byte sequence. |
| Decimal.DigitChar | sandfly-entropyscan.go:266 | Every character produced is a decimal digit. |
| Decimal.Itoa | sandfly-entropyscan.go:266 | `strconv.Itoa` gives a non-empty string of digits, with no leading zero unless the value is 0. |
| Decimal.ValueOfItoa | sandfly-entropyscan.go:266 | Reading back the decimal rendering gives the number rendered. |
| Decimal.ItoaInjective | sandfly-entropyscan.go:265-266 | Distinct PIDs have distinct renderings. |
| Paths.Split | sandfly-entropyscan.go:213 | `filepath.Split`: the two parts concatenate to the path, the file part has no '/', and the directory part is empty or ends in '/'. |
| Paths.SplitUnique | sandfly-entropyscan.go:213 | Those three properties determine the split. |
| Paths.Base | sandfly-entropyscan.go:213-216 | The record's name is a '/'-free suffix of the path. When the path has a '/', the name starts right after the last one. When it has none, the name is the whole path. |
| EntropyScan.EntropyWanted | sandfly-entropyscan.go:221-229 | Definition of the entropy policy: the ELF check succeeds, and either the file is an ELF (line 221, under `elfOnly`) or all files are wanted (line 229). |
| EntropyScan.Measure | sandfly-entropyscan.go:208-235 | Definition of the first two stages: `Rejected` with `IsElfType`'s error; otherwise the record with path, name, ELF flag and entropy -1, whose entropy is then computed when `elfOnly` is false or the file is an ELF. A failed entropy gives `Aborted`. The trace lists the calls made. |
| EntropyScan.HashAll | sandfly-entropyscan.go:238-257 | Definition of the four digest calls: MD5's error after one call, or the four digests after four calls. |
| EntropyScan.HashGate | sandfly-entropyscan.go:237-258 | Definition of the hash gate: at or above the threshold, `HashAll`'s error aborts and its digests fill the record. Below the threshold, the record is returned as it is. |
| EntropyScan.Classify | sandfly-entropyscan.go:208-261 | Definition of `checkFilePath`: `Measure`, then `HashGate` on a checked record. `CheckFilePath` is proved equal to it. |
| EntropyScan.MeasureFile | sandfly-entropyscan.go:209-235 | The first two stages of `checkFilePath` give exactly `Measure`: the ELF check, the record's path, name and ELF flag, then the entropy or the -1 sentinel, with the calls made in that order. A record they produce carries the path given and no digests yet. |
| EntropyScan.MeasureChecked | sandfly-entropyscan.go:209-235 | The first two stages make no digest call, and a record they produce carries the path given and empty digests. |
| EntropyScan.GateFile | sandfly-entropyscan.go:237-258 | The hash gate gives exactly `HashGate`: at or above the threshold, the four digest calls, whose error aborts and whose digests fill the record. Below it, the record is unchanged and no call is made. |
| EntropyScan.CheckFilePath | sandfly-entropyscan.go:208-261 | The outcome and the sequence of calls made equal `Classify`: the two stages of `MeasureFile`, then the hash gate, which adds the four digests when the entropy reaches the threshold. |
| EntropyScan.ClassifyRejected | sandfly-entropyscan.go:209-212 | `checkFilePath` fails exactly when `IsElfType` fails, with its error, after the ELF check alone. |
| EntropyScan.ClassifyRecord | sandfly-entropyscan.go:213-217 | On success, the record's path is the input unchanged, its name is the final component of the path, and its ELF flag says whether the file has the ELF magic. |
| EntropyScan.EntropyComputedOnce | sandfly-entropyscan.go:218-235 | The ELF check comes first and happens once. Entropy is computed exactly once, right after it, when the policy wants it, and never otherwise. The branches at lines 221 and 229 are mutually exclusive. |
| EntropyScan.TraceShape | sandfly-entropyscan.go:209-258 | The first two stages make one call when the policy declines entropy and two when it wants it. The hash gate then adds no call, the MD5 call alone, or all four digest calls. |
| EntropyScan.StepsOnce | sandfly-entropyscan.go:209-258 | In every trace of that shape, the ELF check is first and occurs once, and entropy, when present, is second and occurs once. |
| EntropyScan.SentinelExactly | sandfly-entropyscan.go:218-235 | A record's entropy is -1 exactly when only ELF files are wanted and the file is not one. Otherwise it is the file's entropy, which is non-negative. |
| EntropyScan.HashGateExact | sandfly-entropyscan.go:237-258 | A record carries all four digests of its file when its entropy is at least the threshold, equality included. Otherwise all four stay `""`. The digest calls happen exactly in the first case. |
| EntropyScan.HashGateOf | sandfly-entropyscan.go:237-258 | The gate changes only the digests of a record. At or above the threshold it fills them from `HashAll` and makes the MD5 call. Below the threshold it leaves the record unchanged. |
| EntropyScan.HashedRecordShape | sandfly-entropyscan.go:237-258 | The digests of an empty file are all `""`. Those of a non-empty file have 32, 40, 64 and 128 characters. |
| EntropyScan.ElfOnlySkip | sandfly-entropyscan.go:218-237 | With a threshold in [0, 8], a non-ELF file under `elfOnly` gets entropy -1 and no digests, after the ELF check alone. |
| EntropyScan.AbortsExactlyOnEntropyFailure | sandfly-entropyscan.go:218-253 | With a non-negative threshold, a classification aborts exactly when the entropy it wants fails, and with that error. The digests never fail after their guards have passed. |
| EntropyScan.HashFile | sandfly-entropyscan.go:238-257 | The four digest calls, made in the source's order, give exactly `HashAll`: either MD5's error after one call, or the four digests after four calls. |
| EntropyScan.ProcExePath | sandfly-entropyscan.go:266 | Definition of the cleaned `path.Join(constProcDir, strconv.Itoa(pid), "/exe")`: `"/proc/" + Itoa(pid) + "/exe"`. |
| EntropyScan.ProcPidOfProcExePath | sandfly-entropyscan.go:266 | Every candidate path names its own PID back. |
| EntropyScan.ProcExeBase | sandfly-entropyscan.go:263-266 | The name of every candidate's record is `"exe"`. |
| EntropyScan.PidExePaths | sandfly-entropyscan.go:263-270 | The candidate list has `constMaxPID - constMinPID` entries. |
| EntropyScan.GenPIDExePaths | sandfly-entropyscan.go:263-270 | The method returns exactly 4194303 paths. Element `i` is the path of PID `i + 1`, in increasing order. |
| EntropyScan.PidExePathsDistinct | sandfly-entropyscan.go:265-266 | No two candidates coincide. |
| EntropyScan.ScanStep | sandfly-entropyscan.go:119-124 | Definition of one pass of the loop body: a rejection is skipped or stops the scan, an abort stops it, and a checked record is shown when its entropy reaches the threshold. |
| EntropyScan.Fold | sandfly-entropyscan.go:117-126 | Definition of the loop: `ScanStep` over the outcomes in order, stopping at the first abort. |
| EntropyScan.Outcomes | sandfly-entropyscan.go:117-126 | There is one classification outcome per target, in the targets' order. |
| EntropyScan.OutcomesPrefix | sandfly-entropyscan.go:117-126 | The outcomes of the first `i` targets are the first `i` outcomes: a target's outcome does not depend on the targets around it. |
| EntropyScan.FoldSnoc | sandfly-entropyscan.go:117-126 | One more outcome applies one more step of the loop body, unless the scan had already aborted. |
| EntropyScan.FoldAbortStable | sandfly-entropyscan.go:224-252 | Once a scan has aborted, later outcomes change nothing: the `log.Fatalf` calls of `checkFilePath` (lines 224, 232 and 240-252), and those of the `-file` and `-dir` modes (lines 133 and 156), end the process. |
| EntropyScan.FoldShown | sandfly-entropyscan.go:117-126 | Every record shown reached the threshold and is the record of one of the outcomes. |
| EntropyScan.FoldAbort | sandfly-entropyscan.go:117-126 | A scan stops only on an aborted outcome, or on a rejected one when rejections are not skipped, and with that outcome's error. |
| EntropyScan.FoldCompletes | sandfly-entropyscan.go:117-126 | Conversely, with no aborted outcome, and no rejected one unless rejections are skipped, the scan never stops. |
| EntropyScan.Sweep | sandfly-entropyscan.go:117-172 | Definition of a scan: `Fold` over the `Outcomes` of the targets. Rejections are skipped in the `-proc` loop (lines 117-126) and abort in the `-file` and `-dir` modes (lines 130-172). |
| EntropyScan.SweepStops | sandfly-entropyscan.go:224-252 | A scan that has stopped after `k` targets, on a `log.Fatalf` of `checkFilePath` (lines 224, 232 and 240-252) or of the `-file` and `-dir` modes (lines 133 and 156), gives the same result as the scan of those `k` targets alone. |
| EntropyScan.CheckTarget | sandfly-entropyscan.go:119 | Checking the `i`-th target gives that target's outcome. |
| EntropyScan.Scan | sandfly-entropyscan.go:117-126 | The scan loop's printed records and abort equal `Sweep`. The targets checked form a prefix of the list, in order, each checked once. Those targets alone give the same result. When the scan does not abort, every target is checked. |
| EntropyScan.ThresholdError | sandfly-entropyscan.go:104-109 | The `-entropy` flag is accepted exactly when it lies in [0, 8]. |
| EntropyScan.ProcScan | sandfly-entropyscan.go:104-128 | After the threshold check, the `-proc` mode scans every PID candidate with `elfOnly` forced true, skipping candidates that cannot be checked. When it does not abort, it visits every candidate. |
| EntropyScan.FileScan | sandfly-entropyscan.go:130-141 | The `-file` mode, entered only for a non-empty path (line 130), checks its one target, aborts on any failure, and shows the record when the filter passes. |
| EntropyScan.DirScan | sandfly-entropyscan.go:143-172 | The `-dir` mode checks every walked regular file in order, and any failure aborts. |
| EntropyScan.ShownWereHashed | sandfly-entropyscan.go:117-161 | The display filter at lines 122, 136 and 159 is the hash gate's test at line 237. Every shown record reached the threshold, carries its file's four digests, and is a target's own record. |
| EntropyScan.ElfOnlyShowsOnlyElf | sandfly-entropyscan.go:117-161 | With a valid threshold and `elfOnly`, every record a scan shows is of an ELF file with computed, non-negative entropy. This holds whether rejections are skipped or not, so it covers the `-proc` loop, where `elfOnly` is forced (line 119), and the `-file` and `-dir` modes under the `-elf` flag (lines 131 and 154). |
| EntropyScan.ProcScanAbortsOnlyOnOversizedElf | sandfly-entropyscan.go:117-126 | With a valid threshold, the only thing that stops a process scan is an ELF image above the 2 GiB ceiling: the entropy call at line 222 aborts on it. The error is `TooLarge` with the size of some such candidate. |
| EntropyScan.ProcScanCompletes | sandfly-entropyscan.go:117-126 | Conversely, a process scan with no oversized ELF candidate never stops. Every candidate whose check errors is skipped. |

## Left out

- The operating system beyond the file model:
  - `Stat` errors, `Read` errors other than end of file, `binary.Read` and `io.Copy` errors;
  - the file changing between the calls of one classification;
  - blocking opens: `os.Open` on a FIFO (fileutils/fileutils.go:72) waits until some process opens it for writing, so `-file <fifo>` can hang. The model treats every entry as opened at once, and a non-regular one gives its answer or error straight away.

  Every call of one classification sees the same file system. As a consequence, the SHA-1, SHA-256 and SHA-512 error branches of `checkFilePath` cannot be taken once MD5 has passed, and the model omits them.
- The `Lstat` view of `filepath.Walk`: `DirScan` takes the walked regular files as its input. The walk itself, its errors, the skipping of directories and non-regular entries, and `Lstat`'s view of symbolic links are not modelled.
- Floating point. The `-p * log2(p)` summand is the abstract `PLog`, and all other arithmetic is on exact reals. The upper bound of 8 bits for entropy is not proved, because it needs properties of the logarithm. A NaN `-entropy` flag is not modelled either: in `float64` it passes both range tests at sandfly-entropyscan.go:104-109 and then fails every `>=` comparison at lines 122, 136, 159 and 237, so nothing is hashed or shown. The model's threshold is a real, which cannot be NaN.
- The hash algorithms themselves (`crypto/md5`, `crypto/sha1`, `crypto/sha256`, `crypto/sha512`). They are the abstract `Digester`, which only fixes the digest lengths.
- `path.Join` is modelled only on the arguments `genPIDExePaths` gives it. For a decimal PID, cleaning only removes the doubled '/' before "exe".
- `Decimal.Itoa` renders only non-negative values, the only ones the scanner passes.
- Flag parsing, `-version`, `printResults` and its text and CSV formats, the `-delim` option, and the order in which the modes are tried. A scan's `shown` sequence stands for the records printed.
- `os.Exit` and `log.Fatal(f)` are modelled as the outcome `Aborted`, or a scan result with `abort` set, not as ending the process.
- The 256000-byte buffer size appears only as the buffer's length. The histogram is proved independent of the way reads are chunked.
- In the `-proc` loop only an `IsElfType` error skips a PID (sandfly-entropyscan.go:119-121). An entropy or digest failure calls `log.Fatalf` (lines 224, 232 and 240-252) and ends the whole scan. `ProcScanAbortsOnlyOnOversizedElf` and `ProcScanCompletes` state when that happens: exactly when some candidate is an ELF image above 2 GiB.
- Errors are reduced to the kinds of `Error`, with the path where the source names one. Their message texts are dropped, so `SameGuards` equates errors whose texts differ. For example, the open error of the entropy (fileutils/fileutils.go:124) and that of MD5 (line 186) are both `OpenFailed(path)`.
