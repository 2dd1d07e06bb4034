# pdd, a parallel dd — a verified model of its core

pdd copies `count` blocks of `bs` bytes from a source file or device to a
destination, starting `skip` blocks into the source and `seek` blocks into
the destination. It splits the bytes into equal shares, one per thread, and
each thread copies its share one buffer of `bs` bytes at a time. This project
models that core in Dafny:

- `types.dfy` (module `PddTypes`): the constants of `pdd.h`; the per-worker
  record `struct th_info`; the scanned settings; and the error kinds that end
  the process.
- `args.dfy` (module `Args`): several argument rules.
  - `parse_int_with_unit`: the POSIX leftmost-longest match of
    `[[:digit:]]+([KMG])?`, the 300-byte buffer limit, the unit multiplier and
    strtoull's range check.
  - The `--threads` bound of `scan_args`.
  - The zero-count and default-block-size rules of `verify_global_var`.
- `planner.dfy` (module `Planner`): the planning loop of `main`.
  - It scales the settings by the block size.
  - It fills a freshly allocated array of records, one per worker, in a loop.
  - The loop is proved equal to a specification function `Plan`. The lemmas
    about `Plan` give its shape, adjacency, disjointness and coverage.
- `worker.dfy` (module `Worker`): `trans_data`.
  - The source is a byte sequence. The destination is a byte array of fixed
    length.
  - A read is short exactly when the block runs past the end of the source.
  - A write is short exactly when the block runs past the end of the
    destination. The accepted prefix still lands.
  - The loop method `TransData` is proved equal to the recursive function
    `Copy`. The lemmas about `Copy` describe success, failure and the bytes
    written.
- `transfer.dfy` (module `Transfer`): the rest of `main`.
  - All workers run over one destination. Order does not matter, because
    their destination ranges are disjoint.
  - End-to-end byte-level lemmas.
  - The unit the report prints the total in.
  - The top-level method `Pdd`.

Three facts about the code shape the model:

- Worker offsets strictly increase with the worker index only when the
  share `count * bs / threads` is not zero (`Planner.PlanIncreasing` requires
  it, `Planner.ShareEmpty` says when it is zero). With fewer bytes than
  threads, every worker gets the same offsets and nothing to copy.
- `parse_int_with_unit` copies the digits and reads the unit from the global
  `optarg` (src/pdd.c:423, src/pdd.c:429), not from its parameter. Every
  caller passes `optarg` itself, so the model parses its argument.
- The top level checks the thread count with the corrected rule
  `Args.ScanThreadsChecked`, which refuses zero (see "## Findings"); the
  as-written rule `Args.ScanThreads` is modelled beside it.

## Model

| member | source | states |
|---|---|---|
| Args.FirstMatch | src/pdd.c:414-421 | A match found lies inside the input and is not empty |
| Args.FirstMatchIsLeftmostLongest | src/pdd.c:310-311 | The match is what POSIX regexec reports for `[[:digit:]]+([KMG])?`: it exists iff the input has a digit, it matches the pattern, no match starts further left, and none from the same start is longer |
| Args.FirstDigit | src/pdd.c:414 | The first digit at or after `i`: everything before it is not a digit |
| Args.DigitRunEnd | src/pdd.c:447 | The end of the digit run from `i`: all digits up to it, a non-digit (or the end) at it |
| Args.UnitMultiplier | src/pdd.c:428-445 | K, M and G give 1024, 1024², 1024³; any other letter is the fatal unknown-unit error |
| Args.MatchMultiplier | src/pdd.c:429-445 | The last matched character has a multiplier iff it is a digit or one of K, M, G; the multiplier is 1 exactly for a digit and never exceeds 1024³; any other character is the unknown-unit exit |
| Args.Decimal | src/pdd.c:447 | The decimal spelling of a number is non-empty and all digits |
| Args.DecimalRoundTrip | src/pdd.c:447 | `DecimalValue`, the model of strtoull in base 10 on a digit string, reads back the number from its spelling |
| Args.DecimalLength | src/pdd.c:421-426 | A number below 10^k has at most k digits |
| Args.DecimalFitsBuffer | src/pdd.c:421-426 | Any value strtoull accepts is spelt in at most 20 digits, well inside the 300-byte buffer |
| Args.ParseIntWithUnit | src/pdd.c:400-452 | A successful parse is at most ULLONG_MAX times the largest unit, 1024³ |
| Args.ParseOutcome | src/pdd.c:414-449 | Exactly when the parse succeeds: a match exists, it is shorter than LEN_SM_BUF (300), and its digits are at most ULLONG_MAX. Otherwise the error is NoMatch iff no match, TooLong iff the match has 300 characters or more, ValueOutOfRange iff it fits but its digits exceed ULLONG_MAX |
| Args.ParseDecimalWithUnit | src/pdd.c:400-452 | Round trip: a number up to ULLONG_MAX, spelt in decimal with an optional unit letter in text that neither adds digits before it nor extends the match after it, parses to the number times the unit |
| Args.SpelledParse | src/pdd.c:400-452 | The same for any digit string, leading zeros included, whose match (digits and unit letter) is shorter than LEN_SM_BUF |
| Args.ParseAt | src/pdd.c:400-452 | A first digit run at `[st, e)` followed by unit `u`, the match shorter than LEN_SM_BUF and the digits at most ULLONG_MAX, parses to `Scale(u)` times its value |
| Args.ZerosValue | src/pdd.c:447 | `DecimalValue` (strtoull in base 10) reads a run of zeros as 0 |
| Args.LeadingZerosValue | src/pdd.c:447 | Leading zeros do not change the value `DecimalValue` (strtoull in base 10) reads |
| Args.ParsePadded | src/pdd.c:400-452 | A number padded with `k` leading zeros, with an optional unit, parses to the number times the unit as long as the whole match is shorter than LEN_SM_BUF |
| Args.ParsePaddedTooLong | src/pdd.c:421-426 | The same text with a match of LEN_SM_BUF characters or more is refused as too long, whatever its value |
| Args.ParseNoMatchIffNoDigit | src/pdd.c:414-418 | The parse fails with the regex error iff the input has no digit |
| Args.ParseNeverUnknownUnit | src/pdd.c:441-443 | The `default:` exit of the unit switch cannot be reached |
| Args.ParseOkShape | src/pdd.c:400-452 | Converse: a successful parse is the first digit run, read to its end, then the unit it took; digits and unit together are shorter than LEN_SM_BUF; the value is that number, as `DecimalValue` (strtoull in base 10) reads it, times the unit |
| Args.ScanThreads | src/pdd.c:359-368 | As written: accepted iff the value is at most 255, stored unchanged; above ULLONG_MAX is the range error, 256 to ULLONG_MAX the too-big error |
| Args.ScanThreadsChecked | src/pdd.c:359-368 | Corrected: accepted iff 1 ≤ value ≤ 255; zero is a configuration error |
| Args.VerifyGlobals | src/pdd.c:287-291 | Fails iff the count is zero; otherwise a zero block size becomes DEFAULT_BS (4096), and every other setting is kept |
| Args.Prepare | src/pdd.c:85-86 | With the corrected thread rule (`ScanThreadsChecked`, see "## Findings"): accepted iff 1 ≤ threads ≤ 255 and count > 0; what it accepts has a positive block size and equals the input with the block size defaulted. As written, the code lets a thread count of 0 through |
| Planner.TotalBytes | src/pdd.c:88 | With a non-zero block size, the total is exactly `count` whole blocks |
| Planner.SourceBase | src/pdd.c:89 | With a non-zero block size, the source base is exactly `skip` whole blocks |
| Planner.DestBase | src/pdd.c:90 | With a non-zero block size, the destination base is exactly `seek` whole blocks |
| Planner.ChunkBytes | src/pdd.c:100 | A single worker's share is the whole total (ShareBound and ShareEmpty give the general bounds) |
| Planner.Assignment | src/pdd.c:104-110 | Worker `i`'s record has thread number `i`, one share and the block size as buffer; worker 0 starts at both bases; every record starts at or after the bases and, for a worker of the plan, ends within the total on both sides |
| Planner.Plan | src/pdd.c:100-110 | One record per thread, record `i` being worker `i`'s assignment |
| Planner.PlanShape | src/pdd.c:100-110 | Record `i` has thread number `i` and buffer size `bs`. Every share is the same `total / threads`, so the shares sum to at most the total, short of it by exactly `total % threads` |
| Planner.PlanTenBytesThreeWorkers | src/pdd.c:100-110 | Ten one-byte blocks over three workers give shares of three bytes at offsets 0, 3 and 6 |
| Planner.PlanAdjacent | src/pdd.c:107-109 | On both sides, each record's range ends where the next one's begins |
| Planner.PlanDisjoint | src/pdd.c:107-109 | On both sides, the ranges of earlier records end before later ones begin |
| Planner.PlanIncreasing | src/pdd.c:107-108 | With a non-empty share, offsets strictly increase with the worker index |
| Planner.PlanCoverage | src/pdd.c:100-109 | `threads * share ≤ total`. A byte lies in some record's range iff it is within `threads * share` of the base, on each side, so the remainder belongs to no worker |
| Planner.SideCoverage | src/pdd.c:107-109 | PlanCoverage for one side at a time |
| Planner.ShareBound | src/pdd.c:100 | The truncated share is the largest all workers can take: `threads * share ≤ total < threads * share + threads` |
| Planner.ShareEmpty | src/pdd.c:100 | The share is zero iff the total is below the thread count |
| Planner.Tiling | src/pdd.c:107-109 | `n` consecutive ranges of `c` bytes from `base` cover exactly `[base, base + n*c)` |
| Planner.FillPlan | src/pdd.c:88-110 | The loop allocates a fresh array and fills it with exactly `Plan(cfg)`. The total it returns is `count * bs` |
| Worker.ReadAt | src/pdd.c:220 | A read returns the `n` bytes at `pos` when they are in the file, and fewer otherwise |
| Worker.Accepted | src/pdd.c:227 | A write accepts all `n` bytes iff they fit the destination, otherwise only what fits |
| Worker.WriteAt | src/pdd.c:227 | Byte by byte: the accepted prefix of the data lands at `pos`, everything else is kept |
| Worker.Copy | src/pdd.c:216-232 | The copy loop keeps the destination's length |
| Worker.Iterations | src/pdd.c:216 | The loop count is zero iff the share is smaller than one buffer |
| Worker.CopyLen | src/pdd.c:216 | A worker moves its share minus a remainder smaller than one buffer |
| Worker.Run | src/pdd.c:216-232 | Running one worker keeps the destination's length, and a worker with no whole buffer to move succeeds and changes nothing |
| Worker.FullBlocksMeaning | src/pdd.c:218-231 | `k` whole blocks fit from `pos` iff `pos + k*buff ≤ len` |
| Worker.CopyEffect | src/pdd.c:216-232 | The loop's status is decided by the first block that does not fit, read checked first. The destination is the old one with WrittenBytes source bytes laid over it |
| Worker.CopyDone | src/pdd.c:216-232 | Success iff no iteration or both ranges of the whole blocks fit; then the destination range holds the source range and nothing else changed |
| Worker.CopyFailed | src/pdd.c:218-231 | On failure, the number of completed iterations is below the count. A short read means the source ran out and only the completed blocks landed. A short write means the source still had the block, the destination did not, and the completed blocks plus the accepted part landed |
| Worker.CopyIdempotent | src/pdd.c:216-232 | Copying again over its own result gives the same result |
| Worker.Write | src/pdd.c:227 | The method writes into the array what WriteAt describes and returns the accepted count |
| Worker.TransData | src/pdd.c:216-232 | The loop's status and new destination are exactly `Run` of the old one. It succeeds iff it has no whole buffer to move or both ranges fit, and then the destination is old prefix + source range + old suffix |
| Worker.RunDone | src/pdd.c:216-232 | CopyDone stated for one worker's record |
| Worker.RunOverlay | src/pdd.c:216-232 | A worker that succeeds lays exactly CopyLen source bytes from its skip offset over the destination at its seek offset |
| Transfer.RunWorkers | src/pdd.c:103-125 | Running the workers keeps the destination's length |
| Transfer.RunWorkersDone | src/pdd.c:103-125 | The run succeeds iff every worker's ranges fit |
| Transfer.RunBytes | src/pdd.c:216-232 | A successful worker copies exactly the bytes of its range |
| Transfer.RunWorkersBytes | src/pdd.c:103-125 | With disjoint destination ranges, a successful run leaves each byte as the source byte its worker copies, or unchanged where no worker writes |
| Transfer.PlacedUnique | src/pdd.c:103-125 | That byte rule determines the result |
| Transfer.RunWorkersOrder | src/pdd.c:103-125 | The same workers in any order reach the same verdict, and when it is success, the same destination |
| Transfer.RunWorkersIdempotent | src/pdd.c:103-125 | Running the transfer again over its own result changes nothing |
| Transfer.IterationsZero | src/pdd.c:216 | A worker has no iteration iff it moves no byte |
| Transfer.PlanUniform | src/pdd.c:107-110 | Worker `t` of the plan starts `t` shares after each base and moves the same number of bytes |
| Transfer.UniformDone | src/pdd.c:103-125 | For such a plan, the run succeeds iff no one moves a byte or the last worker's ranges fit |
| Transfer.LastFits | src/pdd.c:107-110 | The last worker fits iff its ranges end within both devices |
| Transfer.AllFitFromLast | src/pdd.c:107-110 | If the last worker fits, every worker fits |
| Transfer.PlanRunDone | src/pdd.c:100-125 | The whole transfer succeeds iff no one moves a byte or the last share's copied part fits both devices |
| Transfer.UniformCovers | src/pdd.c:107-110 | Some worker writes byte `i` iff `i` lies in the copied part of one share |
| Transfer.UniformResult | src/pdd.c:103-125 | For a uniform plan, each written byte is the source byte at the same distance from the source base, and every other byte is unchanged |
| Transfer.PlanDisjointDest | src/pdd.c:107-110 | The plan's workers write disjoint destination ranges |
| Transfer.TransferResult | src/pdd.c:88-125 | End to end, on success: byte `i` in the copied part of share `t` is `src[srcBase + (i - dstBase)]`, and every other destination byte is unchanged |
| Transfer.TransferByte | src/pdd.c:88-125 | TransferResult for one byte |
| Transfer.CoveredWholeBlocks | src/pdd.c:100-109 | When the share is a whole number of blocks, the written bytes are exactly `[dstBase, dstBase + threads * share)` |
| Transfer.WholeBlocksCopyLen | src/pdd.c:216 | A share of whole buffers is moved entirely |
| Transfer.EvenTransfer | src/pdd.c:88-125 | When the shares are whole buffers and both devices hold all shares, the run succeeds. The destination range of `threads` shares then holds the source range and the rest is unchanged |
| Transfer.EvenBytes | src/pdd.c:88-125 | The bytes half of EvenTransfer, for a run that succeeds |
| Transfer.EvenDone | src/pdd.c:88-125 | The success half of EvenTransfer |
| Transfer.EvenByte | src/pdd.c:88-125 | EvenTransfer for one byte |
| Transfer.FullCopy | src/pdd.c:88-125 | With no offsets, shares of whole buffers, and a total equal to both device sizes, the destination becomes the source |
| Transfer.DisplayUnit | src/pdd.c:134-145 | The report's unit is B, K, M or G. The total is at least one of that unit (B excepted) and below 1024 of them (G excepted) |
| Transfer.DisplayUnitUnique | src/pdd.c:134-145 | Those two bounds determine the unit |
| Transfer.ZeroThreadsReachPlanning | src/pdd.c:359-368 | `--threads 0` passes the as-written thread rule and verify_global_var, leaving zero threads for the division at src/pdd.c:100. The corrected rule refuses it |
| Transfer.RunTransfer | src/pdd.c:88-125 | The method fills the plan and runs each record's worker in order over the destination array. Its status and new contents are exactly RunWorkers of the plan, and it returns the total `count * bs` |
| Transfer.Pdd | src/pdd.c:84-145 | Rejected iff the settings fail `Args.Prepare`'s checks (the corrected thread rule among them), with that error and the destination untouched. Otherwise the destination is the run's result. The outcome is Copied iff the run succeeded, carrying the total and its display unit, or else the failing worker's error |

## Left out

- Threads. The workers run one after another in index order, and the first
  failure ends the run. In pdd they run concurrently; a failing worker calls
  `exit`, and the others may have copied any part of their shares by then.
  Only the success case is shown to be order-independent
  (`Transfer.RunWorkersOrder`).
- System calls and resources that the model does not cover:
  - CPU affinity;
  - `open` and `close` and their failures;
  - `lseek` failure;
  - `posix_memalign`, `posix_madvise`;
  - the `O_SYNC`/`O_DIRECT` flags;
  - `pthread_create`/`pthread_join` failures.
- Worker.ReadAt: a read is short only at the end of the source. I/O errors,
  where read returns -1 or a device fails mid-way, are not modelled.
- Worker.WriteAt: the destination has a fixed length, like a device. A
  regular file that a write past its end would extend is not modelled.
- Aliasing: source and destination are distinct. A copy within one file is
  not modelled.
- Timing: `gettimeofday`, the duration, the average rate and its unit all
  work in floating point and on clock readings.
- Printing: the report line, the verbose messages and the usage text.
- Argument scanning machinery:
  - getopt;
  - `regcomp` and its failure;
  - the path options `--if`/`--of` and their 300-byte limit;
  - `--direct`;
  - `--version`/`--help`.
- The path checks of verify_global_var: `access` and empty paths.
- The `get_nprocs` bound on the thread count, and the `sscanf` misuse in its
  error message (src/pdd.c:293-298). Both depend on the machine.
- Args.ScanThreads: takes the number that the `--threads` text denotes. It does
  not model how strtoull reads text: no digits gives 0, and a leading `-`
  wraps around.
- Args.ParseIntWithUnit: the product of multiplier and value is an unbounded
  integer. The 64-bit `size_t` wrap-around of `result * arg_num` is not
  modelled, and neither are the later `off_t` casts and the multiplications
  by the block size.
- Args.Prepare: applies the corrected thread rule before verify_global_var.
  The code as written accepts `--threads 0` and divides by it
  (src/pdd.c:100); with `--threads 0 --count 0` it stops at the zero count,
  while the model reports the zero thread count first.
- Planner.FillPlan: offsets and the total are unbounded integers (no `size_t`
  or `off_t` overflow). The `uint8_t` loop counter cannot wrap, because
  threads ≤ 255.
- Initial values (src/pdd.c:250-262): the settings are taken as scanned,
  with defaults supplied by the caller.

## Findings

| source | as written | input that shows it | evidently intended | confidence | as-written member | corrected member |
|---|---|---|---|---|---|---|
| src/pdd.c:364 | `arg_num <= 255` is the only bound on the thread count, so 0 is stored in `cnt_thread`; verify_global_var does not check it either, and `main` then computes `size_data / cnt_thread` (src/pdd.c:100) | `--threads 0` with `--count 1` | refuse a thread count of zero, like the other invalid settings | not executed | Args.ScanThreads, Transfer.ZeroThreadsReachPlanning | Args.ScanThreadsChecked |
