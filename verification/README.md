# hwinfo: the Linux CPU probe, modelled in Dafny

This project models the Linux half of hwinfo's CPU support,
`src/linux/cpu.cpp`:

- `getAllSockets` reads `/proc/cpuinfo`. It cuts the file into blocks at
  blank lines and each block into `name : value` lines. It fills a `CPU`
  record from the recognised fields and groups the blocks into sockets
  by their `physical id`. Every socket it emits is probed: its clock
  speeds come from sysfs and its load baseline from `/proc/stat`.
- The four clock probes (`getMaxClockSpeed_MHz`, `getRegularClockSpeed_MHz`,
  `getMinClockSpeed_MHz`, `CPU::currentClockSpeed_MHz`) read a kHz value
  from a sysfs file. Each turns it into MHz, or into -1 when the value is
  missing.
- `CPU::currentLoadPercentage` keeps the last jiffy sums in the `CPU`
  object. It takes a baseline sample on its first call. It returns the
  work share of the jiffies that elapsed since the previous sample.

Modules:

- `Wrappers`: `Option` and `Result`.
- `Text`: the specification-level `utils::split`, `utils::strip` and
  `std::stoi`.
- `Scan`: the two shapes of pass the parser makes over lines and over
  blocks.
- `Clock`: the clock probes.
- `Load`: the load sampler. It is a class whose method updates the two
  jiffy fields, and it is specified by the pure `Sample` and `Percentage`.
- `CpuInfo`: the parser. There are two layers:
  - functions that define what the parse yields: `ScanLines`,
    `ScanBlocks`, `SocketsOf`, `ParseCpuInfo`;
  - methods that do it step by step, as the source does: `GetAllSockets`,
    `FillCpu`, `FillLine`, `FillField`, `ProbeCpu`. Each is proved to
    compute its function.
- `Grouping`: the socket-grouping rule, stated on the physical ids alone.
  It is given both as written and as evidently intended.
- `GroupingExamples`, `CpuInfoExamples`: worked inputs.

The outside world becomes parameters:

- the content of `/proc/cpuinfo` is an `Option<string>`, where `None`
  means the file could not be opened;
- sysfs is a function from a core id and a frequency file to the value
  read;
- `/proc/stat` is a function from the index of a read to the jiffy pair it
  returns.

## Model

| member | source | states |
|---|---|---|
| Clock.KHzToMHz | src/linux/cpu.cpp:25-30 | a reading of -1 or less gives -1. A non-negative reading gives its whole number of thousands: `mhz*1000 <= reading < (mhz+1)*1000`. The result is non-negative exactly when the reading is |
| Clock.MaxClockSpeedMHz | src/linux/cpu.cpp:22-31 | the result is at least -1. It is non-negative exactly when `scaling_max_freq` of that core reads non-negative, and then it is that reading in whole MHz |
| Clock.RegularClockSpeedMHz | src/linux/cpu.cpp:34-43 | the same, for `base_frequency` |
| Clock.MinClockSpeedMHz | src/linux/cpu.cpp:45-54 | the same, for `scaling_min_freq` |
| Clock.CurrentClockSpeedMHz | src/linux/cpu.cpp:57-66 | the same, for `scaling_cur_freq` |
| Clock.UnknownCore | src/linux/cpu.cpp:22-66 | a core whose four frequency files all read -1 reports -1 for every clock speed |
| Load.Sample | src/linux/cpu.cpp:69-80 | the window is rebaselined exactly when either stored sum is -1. It always ends at the second `/proc/stat` read. It starts at the stored sums, or at the first read when there is no baseline |
| Load.Percentage | src/linux/cpu.cpp:79-85 | there is no percentage exactly when no jiffies elapsed in the window (the source's division by zero) |
| Load.PercentageInRange | src/linux/cpu.cpp:79-85 | when the work delta lies between 0 and a positive total delta, the load lies in [0, 100] |
| Load.ThirtyPercent | src/linux/cpu.cpp:79-85 | going from (1000 all, 400 work) to (1200, 460) gives a load of exactly 30 |
| Load.Run | src/linux/cpu.cpp:68-86 | successive calls on one object give one window per call, and each window ends at its call's second read |
| Load.RunTelescopes | src/linux/cpu.cpp:79-83 | once a baseline exists, each call starts where the previous call ended. The total deltas therefore add up to the last read minus the first start |
| Load.CPU.constructor | src/linux/cpu.cpp:140-141 | a new sampler has no baseline: both sums are -1 |
| Load.CPU.CurrentLoadPercentage | src/linux/cpu.cpp:68-86 | a baseline is read exactly when either stored sum was -1. Both fields become the second read. The load is `Percentage` of the window `Sample` gives from the old state |
| Text.Split | src/linux/cpu.cpp:99-107 | a split always gives at least one piece. `JoinSplit` and `SplitPiecesFree` pin the pieces down for a one-character delimiter; for a longer one such as the blank line between blocks, `SplitLeftmost` fixes each cut at the delimiter's leftmost occurrence |
| Text.SplitLeftmost | src/linux/cpu.cpp:99 | a split with more than one piece has its first cut at the first occurrence of the delimiter, and a split into one piece means the delimiter does not occur |
| Text.Find | src/linux/cpu.cpp:99-107 | the index of the first occurrence of the delimiter, or None when it does not occur |
| Text.JoinSplit | src/linux/cpu.cpp:99-107 | joining the pieces of a split with the delimiter gives back the text |
| Text.SplitPiecesFree | src/linux/cpu.cpp:99-107 | no piece of a split contains the delimiter |
| Text.SplitSingle | src/linux/cpu.cpp:107-110 | a split gives one piece exactly when the delimiter does not occur. A line without ':' is therefore skipped |
| Text.SplitAtFirst | src/linux/cpu.cpp:107-112 | a text whose first part holds no delimiter character splits at that first delimiter |
| Text.SplitJoin | src/linux/cpu.cpp:99-105 | pieces free of the delimiter's first character, joined by the delimiter, split back into those pieces |
| Text.ContainsChar | src/linux/cpu.cpp:107 | a one-character delimiter occurs in a text exactly when that character does |
| Text.LeadingSpaces | src/linux/cpu.cpp:113-114 | counts exactly the white space at the front |
| Text.TrailingSpaces | src/linux/cpu.cpp:113-114 | counts exactly the white space at the back |
| Text.Strip | src/linux/cpu.cpp:113-114 | the result has no white space at either end and is no longer than the input |
| Text.StripPadded | src/linux/cpu.cpp:113-114 | stripping a trimmed text padded with white space on both sides gives that text back |
| Text.StripIdempotent | src/linux/cpu.cpp:113-114 | stripping twice is stripping once |
| Text.LeadingDigitCount | src/linux/cpu.cpp:116 | counts exactly the digits at the front |
| Text.ParseInt | src/linux/cpu.cpp:116 | a number read by `std::stoi` lies in the 32-bit `int` range |
| Text.DecimalValue | src/linux/cpu.cpp:116 | the decimal digits of n denote n |
| Text.LeadingDigitsOfDigits | src/linux/cpu.cpp:116 | the digits that lead a text are read up to the first non-digit |
| Text.ParseIntDecimal | src/linux/cpu.cpp:116 | `stoi` reads back any in-range number written in decimal, with or without a leading minus, and ignores what follows a non-digit |
| CpuInfo.ParseLine | src/linux/cpu.cpp:107-114 | a line gives a field exactly when it contains ':'. The name and value come out stripped |
| CpuInfo.ParseLineRendered | src/linux/cpu.cpp:107-114 | a line written as `name<TAB>: value` reads back as that name and value |
| CpuInfo.ParseLineOneColon | src/linux/cpu.cpp:107-114 | a line with one colon, padded in any way, reads as the stripped text before the colon and the stripped text after it |
| CpuInfo.ValueStopsAtSecondColon | src/linux/cpu.cpp:107-114 | the value ends at a second ':'. Whatever follows it is dropped |
| CpuInfo.CacheSizeBytes | src/linux/cpu.cpp:122 | the cache size is a multiple of 1024 and lies within the `int` range times 1024 |
| CpuInfo.CacheSizeOfDecimal | src/linux/cpu.cpp:122 | `n KB` (any unit word) gives n*1024 bytes |
| CpuInfo.CacheSize8192KB | src/linux/cpu.cpp:122 | "8192 KB" gives 8388608 bytes |
| CpuInfo.ApplyField | src/linux/cpu.cpp:115-134 | only the five numeric fields can fail, and their error names the field and its text. Unrecognised names change nothing. Clocks and jiffies stay unprobed. A `physical id` appends its number, and no other field touches the ids |
| CpuInfo.FieldSetsItsMember | src/linux/cpu.cpp:115-134 | each recognised name other than `physical id`, when its number parses, sets exactly its own member: `processor` the core id, `vendor_id` the vendor, `model name` the model, `cache size` the bytes, `siblings` the logical cores, `cpu cores` the physical cores, `flags` the split flags |
| CpuInfo.ApplyFieldFails | src/linux/cpu.cpp:115-134 | a field fails exactly when it is numeric and its value does not parse |
| CpuInfo.ApplyLine | src/linux/cpu.cpp:107-134 | a line without ':' changes nothing. A `physical id` line adds its id. Other lines keep the ids |
| CpuInfo.ScanLines | src/linux/cpu.cpp:104-135 | a block that scans leaves its core unprobed, and its ids are the `physical id` values of its lines, in order |
| CpuInfo.ScanLinesSnoc | src/linux/cpu.cpp:106-135 | a line appended to a block continues the scan from the record the earlier lines left |
| CpuInfo.ScanBlock | src/linux/cpu.cpp:104-105 | a block that scans leaves its core unprobed and records the ids of its lines. A block without a line break is one line |
| CpuInfo.ScanBlocks | src/linux/cpu.cpp:103-105 | when no block fails, there is one record per block and each is that block's own scan from a fresh `CPU`. Otherwise the error is that of the first block that fails |
| CpuInfo.ShortLineIgnored | src/linux/cpu.cpp:108-110 | appending a line without ':' does not change the scan |
| CpuInfo.LinesEmitWhen | src/linux/cpu.cpp:123-127 | a block raises the emit flag exactly when one of its `physical id` lines differs from the tracker |
| CpuInfo.NoPhysicalIdNeverEmits | src/linux/cpu.cpp:123-136 | a block without a `physical id` line never raises the emit flag |
| CpuInfo.Probe | src/linux/cpu.cpp:136-142 | probing keeps every parsed field. The max, min and regular clock speeds are the three sysfs probes of the block's own core id. The jiffy baseline is the second `/proc/stat` read made for that socket |
| CpuInfo.SocketsOf | src/linux/cpu.cpp:103-149 | socket ids run 0, 1, 2, ... in order |
| CpuInfo.Emitted | src/linux/cpu.cpp:136-147 | one socket per emitting block, never more sockets than blocks. Ids run 0, 1, 2, ... and each socket keeps the parsed fields of its emitting block |
| CpuInfo.EmittedSnoc | src/linux/cpu.cpp:136-147 | one more block adds one socket, with the next id, exactly when it emits |
| CpuInfo.ParseCpuInfo | src/linux/cpu.cpp:90-152 | a file that cannot be opened gives no sockets. Otherwise socket ids run 0, 1, 2, ... |
| CpuInfo.SocketsFromOwnBlocks | src/linux/cpu.cpp:103-147 | each socket comes from one emitting block, in block order, with that block's parsed fields |
| CpuInfo.GetAllSockets | src/linux/cpu.cpp:90-152 | the loop over the blocks computes `ParseCpuInfo`. It returns no sockets when the file does not open, and it numbers the sockets 0, 1, 2, ... |
| CpuInfo.FillCpu | src/linux/cpu.cpp:104-135 | the loop over a block's lines computes that block's scan, or the scan's error. The emit flag it leaves is the emit rule applied to the block's ids |
| CpuInfo.FillLine | src/linux/cpu.cpp:107-114 | one line computes `ApplyLine` and keeps the emit flag in step with the ids |
| CpuInfo.FillField | src/linux/cpu.cpp:115-134 | one field computes `ApplyField` and keeps the emit flag in step with the ids |
| CpuInfo.ProbeCpu | src/linux/cpu.cpp:136-142 | computes `Probe` |
| CpuInfo.SocketsOfIntended | src/linux/cpu.cpp:123-147 | the corrected grouping numbers its sockets 0, 1, 2, ... |
| CpuInfo.IntendedSocketCount | src/linux/cpu.cpp:123-147 | with at most one `physical id` per block, the corrected parse gives one socket per distinct id |
| CpuInfo.IntendedAgreesOnContiguous | src/linux/cpu.cpp:123-147 | on ids numbered 0, 1, 2, ... without interleaving, the corrected parse and the parse as written agree |
| Grouping.EmittingBlocks | src/linux/cpu.cpp:101-147 | the emitting blocks are in range and strictly increasing, one socket at most per block |
| Grouping.EmittingBlocksPrefix | src/linux/cpu.cpp:103-147 | the sockets emitted before block i are exactly the first ones emitted overall |
| Grouping.EmitsWhen | src/linux/cpu.cpp:124-145 | block i emits exactly when one of its ids differs from the number of sockets emitted before it, minus 1 |
| Grouping.NoPhysicalIdNoSocket | src/linux/cpu.cpp:136 | a block without ids never emits |
| Grouping.ContiguousGrouping | src/linux/cpu.cpp:124-145 | on ids 0, 1, 2, ... in order without interleaving, there is one socket per package, and a block emits exactly when its id changes |
| Grouping.ContiguousSeen | src/linux/cpu.cpp:124-145 | such ids cover exactly 0 to the last id |
| Grouping.RulesAgreeOnContiguous | src/linux/cpu.cpp:124-145 | on such ids the rule as written and the distinct-id rule emit the same blocks |
| Grouping.EmittingBlocksDistinct | src/linux/cpu.cpp:124-145 | the corrected rule's emitting blocks are in range and strictly increasing |
| Grouping.DistinctCount | src/linux/cpu.cpp:124-145 | with at most one id per block, the corrected rule emits one socket per distinct id |
| Grouping.DistinctFirstAppearance | src/linux/cpu.cpp:124-145 | under the corrected rule, a block emits exactly when its id appears for the first time |
| Scan.FoldErrorStays | src/linux/cpu.cpp:106-135 | once a line has failed, the whole pass keeps that error |
| Scan.FoldFailsAt | src/linux/cpu.cpp:106-135 | the first line whose `stoi` throws ends the pass with its error |
| Scan.FoldKeeps | src/linux/cpu.cpp:106-135 | a property every successful step keeps holds after the pass |
| Scan.FoldCollects | src/linux/cpu.cpp:106-135 | the ids a pass records are exactly those its lines carry, in order |
| Scan.CollectMembers | src/linux/cpu.cpp:106-135 | a value is collected exactly when some item yields it |
| Scan.MapAll | src/linux/cpu.cpp:103-149 | when no block fails there is one record per block, pointwise. Otherwise the error is that of the first block that fails |
| Scan.MapAllFailsAt | src/linux/cpu.cpp:103-149 | the first block that fails ends the parse with its error |
| GroupingExamples.SequentialIds | src/linux/cpu.cpp:124-145 | ids 0, 0, 1, 1 emit at blocks 0 and 2 |
| GroupingExamples.SharedId | src/linux/cpu.cpp:124-145 | ids 0, 0 emit once |
| GroupingExamples.InterleavedIds | src/linux/cpu.cpp:124-145 | ids 0, 1, 0, 1 emit at every block: four sockets for two packages |
| GroupingExamples.InterleavedIdsDistinct | src/linux/cpu.cpp:124-145 | under the corrected rule the same ids emit twice |
| GroupingExamples.LonePackageNotZero | src/linux/cpu.cpp:124-145 | two blocks of one package whose id is neither 0 nor -1 emit twice as written and once as intended |
| CpuInfoExamples.IdBlockScans | src/linux/cpu.cpp:105-127 | a block holding `physical id<TAB>: v` scans to a fresh core with the one id v |
| CpuInfoExamples.ProcessorBlockScans | src/linux/cpu.cpp:104-134 | a block with `processor`, `vendor_id`, `model name`, `cache size`, `siblings`, `cpu cores` and `flags` lines, for any values, scans to a fresh record with each value in its own member and no physical id |
| CpuInfoExamples.InterleavedTextAsWritten | src/linux/cpu.cpp:90-152 | the text of packages 0 and 1 with alternating blocks parses to four sockets |
| CpuInfoExamples.InterleavedIntended | src/linux/cpu.cpp:123-147 | the same four blocks, already cut apart, give two sockets under the corrected rule |

## Left out

- Reading `/proc/cpuinfo` (src/linux/cpu.cpp:93-98) is left out. The file is a parameter, and `None` stands for a failed open.
- The sysfs reads and their path building (`std::to_string` of the core id) are left out. They are a parameter indexed by core id and frequency file.
- `filesystem::get_specs_by_file_path` and `filesystem::get_jiffies` are not part of this model. A failed sysfs read is assumed to leave -1. Otherwise `Hz` would stay uninitialised.
- `/proc/stat` is a parameter `stat`: its n-th read during the parse. Socket k uses reads 2k (baseline) and 2k+1 (sample).
- The one-second `usleep` of the sampler (src/linux/cpu.cpp:72) is left out, because time is not modelled.
- Load.Percentage: computes on exact `real`s rather than IEEE doubles. A window with no elapsed jiffies gives `None` where the source divides by zero (infinity or NaN).
- CpuInfo.CacheSizeBytes: does not model the 32-bit `int` overflow of `stoi(...) * 1024`. The product is kept exact.
- The `int64_t` widths of the clock and jiffy values are not modelled, because the values read are non-negative and far inside the range.
- `include/hwinfo/cpu.h` is not part of this model. The `CPU` defaults are assumed to be -1 for the numbers and empty for the strings and flags.
- `utils::split` and `utils::strip` (stringutils.h) are not part of this model. They are specified here as `Text.Split` (every occurrence cuts, and there is always at least one piece) and `Text.Strip` (space, tab, newline, carriage return, vertical tab and form feed at both ends).
- `std::stoi` is modelled as `Text.ParseInt`:
  - it skips leading white space and reads an optional sign and then digits;
  - a text without digits, or a number outside the 32-bit `int` range, is an error.
- A `stoi` exception is nowhere caught in the source, so it ends the parse as `Err(MalformedNumber(...))` and no sockets are returned.
- The sampler `Load.CPU` is separate from the parsed `Core`. A socket's `Core` carries the two jiffy sums its sampler left.
- `Load.CPU.CurrentLoadPercentage` is `const` in the source, with `mutable` fields. It is modelled as a method that modifies the object.
- The value of a line is the text between the first and second ':' (src/linux/cpu.cpp:112), not everything after the first colon (see `CpuInfo.ValueStopsAtSecondColon`).
- `FillCpu`, `FillLine`, `FillField` and `ProbeCpu` split the body of the `getAllSockets` loop into steps. They do not change its order or its effects.

## Findings

| source | as written | input that shows it | evidently intended | confidence | as-written member | corrected member |
|---|---|---|---|---|---|---|
| src/linux/cpu.cpp:124-145 | a block emits a socket when its `physical id` differs from the number of sockets emitted so far minus 1, not from the ids seen | blocks with physical ids 0, 1, 0, 1 (two packages, blocks interleaved) give four sockets. Two blocks of one package with id 5 give two | one socket per distinct physical id | not executed | GroupingExamples.InterleavedIds | CpuInfo.IntendedSocketCount |
