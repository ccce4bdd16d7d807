/**
 * The `/proc/cpuinfo` parser, `getAllSockets`.
 *
 * The text is cut into blocks at every blank line ("\n\n"), each block into
 * lines, and each line at its colons; the first two pieces, stripped, are a
 * field name and its value. A fresh `CPU` record per block collects the
 * recognised fields. A block emits a socket when one of its `physical id`
 * values differs from the parser's counter, which holds the id of the last
 * emitted socket (-1 before the first); an emitted socket's core is then
 * probed for its clock speeds and given a first load sample.
 *
 * The model is in two layers. The specification functions (`ScanLines`,
 * `ScanBlocks`, `ParseCpuInfo`) state what the parse yields, block by block,
 * with the socket rule taken from `Grouping`; the method `GetAllSockets`
 * follows the source's loops and is proved to compute exactly that.
 *
 * Inputs that the source reads from the system are parameters: `file` is
 * the content of `/proc/cpuinfo` (`None` when it cannot be opened),
 * `sysfs` the cpufreq readings, and `stat(n)` the `/proc/stat` snapshot
 * returned by the n-th jiffies read of the call.
 */
module CpuInfo {
  import opened Wrappers
  import opened Text
  import Clock
  import Load
  import opened Grouping
  import Scan

  // ---------------------------------------------------------------------------
  // Records

  /** The fields of hwinfo's `CPU` record that the parser sets. */
  datatype Core = Core(
    coreId: int,
    vendor: string,
    modelName: string,
    cacheSizeBytes: int,
    numLogicalCores: int,
    numPhysicalCores: int,
    flags: seq<string>,
    maxClockSpeedMHz: int,
    minClockSpeedMHz: int,
    regularClockSpeedMHz: int,
    lastSumAllJiffies: int,
    lastSumWorkJiffies: int)

  /** A default-constructed `CPU`: every number -1, every text empty. */
  const FreshCore: Core := Core(-1, "", "", -1, -1, -1, [], -1, -1, -1, -1, -1)

  /** The probe-derived fields still hold their defaults. */
  predicate Unprobed(c: Core) {
    c.maxClockSpeedMHz == -1 && c.minClockSpeedMHz == -1 && c.regularClockSpeedMHz == -1 &&
    c.lastSumAllJiffies == -1 && c.lastSumWorkJiffies == -1
  }

  /** Two records agree on every field a `/proc/cpuinfo` line can set. */
  predicate SameText(c: Core, d: Core) {
    c.coreId == d.coreId && c.vendor == d.vendor && c.modelName == d.modelName &&
    c.cacheSizeBytes == d.cacheSizeBytes && c.numLogicalCores == d.numLogicalCores &&
    c.numPhysicalCores == d.numPhysicalCores && c.flags == d.flags
  }

  datatype Socket = Socket(id: int, core: Core)

  /** `std::stoi` threw on the value of `field`; nothing catches it, so the whole parse fails. */
  datatype ParseError = MalformedNumber(field: string, text: string)

  /** A `name : value` line, both parts stripped. */
  datatype Field = Field(name: string, value: string)

  /** What scanning a block yields: its record and its `physical id` values, in line order. */
  datatype BlockInfo = BlockInfo(core: Core, physicalIds: seq<int>)

  // ---------------------------------------------------------------------------
  // One line

  /**
   * A line with a colon is a field: the stripped text before the first colon
   * is the name and the stripped text between the first and the second colon
   * is the value. A line without a colon is not a field.
   */
  function ParseLine(line: string): (f: Option<Field>)
    ensures f.None? <==> ':' !in line
    ensures f.Some? ==> Trimmed(f.value.name) && Trimmed(f.value.value)
  {
    SplitSingle(line, ":");
    ContainsChar(line, ':');
    var pieces := Split(line, ":");
    if |pieces| < 2 then None
    else Some(Field(Strip(pieces[0]), Strip(pieces[1])))
  }

  /** A line as the kernel writes it, `name<TAB>: value`, reads back as that field. */
  lemma ParseLineRendered(name: string, value: string)
    requires Trimmed(name) && Trimmed(value) && ':' !in name && ':' !in value
    ensures ParseLine(name + "\t: " + value) == Some(Field(name, value))
  {
    var line := name + "\t: " + value;
    assert Split(line, ":") == [name + "\t", " " + value] by {
      assert line == (name + "\t") + ":" + (" " + value);
      SplitAtFirst(name + "\t", ":", " " + value);
      SplitWhole(" " + value, ":");
    }
    assert Strip(name + "\t") == name by {
      StripPadded("", name, "\t");
      assert "" + name + "\t" == name + "\t";
    }
    assert Strip(" " + value) == value by {
      StripPadded(" ", value, "");
      assert " " + value + "" == " " + value;
    }
  }

  /**
   * An ordinary line with one colon, whatever its padding (`flags\t\t: fpu`,
   * `power management:`), reads as the stripped text before the colon and
   * the stripped text after it.
   */
  lemma ParseLineOneColon(name: string, value: string)
    requires ':' !in name && ':' !in value
    ensures ParseLine(name + ":" + value) == Some(Field(Strip(name), Strip(value)))
  {
    SplitAtFirst(name, ":", value);
    SplitWhole(value, ":");
  }

  /**
   * The value ends at the second colon: whatever follows it on the line is
   * dropped.
   */
  lemma ValueStopsAtSecondColon(name: string, value: string, rest: string)
    requires ':' !in name && ':' !in value
    ensures ParseLine(name + ":" + value + ":" + rest) == Some(Field(Strip(name), Strip(value)))
  {
    var line := name + ":" + value + ":" + rest;
    assert line == name + ":" + (value + ":" + rest);
    SplitAtFirst(name, ":", value + ":" + rest);
    SplitAtFirst(value, ":", rest);
  }

  /** `std::stoi(utils::split(value, " ")[0]) * 1024`; `None` where stoi throws. */
  function CacheSizeBytes(value: string): (bytes: Option<int>)
    ensures bytes.Some? ==> bytes.value % 1024 == 0
    ensures bytes.Some? ==> IntMin * 1024 <= bytes.value <= IntMax * 1024
  {
    match ParseInt(Split(value, " ")[0])
    case None => None
    case Some(n) => Some(n * 1024)
  }

  /** A size written as a decimal number and a unit is that number of KiB. */
  lemma CacheSizeOfDecimal(n: nat, unit: string)
    requires n <= IntMax
    ensures CacheSizeBytes(Decimal(n) + " " + unit) == Some(n * 1024)
  {
    var d := Decimal(n);
    assert ' ' !in d by {
      forall i | 0 <= i < |d| ensures d[i] != ' ' {
        assert IsDigit(d[i]);
      }
    }
    SplitAtFirst(d, " ", unit);
    ParseIntDecimal(n, false, "");
    assert "" + d + "" == d;
  }

  /** The `cache size` line of a typical kernel: "8192 KB" is 8388608 bytes. */
  lemma CacheSize8192KB()
    ensures CacheSizeBytes("8192 KB") == Some(8388608)
  {
    assert Decimal(8192) == "8192";
    assert "8192 KB" == Decimal(8192) + " " + "KB";
    CacheSizeOfDecimal(8192, "KB");
  }

  /** The names the parser recognises; every other name is ignored. */
  const RecognisedNames: set<string> :=
    {"processor", "vendor_id", "model name", "cache size", "physical id", "siblings", "cpu cores", "flags"}

  /** The names whose value goes through `std::stoi`. */
  const NumericNames: set<string> :=
    {"processor", "cache size", "physical id", "siblings", "cpu cores"}

  /** The `physical id` a line carries, if it is such a line and its value parses. */
  function PhysicalIdLine(line: string): Option<int> {
    match ParseLine(line)
    case Some(f) => if f.name == "physical id" then ParseInt(f.value) else None
    case None => None
  }

  /** The number a numeric field's value yields: the cache size in bytes, else the value read by `std::stoi`. */
  function NumberOf(f: Field): Option<int> {
    if f.name == "cache size" then CacheSizeBytes(f.value) else ParseInt(f.value)
  }

  /**
   * The effect of one field on the block's record. Only a numeric field can
   * fail, and only when its number does not parse; a `physical id` is
   * recorded and leaves the record alone; an unrecognised name changes
   * nothing; no field touches the probe-derived fields.
   */
  function ApplyField(info: BlockInfo, f: Field): (r: Result<BlockInfo, ParseError>)
    ensures r.Err? ==> f.name in NumericNames && r.error == MalformedNumber(f.name, f.value)
    ensures f.name !in RecognisedNames ==> r == Ok(info)
    ensures r.Ok? ==> Unprobed(info.core) ==> Unprobed(r.value.core)
    ensures r.Ok? && f.name == "physical id" ==>
      ParseInt(f.value).Some? && r.value == BlockInfo(info.core, info.physicalIds + [ParseInt(f.value).value])
    ensures r.Ok? && f.name != "physical id" ==> r.value.physicalIds == info.physicalIds
  {
    var core := info.core;
    var fail := Err(MalformedNumber(f.name, f.value));
    if f.name == "processor" then
      match ParseInt(f.value)
      case None => fail
      case Some(n) => Ok(info.(core := core.(coreId := n)))
    else if f.name == "vendor_id" then
      Ok(info.(core := core.(vendor := f.value)))
    else if f.name == "model name" then
      Ok(info.(core := core.(modelName := f.value)))
    else if f.name == "cache size" then
      match CacheSizeBytes(f.value)
      case None => fail
      case Some(bytes) => Ok(info.(core := core.(cacheSizeBytes := bytes)))
    else if f.name == "physical id" then
      match ParseInt(f.value)
      case None => fail
      case Some(n) => Ok(info.(physicalIds := info.physicalIds + [n]))
    else if f.name == "siblings" then
      match ParseInt(f.value)
      case None => fail
      case Some(n) => Ok(info.(core := core.(numLogicalCores := n)))
    else if f.name == "cpu cores" then
      match ParseInt(f.value)
      case None => fail
      case Some(n) => Ok(info.(core := core.(numPhysicalCores := n)))
    else if f.name == "flags" then
      Ok(info.(core := core.(flags := Split(f.value, " "))))
    else
      Ok(info)
  }

  /** A field fails exactly when it is numeric and its number does not parse. */
  lemma ApplyFieldFails(info: BlockInfo, f: Field)
    ensures ApplyField(info, f).Err? <==> f.name in NumericNames && NumberOf(f).None?
  {
  }

  /**
   * Which member of the record each recognised name sets, when its number
   * parses: `processor` the core id, `vendor_id` the vendor, `model name`
   * the model name, `cache size` the cache size in bytes, `siblings` the
   * logical core count, `cpu cores` the physical core count and `flags` the
   * space-separated flags. Every other member, and the ids, stay as they were.
   */
  lemma FieldSetsItsMember(info: BlockInfo, f: Field)
    requires f.name in RecognisedNames && f.name != "physical id"
    requires f.name in NumericNames ==> NumberOf(f).Some?
    ensures ApplyField(info, f).Ok?
    ensures ApplyField(info, f).value.physicalIds == info.physicalIds
    ensures var c := info.core;
      var d := ApplyField(info, f).value.core;
      (f.name == "processor" ==> d == c.(coreId := NumberOf(f).value)) &&
      (f.name == "vendor_id" ==> d == c.(vendor := f.value)) &&
      (f.name == "model name" ==> d == c.(modelName := f.value)) &&
      (f.name == "cache size" ==> d == c.(cacheSizeBytes := NumberOf(f).value)) &&
      (f.name == "siblings" ==> d == c.(numLogicalCores := NumberOf(f).value)) &&
      (f.name == "cpu cores" ==> d == c.(numPhysicalCores := NumberOf(f).value)) &&
      (f.name == "flags" ==> d == c.(flags := Split(f.value, " ")))
  {
  }

  /**
   * The effect of one line: a line without a colon changes nothing, and the
   * `physical id` values recorded grow exactly by the one the line carries.
   */
  function ApplyLine(info: BlockInfo, line: string): (r: Result<BlockInfo, ParseError>)
    ensures ':' !in line ==> r == Ok(info)
    ensures r.Ok? ==> Unprobed(info.core) ==> Unprobed(r.value.core)
    ensures r.Ok? && PhysicalIdLine(line).Some? ==> r.value.physicalIds == info.physicalIds + [PhysicalIdLine(line).value]
    ensures r.Ok? && PhysicalIdLine(line).None? ==> r.value.physicalIds == info.physicalIds
  {
    match ParseLine(line)
    case None => Ok(info)
    case Some(f) => ApplyField(info, f)
  }

  // ---------------------------------------------------------------------------
  // One block

  /** The `physical id` values the lines of a block carry, in line order. */
  function IdsOfLines(lines: seq<string>): seq<int> {
    Scan.Collect(lines, PhysicalIdLine)
  }

  /**
   * The lines of a block applied in order to a fresh record; the first line
   * that fails ends the scan. A successful scan leaves the probe-derived
   * fields at their defaults and records exactly the `physical id` values
   * of its lines.
   */
  function ScanLines(lines: seq<string>): (r: Result<BlockInfo, ParseError>)
    ensures r.Ok? ==> Unprobed(r.value.core)
    ensures r.Ok? ==> r.value.physicalIds == IdsOfLines(lines)
  {
    Scan.FoldKeeps(lines, EmptyBlock, ApplyLine, (b: BlockInfo) => Unprobed(b.core));
    Scan.FoldCollects(lines, EmptyBlock, ApplyLine, (b: BlockInfo) => b.physicalIds, PhysicalIdLine);
    Scan.Fold(lines, EmptyBlock, ApplyLine)
  }

  /** The state a block's scan starts from: a fresh record, no ids. */
  const EmptyBlock: BlockInfo := BlockInfo(FreshCore, [])

  /** One more line continues the scan from the record the lines before it left. */
  lemma ScanLinesSnoc(lines: seq<string>, line: string, before: BlockInfo, after: BlockInfo)
    requires ScanLines(lines) == Ok(before) && ApplyLine(before, line) == Ok(after)
    ensures ScanLines(lines + [line]) == Ok(after)
  {
    Scan.FoldSnoc(lines, line, EmptyBlock, ApplyLine);
  }

  /**
   * A block, cut into lines and scanned from a fresh record. A block without
   * a line break is a single line.
   */
  function ScanBlock(block: string): (r: Result<BlockInfo, ParseError>)
    ensures r.Ok? ==> Unprobed(r.value.core)
    ensures r.Ok? ==> r.value.physicalIds == IdsOfLines(Split(block, "\n"))
    ensures '\n' !in block ==> r == ScanLines([block])
  {
    var r := ScanLines(Split(block, "\n"));
    if '\n' in block then r
    else SplitWhole(block, "\n"); r
  }

  /** A line without a colon, appended at the end, leaves the scan as it was. */
  lemma ShortLineIgnored(lines: seq<string>, line: string)
    requires ':' !in line
    ensures ScanLines(lines + [line]) == ScanLines(lines)
  {
    Scan.FoldSnoc(lines, line, EmptyBlock, ApplyLine);
  }

  /**
   * When a block emits: against the counter value `tracker`, the lines of a
   * block that scans without error emit exactly when one of them is a
   * `physical id` line whose number differs from `tracker`.
   */
  lemma LinesEmitWhen(lines: seq<string>, tracker: int)
    requires ScanLines(lines).Ok?
    ensures Emits(ScanLines(lines).value.physicalIds, tracker) <==>
      exists j :: 0 <= j < |lines| && PhysicalIdLine(lines[j]).Some? && PhysicalIdLine(lines[j]).value != tracker
  {
    var ids := ScanLines(lines).value.physicalIds;
    assert ids == IdsOfLines(lines);
    if Emits(ids, tracker) {
      var i :| 0 <= i < |ids| && ids[i] != tracker;
      Scan.CollectMembers(lines, PhysicalIdLine, ids[i]);
      var j :| 0 <= j < |lines| && PhysicalIdLine(lines[j]) == Some(ids[i]);
    }
    if exists j :: 0 <= j < |lines| && PhysicalIdLine(lines[j]).Some? && PhysicalIdLine(lines[j]).value != tracker {
      var j :| 0 <= j < |lines| && PhysicalIdLine(lines[j]).Some? && PhysicalIdLine(lines[j]).value != tracker;
      var v := PhysicalIdLine(lines[j]).value;
      Scan.CollectMembers(lines, PhysicalIdLine, v);
      var i :| 0 <= i < |ids| && ids[i] == v;
    }
  }

  /** A block without a `physical id` line never emits, whatever the counter. */
  lemma NoPhysicalIdNeverEmits(lines: seq<string>, tracker: int)
    requires ScanLines(lines).Ok?
    requires forall line :: line in lines ==> PhysicalIdLine(line).None?
    ensures !Emits(ScanLines(lines).value.physicalIds, tracker)
  {
    LinesEmitWhen(lines, tracker);
    forall j | 0 <= j < |lines| ensures PhysicalIdLine(lines[j]).None? {
      assert lines[j] in lines;
    }
  }

  // ---------------------------------------------------------------------------
  // All blocks

  /**
   * The blocks scanned in order, each on its own: `Scan.MapAll` gives each
   * block's own scan when none fails, so nothing set by one block reaches
   * another (the source builds a fresh `CPU` per block), and otherwise the
   * error of the first failing block.
   */
  function ScanBlocks(blocks: seq<string>): (r: Result<seq<BlockInfo>, ParseError>)
    ensures r.Ok? ==> |r.value| == |blocks|
    ensures r.Ok? ==> forall i :: 0 <= i < |blocks| ==> ScanBlock(blocks[i]) == Ok(r.value[i])
    ensures r.Err? ==>
      exists i :: 0 <= i < |blocks| && ScanBlock(blocks[i]) == Err(r.error) && (forall k :: 0 <= k < i ==> ScanBlock(blocks[k]).Ok?)
  {
    Scan.MapAll(blocks, ScanBlock)
  }

  /** The `physical id` values of each block, in block order. */
  function PhysicalIdsOf(infos: seq<BlockInfo>): (idss: seq<seq<int>>)
    ensures |idss| == |infos|
    ensures forall i :: 0 <= i < |infos| ==> idss[i] == infos[i].physicalIds
  {
    seq(|infos|, i requires 0 <= i < |infos| => infos[i].physicalIds)
  }

  // ---------------------------------------------------------------------------
  // Emission

  /**
   * What emission adds to a block's record: the three clock speeds of its
   * core, and the load sampler's state after one call from "no baseline",
   * which consumes jiffies reads `2 k` and `2 k + 1` for the `k`-th socket.
   */
  function Probe(core: Core, k: nat, sysfs: Clock.Sysfs, stat: nat -> Load.Jiffies): (c: Core)
    ensures SameText(c, core)
    ensures c.maxClockSpeedMHz == Clock.MaxClockSpeedMHz(sysfs, core.coreId)
    ensures c.minClockSpeedMHz == Clock.MinClockSpeedMHz(sysfs, core.coreId)
    ensures c.regularClockSpeedMHz == Clock.RegularClockSpeedMHz(sysfs, core.coreId)
    ensures Load.Jiffies(c.lastSumAllJiffies, c.lastSumWorkJiffies) == stat(2 * k + 1)
  {
    var w := Load.Sample(Load.NoBaseline, stat(2 * k), stat(2 * k + 1));
    core.(maxClockSpeedMHz := Clock.MaxClockSpeedMHz(sysfs, core.coreId),
          minClockSpeedMHz := Clock.MinClockSpeedMHz(sysfs, core.coreId),
          regularClockSpeedMHz := Clock.RegularClockSpeedMHz(sysfs, core.coreId),
          lastSumAllJiffies := w.end.all,
          lastSumWorkJiffies := w.end.work)
  }

  /** The sockets emitted by blocks `g`, in order, numbered from 0. */
  function SocketsAt(infos: seq<BlockInfo>, g: seq<nat>, sysfs: Clock.Sysfs, stat: nat -> Load.Jiffies): (ss: seq<Socket>)
    requires forall j :: 0 <= j < |g| ==> g[j] < |infos|
    ensures |ss| == |g|
    ensures forall j :: 0 <= j < |g| ==> ss[j] == Socket(j, Probe(infos[g[j]].core, j, sysfs, stat))
  {
    seq(|g|, j requires 0 <= j < |g| => Socket(j, Probe(infos[g[j]].core, j, sysfs, stat)))
  }

  /**
   * The sockets of a text cut into blocks, as written: the first malformed
   * number, or else one socket per block that `EmittingBlocks` picks,
   * numbered 0, 1, ... in emission order.
   */
  function SocketsOf(blocks: seq<string>, sysfs: Clock.Sysfs, stat: nat -> Load.Jiffies): (r: Result<seq<Socket>, ParseError>)
    ensures r.Ok? ==> forall j :: 0 <= j < |r.value| ==> r.value[j].id == j
  {
    match ScanBlocks(blocks)
    case Err(e) => Err(e)
    case Ok(infos) => Ok(Emitted(infos, sysfs, stat))
  }

  /** The sockets that scanned blocks emit under the rule as written. */
  function Emitted(infos: seq<BlockInfo>, sysfs: Clock.Sysfs, stat: nat -> Load.Jiffies): (ss: seq<Socket>)
    ensures |ss| == |EmittingBlocks(PhysicalIdsOf(infos))| <= |infos|
    ensures forall j :: 0 <= j < |ss| ==> ss[j].id == j
    ensures forall j :: 0 <= j < |ss| ==> SameText(ss[j].core, infos[EmittingBlocks(PhysicalIdsOf(infos))[j]].core)
  {
    SocketsAt(infos, EmittingBlocks(PhysicalIdsOf(infos)), sysfs, stat)
  }

  /**
   * One more block adds a socket, numbered next and holding the block's
   * probed record, exactly when the block emits against the counter (the
   * last socket's number, -1 before the first); otherwise the sockets stay
   * as they were.
   */
  lemma EmittedSnoc(infos: seq<BlockInfo>, info: BlockInfo, sysfs: Clock.Sysfs, stat: nat -> Load.Jiffies)
    ensures var n := |Emitted(infos, sysfs, stat)|;
      Emitted(infos + [info], sysfs, stat) ==
        if Emits(info.physicalIds, n - 1)
        then Emitted(infos, sysfs, stat) + [Socket(n, Probe(info.core, n, sysfs, stat))]
        else Emitted(infos, sysfs, stat)
  {
    EmittingBlocksSnoc(PhysicalIdsOf(infos), info.physicalIds);
    PhysicalIdsOfSnoc(infos, info);
    SocketsAtExtend(infos, info, EmittingBlocks(PhysicalIdsOf(infos)), sysfs, stat);
  }

  /**
   * `getAllSockets` as written: no sockets when the file cannot be opened,
   * else the sockets of its blank-line separated blocks.
   */
  function ParseCpuInfo(file: Option<string>, sysfs: Clock.Sysfs, stat: nat -> Load.Jiffies): (r: Result<seq<Socket>, ParseError>)
    ensures file.None? ==> r == Ok([])
    ensures r.Ok? ==> forall j :: 0 <= j < |r.value| ==> r.value[j].id == j
  {
    match file
    case None => Ok([])
    case Some(text) => SocketsOf(Split(text, "\n\n"), sysfs, stat)
  }

  /** Socket `s`, the `j`-th emitted, holds the probed record of block `i`. */
  predicate OwnBlock(blocks: seq<string>, i: int, s: Socket, j: nat, sysfs: Clock.Sysfs, stat: nat -> Load.Jiffies) {
    0 <= i < |blocks| && ScanBlock(blocks[i]).Ok? && s.core == Probe(ScanBlock(blocks[i]).value.core, j, sysfs, stat)
  }

  /** The `j`-th socket of `ss` holds the probed record of block `g[j]`. */
  predicate FromOwnBlocks(blocks: seq<string>, g: seq<nat>, ss: seq<Socket>, sysfs: Clock.Sysfs, stat: nat -> Load.Jiffies) {
    |g| == |ss| && forall j :: 0 <= j < |ss| ==> OwnBlock(blocks, g[j], ss[j], j, sysfs, stat)
  }

  /**
   * No leakage: the `j`-th socket's core is the probed record of the `j`-th
   * emitting block, scanned on its own.
   */
  lemma SocketsFromOwnBlocks(blocks: seq<string>, sysfs: Clock.Sysfs, stat: nat -> Load.Jiffies)
    requires SocketsOf(blocks, sysfs, stat).Ok?
    ensures ScanBlocks(blocks).Ok?
    ensures FromOwnBlocks(blocks, EmittingBlocks(PhysicalIdsOf(ScanBlocks(blocks).value)), SocketsOf(blocks, sysfs, stat).value, sysfs, stat)
  {
    var infos := ScanBlocks(blocks).value;
    var g := EmittingBlocks(PhysicalIdsOf(infos));
    var ss := SocketsOf(blocks, sysfs, stat).value;
    assert ss == SocketsAt(infos, g, sysfs, stat);
    forall j | 0 <= j < |ss|
      ensures OwnBlock(blocks, g[j], ss[j], j, sysfs, stat)
    {
      assert ScanBlock(blocks[g[j]]) == Ok(infos[g[j]]);
    }
  }

  /**
   * The sockets with the grouping rule evidently intended: one socket per
   * distinct `physical id`, in first-appearance order.
   */
  function SocketsOfIntended(blocks: seq<string>, sysfs: Clock.Sysfs, stat: nat -> Load.Jiffies): (r: Result<seq<Socket>, ParseError>)
    ensures r.Ok? ==> forall j :: 0 <= j < |r.value| ==> r.value[j].id == j
  {
    match ScanBlocks(blocks)
    case Err(e) => Err(e)
    case Ok(infos) => Ok(SocketsAt(infos, EmittingBlocksDistinct(PhysicalIdsOf(infos)), sysfs, stat))
  }

  /**
   * With at most one `physical id` line per block, the intended rule emits
   * exactly one socket per distinct physical id in the text.
   */
  lemma IntendedSocketCount(blocks: seq<string>, sysfs: Clock.Sysfs, stat: nat -> Load.Jiffies)
    requires ScanBlocks(blocks).Ok?
    requires forall i :: 0 <= i < |ScanBlocks(blocks).value| ==> |ScanBlocks(blocks).value[i].physicalIds| <= 1
    ensures SocketsOfIntended(blocks, sysfs, stat).Ok?
    ensures |SocketsOfIntended(blocks, sysfs, stat).value| == |Seen(PhysicalIdsOf(ScanBlocks(blocks).value))|
  {
    DistinctCount(PhysicalIdsOf(ScanBlocks(blocks).value));
  }

  /**
   * Where packages are numbered 0, 1, ... and listed in order, the rule as
   * written and the intended one agree.
   */
  lemma IntendedAgreesOnContiguous(blocks: seq<string>, sysfs: Clock.Sysfs, stat: nat -> Load.Jiffies)
    requires ScanBlocks(blocks).Ok?
    requires Contiguous(PhysicalIdsOf(ScanBlocks(blocks).value))
    ensures SocketsOfIntended(blocks, sysfs, stat) == SocketsOf(blocks, sysfs, stat)
  {
    RulesAgreeOnContiguous(PhysicalIdsOf(ScanBlocks(blocks).value));
  }

  // ---------------------------------------------------------------------------
  // The source's loops

  /**
   * `getAllSockets`, step by step: a pass over the blocks with the counter
   * `physicalId` and the flag `nextAdd`; `FillCpu` is its pass over one
   * block's lines and `ProbeCpu` the probing of an emitted block's record.
   * It computes exactly `ParseCpuInfo`.
   */
  method GetAllSockets(file: Option<string>, sysfs: Clock.Sysfs, stat: nat -> Load.Jiffies)
    returns (result: Result<seq<Socket>, ParseError>)
    ensures result == ParseCpuInfo(file, sysfs, stat)
    ensures file.None? ==> result == Ok([])
    ensures result.Ok? ==> forall j :: 0 <= j < |result.value| ==> result.value[j].id == j
  {
    if file.None? {
      return Ok([]);
    }
    var blocks := Split(file.value, "\n\n");
    var sockets: seq<Socket> := [];
    var physicalId := -1;
    ghost var infos: seq<BlockInfo> := [];
    var i := 0;
    while i < |blocks|
      invariant 0 <= i <= |blocks|
      invariant ScanBlocks(blocks[..i]) == Ok(infos)
      invariant sockets == Emitted(infos, sysfs, stat)
      invariant physicalId == |sockets| - 1
    {
      var filled, nextAdd := FillCpu(blocks[i], physicalId);
      if filled.Err? {
        Scan.MapAllFailsAt(blocks, i, ScanBlock);
        return Err(filled.error);
      }
      var cpu := filled.value;
      ghost var info := ScanBlock(blocks[i]).value;
      Scan.MapAllStep(blocks, i, ScanBlock);
      EmittedSnoc(infos, info, sysfs, stat);
      if nextAdd {
        cpu := ProbeCpu(cpu, |sockets|, sysfs, stat);
        nextAdd := false;
        physicalId := physicalId + 1;
        sockets := sockets + [Socket(physicalId, cpu)];
      }
      infos := infos + [info];
      i := i + 1;
    }
    assert blocks[..i] == blocks;
    return Ok(sockets);
  }

  /**
   * The pass over one block's lines: a fresh record filled field by field,
   * and `nextAdd` raised at a `physical id` other than the counter
   * `physicalId`. It computes exactly `ScanBlock`, and raises `nextAdd`
   * exactly when the block emits.
   */
  method FillCpu(block: string, physicalId: int) returns (result: Result<Core, ParseError>, nextAdd: bool)
    ensures result.Err? ==> ScanBlock(block) == Err(result.error)
    ensures result.Ok? ==> ScanBlock(block).Ok? && result.value == ScanBlock(block).value.core
    ensures result.Ok? ==> (nextAdd <==> Emits(ScanBlock(block).value.physicalIds, physicalId))
  {
    nextAdd := false;
    var cpu := FreshCore;
    ghost var ids: seq<int> := [];
    var lines := Split(block, "\n");
    var j := 0;
    while j < |lines|
      invariant 0 <= j <= |lines|
      invariant ScanLines(lines[..j]) == Ok(BlockInfo(cpu, ids))
      invariant nextAdd <==> Emits(ids, physicalId)
    {
      var filled, newIds, raised := FillLine(cpu, ids, nextAdd, physicalId, lines[j]);
      if filled.Err? {
        Scan.FoldFailsAt(lines, j, EmptyBlock, ApplyLine);
        return Err(filled.error), false;
      }
      ScanLinesSnoc(lines[..j], lines[j], BlockInfo(cpu, ids), BlockInfo(filled.value, newIds));
      assert lines[..j + 1] == lines[..j] + [lines[j]];
      cpu, ids, nextAdd := filled.value, newIds, raised;
      j := j + 1;
    }
    assert lines[..j] == lines;
    return Ok(cpu), nextAdd;
  }

  /**
   * One line of a block applied to the record being filled: a line without
   * a colon changes nothing; otherwise the name before the first colon and
   * the value after it, both stripped, set a field. It computes exactly
   * `ApplyLine`.
   */
  method FillLine(cpu: Core, ghost ids: seq<int>, nextAdd: bool, physicalId: int, line: string)
    returns (result: Result<Core, ParseError>, ghost newIds: seq<int>, raised: bool)
    requires nextAdd <==> Emits(ids, physicalId)
    ensures result.Err? ==> ApplyLine(BlockInfo(cpu, ids), line) == Err(result.error)
    ensures result.Ok? ==> ApplyLine(BlockInfo(cpu, ids), line) == Ok(BlockInfo(result.value, newIds))
    ensures result.Ok? ==> (raised <==> Emits(newIds, physicalId))
  {
    var pieces := Split(line, ":");
    if |pieces| >= 2 {
      var name := Strip(pieces[0]);
      var value := Strip(pieces[1]);
      result, newIds, raised := FillField(cpu, ids, nextAdd, physicalId, name, value);
    } else {
      result, newIds, raised := Ok(cpu), ids, nextAdd;
    }
  }

  /**
   * One `name : value` line applied to the record being filled: the field
   * it names is set (a number through `std::stoi`, whose failure ends the
   * parse), a `physical id` other than the counter raises `nextAdd`, and
   * any other name leaves everything as it was. It computes exactly
   * `ApplyField`.
   */
  method FillField(cpu: Core, ghost ids: seq<int>, nextAdd: bool, physicalId: int, name: string, value: string)
    returns (result: Result<Core, ParseError>, ghost newIds: seq<int>, raised: bool)
    requires nextAdd <==> Emits(ids, physicalId)
    ensures result.Err? ==> ApplyField(BlockInfo(cpu, ids), Field(name, value)) == Err(result.error)
    ensures result.Ok? ==> ApplyField(BlockInfo(cpu, ids), Field(name, value)) == Ok(BlockInfo(result.value, newIds))
    ensures result.Ok? ==> (raised <==> Emits(newIds, physicalId))
  {
    newIds, raised := ids, nextAdd;
    if name == "processor" {
      var n := ParseInt(value);
      if n.None? {
        return Err(MalformedNumber(name, value)), newIds, false;
      }
      result := Ok(cpu.(coreId := n.value));
    } else if name == "vendor_id" {
      result := Ok(cpu.(vendor := value));
    } else if name == "model name" {
      result := Ok(cpu.(modelName := value));
    } else if name == "cache size" {
      var n := ParseInt(Split(value, " ")[0]);
      if n.None? {
        return Err(MalformedNumber(name, value)), newIds, false;
      }
      result := Ok(cpu.(cacheSizeBytes := n.value * 1024));
    } else if name == "physical id" {
      var n := ParseInt(value);
      if n.None? {
        return Err(MalformedNumber(name, value)), newIds, false;
      }
      newIds := ids + [n.value];
      EmitsSnoc(ids, n.value, physicalId);
      if physicalId != n.value {
        raised := true;
      }
      result := Ok(cpu);
    } else if name == "siblings" {
      var n := ParseInt(value);
      if n.None? {
        return Err(MalformedNumber(name, value)), newIds, false;
      }
      result := Ok(cpu.(numLogicalCores := n.value));
    } else if name == "cpu cores" {
      var n := ParseInt(value);
      if n.None? {
        return Err(MalformedNumber(name, value)), newIds, false;
      }
      result := Ok(cpu.(numPhysicalCores := n.value));
    } else if name == "flags" {
      result := Ok(cpu.(flags := Split(value, " ")));
    } else {
      result := Ok(cpu);
    }
  }

  /**
   * The probing of an emitted block's record, the `k`-th socket: its three
   * clock speeds, then one load sample from "no baseline" on a fresh
   * sampler, whose stored sums are copied back.
   */
  method ProbeCpu(cpu: Core, k: nat, sysfs: Clock.Sysfs, stat: nat -> Load.Jiffies) returns (probed: Core)
    ensures probed == Probe(cpu, k, sysfs, stat)
  {
    probed := cpu;
    probed := probed.(maxClockSpeedMHz := Clock.MaxClockSpeedMHz(sysfs, probed.coreId));
    probed := probed.(minClockSpeedMHz := Clock.MinClockSpeedMHz(sysfs, probed.coreId));
    probed := probed.(regularClockSpeedMHz := Clock.RegularClockSpeedMHz(sysfs, probed.coreId));
    var sampler := new Load.CPU();
    var load, baselineRead := sampler.CurrentLoadPercentage(stat(2 * k), stat(2 * k + 1));
    probed := probed.(lastSumAllJiffies := sampler.lastSumAllJiffies, lastSumWorkJiffies := sampler.lastSumWorkJiffies);
  }

  /** One more `physical id` value: the block emits if it already did or the value differs. */
  lemma EmitsSnoc(ids: seq<int>, v: int, tracker: int)
    ensures Emits(ids + [v], tracker) <==> Emits(ids, tracker) || v != tracker
  {
    var s := ids + [v];
    if Emits(ids, tracker) {
      var i :| 0 <= i < |ids| && ids[i] != tracker;
      assert s[i] == ids[i];
    }
    if v != tracker {
      assert s[|ids|] == v;
    }
    if Emits(s, tracker) {
      var i :| 0 <= i < |s| && s[i] != tracker;
      if i < |ids| {
        assert ids[i] == s[i];
      }
    }
  }

  /** One more block adds its ids at the end. */
  lemma PhysicalIdsOfSnoc(infos: seq<BlockInfo>, info: BlockInfo)
    ensures PhysicalIdsOf(infos + [info]) == PhysicalIdsOf(infos) + [info.physicalIds]
  {
    var l := PhysicalIdsOf(infos + [info]);
    var r := PhysicalIdsOf(infos) + [info.physicalIds];
    forall i | 0 <= i < |l| ensures l[i] == r[i] {
      if i < |infos| {
        assert (infos + [info])[i] == infos[i];
      }
    }
  }

  /** Adding a block keeps the sockets of the earlier ones, and emitting it appends one. */
  lemma SocketsAtExtend(infos: seq<BlockInfo>, info: BlockInfo, g: seq<nat>, sysfs: Clock.Sysfs, stat: nat -> Load.Jiffies)
    requires forall j :: 0 <= j < |g| ==> g[j] < |infos|
    ensures SocketsAt(infos + [info], g, sysfs, stat) == SocketsAt(infos, g, sysfs, stat)
    ensures SocketsAt(infos + [info], g + [|infos|], sysfs, stat) ==
      SocketsAt(infos, g, sysfs, stat) + [Socket(|g|, Probe(info.core, |g|, sysfs, stat))]
  {
    var g' := g + [|infos|];
    assert forall j :: 0 <= j < |g| ==> (infos + [info])[g[j]] == infos[g[j]];
    assert (infos + [info])[g'[|g|]] == info;
  }
}
