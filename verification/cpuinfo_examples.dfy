/**
 * Worked examples of the whole parse, from the text of `/proc/cpuinfo` to
 * the sockets: blocks that hold one `physical id` line each, the way the
 * kernel writes it ("physical id<TAB>: 0").
 */
module CpuInfoExamples {
  import opened Wrappers
  import opened Text
  import opened Grouping
  import opened CpuInfo
  import GroupingExamples
  import Scan
  import Clock
  import Load

  /** A line as the kernel writes it: `name<TAB>: value`. */
  function Rendered(name: string, value: string): string {
    name + "\t: " + value
  }

  /** A block holding a single `physical id` line. */
  function IdBlock(v: nat): string {
    Rendered("physical id", Decimal(v))
  }

  /** The decimal digits of a number contain neither a colon, nor a line break, nor edge white space. */
  lemma DecimalPlain(v: nat)
    ensures ':' !in Decimal(v) && '\n' !in Decimal(v) && Trimmed(Decimal(v))
  {
    var d := Decimal(v);
    assert forall c :: c in d ==> IsDigit(c) by {
      forall c | c in d ensures IsDigit(c) {
        var i :| 0 <= i < |d| && d[i] == c;
      }
    }
  }

  lemma IdBlockOneLine(v: nat)
    ensures '\n' !in IdBlock(v)
    ensures Split(IdBlock(v), "\n") == [IdBlock(v)]
  {
    DecimalPlain(v);
    var b := IdBlock(v);
    assert '\n' !in b by {
      forall i | 0 <= i < |b| ensures b[i] != '\n' {
        if i >= |"physical id" + "\t: "| {
          assert b[i] == Decimal(v)[i - |"physical id" + "\t: "|];
        }
      }
    }
    SplitWhole(b, "\n");
  }

  /** A `physical id` block scans to a fresh record carrying that one id. */
  lemma IdBlockScans(v: nat)
    requires v <= IntMax
    ensures ScanBlock(IdBlock(v)) == Ok(BlockInfo(FreshCore, [v]))
  {
    var line := IdBlock(v);
    IdLineApplies(v);
    assert ScanLines([line]) == Ok(BlockInfo(FreshCore, [v])) by {
      Scan.FoldSnoc([], line, EmptyBlock, ApplyLine);
      assert [] + [line] == [line];
    }
    IdBlockOneLine(v);
  }

  /** The `physical id` line reads as that field, its value the digits. */
  lemma IdLineParses(v: nat)
    ensures ParseLine(IdBlock(v)) == Some(Field("physical id", Decimal(v)))
  {
    DecimalPlain(v);
    ParseLineRendered("physical id", Decimal(v));
  }

  /** The digits of a number in `int` range read back as that number. */
  lemma DecimalParses(v: nat)
    requires v <= IntMax
    ensures ParseInt(Decimal(v)) == Some(v)
  {
    ParseIntDecimal(v, false, "");
    assert (if false then "-" else "") + Decimal(v) + "" == Decimal(v);
  }

  /** The `physical id` line, applied to a fresh record, records its number. */
  lemma IdLineApplies(v: nat)
    requires v <= IntMax
    ensures ApplyLine(EmptyBlock, IdBlock(v)) == Ok(BlockInfo(FreshCore, [v]))
  {
    var f := Field("physical id", Decimal(v));
    IdLineParses(v);
    DecimalParses(v);
    ApplyFieldFails(EmptyBlock, f);
    assert ApplyLine(EmptyBlock, IdBlock(v)) == ApplyField(EmptyBlock, f);
    assert [] + [v] == [v];
  }

  /** Two items, alternating, each mapped cleanly: their values, alternating. */
  lemma MapAllAlternating<X, T, E>(a: X, b: X, f: X -> Result<T, E>, ta: T, tb: T)
    requires f(a) == Ok(ta) && f(b) == Ok(tb)
    ensures Scan.MapAll([a, b, a, b], f) == Ok([ta, tb, ta, tb])
  {
    var items := [a, b, a, b];
    var r := Scan.MapAll(items, f);
    assert r.Ok?;
    assert f(items[0]) == Ok(r.value[0]) && f(items[1]) == Ok(r.value[1]);
    assert f(items[2]) == Ok(r.value[2]) && f(items[3]) == Ok(r.value[3]);
    assert r.value == [ta, tb, ta, tb];
  }

  /** Two blocks, alternating, scan to their two records alternating. */
  lemma AlternatingScans(a: string, b: string, ia: BlockInfo, ib: BlockInfo)
    requires ScanBlock(a) == Ok(ia) && ScanBlock(b) == Ok(ib)
    ensures ScanBlocks([a, b, a, b]) == Ok([ia, ib, ia, ib])
  {
    MapAllAlternating(a, b, ScanBlock, ia, ib);
  }

  /** Two one-line blocks, alternating and joined by blank lines, cut back into those blocks. */
  lemma AlternatingBlocks(a: string, b: string)
    requires '\n' !in a && '\n' !in b
    ensures Split(Join([a, b, a, b], "\n\n"), "\n\n") == [a, b, a, b]
  {
    var d := "\n\n";
    assert d[0] == '\n';
    SplitJoin([a, b, a, b], d);
  }

  /** The blocks of two packages, 0 and 1, alternating. */
  const Interleaved: seq<string> := [IdBlock(0), IdBlock(1), IdBlock(0), IdBlock(1)]

  /** Their text, joined by blank lines, cuts back into those blocks. */
  lemma InterleavedBlocks()
    ensures Split(Join(Interleaved, "\n\n"), "\n\n") == Interleaved
  {
    IdBlockOneLine(0);
    IdBlockOneLine(1);
    AlternatingBlocks(IdBlock(0), IdBlock(1));
  }

  /** Each block records its one id. */
  lemma InterleavedScans()
    ensures ScanBlocks(Interleaved) ==
      Ok([BlockInfo(FreshCore, [0]), BlockInfo(FreshCore, [1]), BlockInfo(FreshCore, [0]), BlockInfo(FreshCore, [1])])
  {
    IdBlockScans(0);
    IdBlockScans(1);
    AlternatingScans(IdBlock(0), IdBlock(1), BlockInfo(FreshCore, [0]), BlockInfo(FreshCore, [1]));
  }

  /** The ids of alternating records alternate. */
  lemma AlternatingIds(ia: BlockInfo, ib: BlockInfo)
    ensures PhysicalIdsOf([ia, ib, ia, ib]) == [ia.physicalIds, ib.physicalIds, ia.physicalIds, ib.physicalIds]
  {
    var idss := PhysicalIdsOf([ia, ib, ia, ib]);
    assert idss[0] == ia.physicalIds && idss[1] == ib.physicalIds;
    assert idss[2] == ia.physicalIds && idss[3] == ib.physicalIds;
  }

  /** The scanned records of the alternating blocks carry the ids 0, 1, 0, 1. */
  lemma InterleavedIdsOf()
    ensures ScanBlocks(Interleaved).Ok?
    ensures PhysicalIdsOf(ScanBlocks(Interleaved).value) == [[0], [1], [0], [1]]
  {
    InterleavedScans();
    AlternatingIds(BlockInfo(FreshCore, [0]), BlockInfo(FreshCore, [1]));
  }

  /**
   * The text of two packages, 0 and 1, whose blocks alternate (ids 0, 1, 0,
   * 1): four sockets under the rule as written.
   */
  lemma InterleavedTextAsWritten(sysfs: Clock.Sysfs, stat: nat -> Load.Jiffies)
    ensures ParseCpuInfo(Some(Join(Interleaved, "\n\n")), sysfs, stat).Ok?
    ensures |ParseCpuInfo(Some(Join(Interleaved, "\n\n")), sysfs, stat).value| == 4
  {
    InterleavedBlocks();
    InterleavedIdsOf();
    GroupingExamples.InterleavedIds(0, 1);
  }

  /** The same blocks give two sockets under the intended rule. */
  lemma InterleavedIntended(sysfs: Clock.Sysfs, stat: nat -> Load.Jiffies)
    ensures SocketsOfIntended(Interleaved, sysfs, stat).Ok?
    ensures |SocketsOfIntended(Interleaved, sysfs, stat).value| == 2
  {
    InterleavedIdsOf();
    GroupingExamples.InterleavedIdsDistinct(0, 1);
  }

  // ---------------------------------------------------------------------------
  // A block with every recognised field but `physical id`

  /** A value the kernel prints on one line: no colon, no line break, no edge white space. */
  predicate PlainValue(v: string) {
    Trimmed(v) && ':' !in v && '\n' !in v
  }

  /** The lines of one processor's block, one line per recognised field but `physical id`. */
  function ProcessorLines(id: nat, vendor: string, model: string, cacheKB: nat, siblings: nat, cores: nat, flags: string): seq<string> {
    [Rendered("processor", Decimal(id))] +
    [Rendered("vendor_id", vendor)] +
    [Rendered("model name", model)] +
    [Rendered("cache size", Decimal(cacheKB) + " KB")] +
    [Rendered("siblings", Decimal(siblings))] +
    [Rendered("cpu cores", Decimal(cores))] +
    [Rendered("flags", flags)]
  }

  /** A rendered line of plain parts reads as that field, applied to any record. */
  lemma RenderedApplies(info: BlockInfo, name: string, value: string)
    requires Trimmed(name) && Trimmed(value) && ':' !in name && ':' !in value
    ensures ApplyLine(info, Rendered(name, value)) == ApplyField(info, Field(name, value))
  {
    ParseLineRendered(name, value);
  }

  /** The cache size value, `<digits> KB`, is plain. */
  lemma CacheValuePlain(kb: nat)
    ensures PlainValue(Decimal(kb) + " KB")
  {
    DecimalPlain(kb);
    var v := Decimal(kb) + " KB";
    assert v[0] == Decimal(kb)[0] && v[|v| - 1] == 'B';
    assert !IsSpace(v[0]) by {
      assert IsDigit(Decimal(kb)[0]);
    }
  }

  /** A number field whose value is the decimal digits of an `int`. */
  lemma NumberLine(info: BlockInfo, name: string, v: nat)
    requires Trimmed(name) && ':' !in name && v <= IntMax
    ensures ApplyLine(info, Rendered(name, Decimal(v))) == ApplyField(info, Field(name, Decimal(v)))
    ensures ParseInt(Decimal(v)) == Some(v)
  {
    DecimalPlain(v);
    DecimalParses(v);
    RenderedApplies(info, name, Decimal(v));
  }

  /** Each line of a processor's block sets its own member of the record. */
  lemma ProcessorStep(info: BlockInfo, id: nat)
    requires id <= IntMax
    ensures ApplyLine(info, Rendered("processor", Decimal(id))) == Ok(info.(core := info.core.(coreId := id)))
  {
    NumberLine(info, "processor", id);
  }

  lemma VendorStep(info: BlockInfo, vendor: string)
    requires PlainValue(vendor)
    ensures ApplyLine(info, Rendered("vendor_id", vendor)) == Ok(info.(core := info.core.(vendor := vendor)))
  {
    RenderedApplies(info, "vendor_id", vendor);
  }

  lemma ModelStep(info: BlockInfo, model: string)
    requires PlainValue(model)
    ensures ApplyLine(info, Rendered("model name", model)) == Ok(info.(core := info.core.(modelName := model)))
  {
    RenderedApplies(info, "model name", model);
  }

  lemma CacheStep(info: BlockInfo, kb: nat)
    requires kb <= IntMax
    ensures ApplyLine(info, Rendered("cache size", Decimal(kb) + " KB")) == Ok(info.(core := info.core.(cacheSizeBytes := kb * 1024)))
  {
    CacheValuePlain(kb);
    CacheSizeOfDecimal(kb, "KB");
    assert Decimal(kb) + " KB" == Decimal(kb) + " " + "KB";
    RenderedApplies(info, "cache size", Decimal(kb) + " KB");
  }

  lemma SiblingsStep(info: BlockInfo, siblings: nat)
    requires siblings <= IntMax
    ensures ApplyLine(info, Rendered("siblings", Decimal(siblings))) == Ok(info.(core := info.core.(numLogicalCores := siblings)))
  {
    NumberLine(info, "siblings", siblings);
  }

  lemma CoresStep(info: BlockInfo, cores: nat)
    requires cores <= IntMax
    ensures ApplyLine(info, Rendered("cpu cores", Decimal(cores))) == Ok(info.(core := info.core.(numPhysicalCores := cores)))
  {
    NumberLine(info, "cpu cores", cores);
  }

  lemma FlagsStep(info: BlockInfo, flags: string)
    requires PlainValue(flags)
    ensures ApplyLine(info, Rendered("flags", flags)) == Ok(info.(core := info.core.(flags := Split(flags, " "))))
  {
    RenderedApplies(info, "flags", flags);
  }

  /** The lines of a processor's block hold no line break. */
  lemma ProcessorLinesOneLine(id: nat, vendor: string, model: string, cacheKB: nat, siblings: nat, cores: nat, flags: string)
    requires PlainValue(vendor) && PlainValue(model) && PlainValue(flags)
    ensures var lines := ProcessorLines(id, vendor, model, cacheKB, siblings, cores, flags);
      forall k :: 0 <= k < |lines| ==> '\n' !in lines[k]
  {
    DecimalPlain(id);
    DecimalPlain(siblings);
    DecimalPlain(cores);
    CacheValuePlain(cacheKB);
  }

  /**
   * A processor's block, its lines joined by line breaks, scans to a fresh
   * record with the core id, vendor, model name, cache size in bytes,
   * logical and physical core counts and flags each taken from its own
   * line, and no physical id.
   */
  lemma ProcessorBlockScans(id: nat, vendor: string, model: string, cacheKB: nat, siblings: nat, cores: nat, flags: string)
    requires id <= IntMax && cacheKB <= IntMax && siblings <= IntMax && cores <= IntMax
    requires PlainValue(vendor) && PlainValue(model) && PlainValue(flags)
    ensures ScanBlock(Join(ProcessorLines(id, vendor, model, cacheKB, siblings, cores, flags), "\n")) ==
      Ok(BlockInfo(FreshCore.(coreId := id, vendor := vendor, modelName := model, cacheSizeBytes := cacheKB * 1024,
                              numLogicalCores := siblings, numPhysicalCores := cores, flags := Split(flags, " ")), []))
  {
    var lines := ProcessorLines(id, vendor, model, cacheKB, siblings, cores, flags);
    var b0 := EmptyBlock;
    var b1 := b0.(core := b0.core.(coreId := id));
    var b2 := b1.(core := b1.core.(vendor := vendor));
    var b3 := b2.(core := b2.core.(modelName := model));
    var b4 := b3.(core := b3.core.(cacheSizeBytes := cacheKB * 1024));
    var b5 := b4.(core := b4.core.(numLogicalCores := siblings));
    var b6 := b5.(core := b5.core.(numPhysicalCores := cores));
    var b7 := b6.(core := b6.core.(flags := Split(flags, " ")));
    var l0 := [Rendered("processor", Decimal(id))];
    assert ScanLines([]) == Ok(b0);
    ProcessorStep(b0, id);
    ScanLinesSnoc([], Rendered("processor", Decimal(id)), b0, b1);
    assert [] + l0 == l0;
    VendorStep(b1, vendor);
    ScanLinesSnoc(l0, Rendered("vendor_id", vendor), b1, b2);
    var l1 := l0 + [Rendered("vendor_id", vendor)];
    ModelStep(b2, model);
    ScanLinesSnoc(l1, Rendered("model name", model), b2, b3);
    var l2 := l1 + [Rendered("model name", model)];
    CacheStep(b3, cacheKB);
    ScanLinesSnoc(l2, Rendered("cache size", Decimal(cacheKB) + " KB"), b3, b4);
    var l3 := l2 + [Rendered("cache size", Decimal(cacheKB) + " KB")];
    SiblingsStep(b4, siblings);
    ScanLinesSnoc(l3, Rendered("siblings", Decimal(siblings)), b4, b5);
    var l4 := l3 + [Rendered("siblings", Decimal(siblings))];
    CoresStep(b5, cores);
    ScanLinesSnoc(l4, Rendered("cpu cores", Decimal(cores)), b5, b6);
    var l5 := l4 + [Rendered("cpu cores", Decimal(cores))];
    FlagsStep(b6, flags);
    ScanLinesSnoc(l5, Rendered("flags", flags), b6, b7);
    assert l5 + [Rendered("flags", flags)] == lines;
    ProcessorLinesOneLine(id, vendor, model, cacheKB, siblings, cores, flags);
    SplitJoin(lines, "\n");
  }
}
