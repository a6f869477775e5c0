/**
 * The computable parts of the SiFive L2 cache controller driver: the line
 * walk of a range flush, the filter on error-injection values, the decoding
 * of the configuration and way-enable registers, the choice of the private
 * sysfs group and the interrupt-request loop of probe.
 *
 * Register writes are recorded in a trace; register reads, the results of
 * platform_get_irq and devm_request_irq, and the value parsed from user
 * space are parameters.  Memory barriers order MMIO for the hardware and are
 * not modelled.
 */
module SifiveL2 {

  import opened Common

  const EINVAL: int := 22
  const ENODEV: int := 19

  // Register offsets from the controller base
  const RegConfig: nat := 0x00
  const RegWayEnable: nat := 0x08
  const RegEccInjectErr: nat := 0x40
  const RegFlush64: nat := 0x200
  const RegFlush32: nat := 0x240

  const MaxEccIntr: nat := 4
  const LineSize: nat := 64
  const PhysModulus: nat := 0x1_0000_0000_0000_0000

  /** The interrupt indices, in the order of the device-tree interrupts property. */
  const DirCorr: nat := 0
  const DataCorr: nat := 1
  const DataUncorr: nat := 2
  const DirUncorr: nat := 3

  /** One MMIO write: writel stores 32 bits, writeq 64. */
  datatype MmioWrite = Writel(reg: nat, value: nat) | Writeq(reg: nat, value: nat)

  // ---------------------------------------------------------------------------
  // sifive_l2_flush_range (sifive_l2_cache.c:122-140)
  // ---------------------------------------------------------------------------

  /** ALIGN_DOWN(x, SIFIVE_L2_LINE_SIZE). */
  function AlignDown(x: nat): (r: nat)
    ensures r % LineSize == 0 && r <= x < r + LineSize
  {
    x - x % LineSize
  }

  /** The line addresses the flush loop visits from line while line < end. */
  function LinesFrom(line: nat, end: nat): seq<nat>
    decreases end - line
  {
    if line >= end then [] else [line] + LinesFrom(line + LineSize, end)
  }

  /** The lines sifive_l2_flush_range flushes for [start, start + len). */
  function FlushLines(start: nat, len: nat): seq<nat>
  {
    if len == 0 then [] else LinesFrom(AlignDown(start), start + len)
  }

  /** The write that flushes one line: line >> 4 to FLUSH32 on 32-bit builds, the line to FLUSH64 otherwise. */
  function FlushWrite(is32Bit: bool, line: nat): MmioWrite
  {
    if is32Bit then Writel(RegFlush32, (line / 16) % U32Modulus) else Writeq(RegFlush64, line)
  }

  /** The writes that flush lines, in order. */
  function FlushTrace(is32Bit: bool, lines: seq<nat>): (t: seq<MmioWrite>)
    ensures |t| == |lines|
  {
    if lines == [] then [] else [FlushWrite(is32Bit, lines[0])] + FlushTrace(is32Bit, lines[1..])
  }

  /** The i-th write of the trace flushes the i-th line. */
  lemma {:induction false} FlushTraceAt(is32Bit: bool, lines: seq<nat>)
    ensures forall i :: 0 <= i < |lines| ==> FlushTrace(is32Bit, lines)[i] == FlushWrite(is32Bit, lines[i])
    decreases |lines|
  {
    if lines != [] {
      FlushTraceAt(is32Bit, lines[1..]);
    }
  }

  /** The i-th visited line is i lines past the first one, and all of them lie below end. */
  lemma {:induction false} LinesFromAt(line: nat, end: nat)
    ensures var ls := LinesFrom(line, end);
            && (line < end ==> |ls| == (end - line - 1) / LineSize + 1)
            && (line >= end ==> ls == [])
            && forall i :: 0 <= i < |ls| ==> ls[i] == line + i * LineSize && ls[i] < end
    decreases end - line
  {
    if line < end {
      LinesFromAt(line + LineSize, end);
      var ls := LinesFrom(line, end);
      var rest := LinesFrom(line + LineSize, end);
      assert ls == [line] + rest;
      forall i | 0 < i < |ls| ensures ls[i] == line + i * LineSize {
        assert ls[i] == rest[i - 1];
      }
    }
  }

  /** len == 0 flushes nothing. */
  lemma FlushEmptyRange(start: nat)
    ensures FlushLines(start, 0) == []
  {
  }

  /**
   * The first flushed line is start rounded down to a line boundary; each
   * next one is exactly one line further; every one is below start + len.
   */
  lemma FlushStepsByLine(start: nat, len: nat)
    requires len > 0
    ensures var ls := FlushLines(start, len);
            && |ls| > 0 && ls[0] == AlignDown(start)
            && (forall i :: 0 <= i < |ls| - 1 ==> ls[i + 1] == ls[i] + LineSize)
            && (forall i :: 0 <= i < |ls| ==> ls[i] % LineSize == 0 && ls[i] < start + len)
  {
    var ls := FlushLines(start, len);
    var a := AlignDown(start);
    LinesFromAt(a, start + len);
    forall i | 0 <= i < |ls| ensures ls[i] % LineSize == 0 {
      assert ls[i] == a + i * LineSize;
    }
  }

  /** Every line boundary whose line overlaps [start, start + len) is flushed, exactly once, and no other. */
  lemma FlushCoversEachOverlappingLineOnce(start: nat, len: nat, addr: nat)
    requires addr % LineSize == 0
    ensures addr in FlushLines(start, len) <==> len > 0 && start < addr + LineSize && addr < start + len
    ensures multiset(FlushLines(start, len))[addr] <= 1
  {
    if len > 0 {
      var ls := FlushLines(start, len);
      LinesFromAt(AlignDown(start), start + len);
      if start < addr + LineSize && addr < start + len {
        OverlappingLineFlushed(start, len, addr);
      }
      if addr in ls {
        var i :| 0 <= i < |ls| && ls[i] == addr;
      }
      StrictlyIncreasingOnce(ls, addr);
    }
  }

  /** A line boundary whose line overlaps a non-empty range is among the flushed lines. */
  lemma OverlappingLineFlushed(start: nat, len: nat, addr: nat)
    requires len > 0 && addr % LineSize == 0
    requires start < addr + LineSize && addr < start + len
    ensures addr in FlushLines(start, len)
  {
    var ls := FlushLines(start, len);
    var a := AlignDown(start);
    LinesFromAt(a, start + len);
    var k := (addr - a) / LineSize;
    AlignDownBelow(start, addr);
    assert addr == a + k * LineSize by { AlignedGap(a, addr); }
    assert k < |ls| by {
      assert (start + len - a - 1) / LineSize >= k by { DivMonotone(addr - a, start + len - a - 1); }
    }
    assert ls[k] == addr;
  }

  /** A line boundary whose line reaches past x is not below x rounded down. */
  lemma AlignDownBelow(x: nat, addr: nat)
    requires addr % LineSize == 0 && x < addr + LineSize
    ensures AlignDown(x) <= addr
  {
  }

  /** The gap between two line boundaries is a whole number of lines. */
  lemma AlignedGap(a: nat, b: nat)
    requires a % LineSize == 0 && b % LineSize == 0 && a <= b
    ensures b == a + ((b - a) / LineSize) * LineSize
  {
  }

  lemma DivMonotone(x: nat, y: nat)
    requires x <= y
    ensures x / LineSize <= y / LineSize
  {
  }

  /** In a list that rises by a line per step, a value occurs at most once. */
  lemma StrictlyIncreasingOnce(ls: seq<nat>, x: nat)
    requires forall i :: 0 <= i < |ls| ==> ls[i] == ls[0] + i * LineSize
    ensures multiset(ls)[x] <= 1
    decreases |ls|
  {
    if |ls| > 1 {
      var rest := ls[1..];
      assert forall i :: 0 <= i < |rest| ==> rest[i] == rest[0] + i * LineSize by {
        assert forall i :: 0 <= i < |rest| ==> rest[i] == ls[i + 1];
      }
      StrictlyIncreasingOnce(rest, x);
      assert ls == [ls[0]] + rest;
      assert ls[0] !in rest by {
        assert forall i :: 0 <= i < |rest| ==> rest[i] > ls[0];
      }
    }
  }

  // ---------------------------------------------------------------------------
  // l2_write (sifive_l2_cache.c:61-73)
  // ---------------------------------------------------------------------------

  /** The values l2_write lets through to the injection register. */
  predicate InjectAccepted(val: nat)
  {
    val < 0xFF || (0x10000 <= val < 0x100FF)
  }

  /**
   * An accepted value is a byte other than 0xFF, possibly with bit 16 set,
   * and nothing else.
   */
  lemma InjectAcceptedIsByteWithBit16(val: nat)
    requires val < U32Modulus
    ensures InjectAccepted(val) <==>
              (val / 0x100 == 0 || val / 0x100 == 0x100) && val % 0x100 != 0xFF
  {
  }

  // ---------------------------------------------------------------------------
  // l2_config_read, l2_largest_wayenabled, l2_get_priv_group
  // (sifive_l2_cache.c:90-106, 158-188)
  // ---------------------------------------------------------------------------

  /** The four byte-wide fields of the CONFIG register. */
  datatype L2Config = L2Config(banks: bv8, ways: bv8, setsLog2: bv8, blockLog2: bv8)

  /** The fields l2_config_read extracts with masks and shifts. */
  function DecodeConfig(regval: bv32): (c: L2Config)
    ensures c.banks as bv32 == regval % 0x100
    ensures c.ways as bv32 == regval / 0x100 % 0x100
    ensures c.setsLog2 as bv32 == regval / 0x1_0000 % 0x100
    ensures c.blockLog2 as bv32 == regval / 0x100_0000
  {
    L2Config((regval & 0xFF) as bv8, ((regval & 0xFF00) >> 8) as bv8,
             ((regval & 0xFF0000) >> 16) as bv8, ((regval & 0xFF000000) >> 24) as bv8)
  }

  /** The register value with the given fields. */
  function EncodeConfig(c: L2Config): bv32
  {
    (c.blockLog2 as bv32 << 24) | (c.setsLog2 as bv32 << 16) | (c.ways as bv32 << 8) | c.banks as bv32
  }

  /** Decoding loses nothing: the four fields rebuild the register. */
  lemma ConfigRoundTrip(regval: bv32)
    ensures EncodeConfig(DecodeConfig(regval)) == regval
  {
  }

  /** And any four bytes survive an encode followed by a decode. */
  lemma ConfigFieldsRoundTrip(c: L2Config)
    ensures DecodeConfig(EncodeConfig(c)) == c
  {
  }

  /** (uint64_t)1 << k: defined only for k below 64, where it is 2^k. */
  function U64Bit(k: bv8): (r: Option<bv64>)
    ensures r.Some? <==> k < 64
    ensures r.Some? ==> r.value as int == Bit(k as int)
  {
    if k < 64 then ShiftIsBit(k); Some((1 as bv64) << k) else None
  }

  /** Shifting one place further is shifting the previous result by one. */
  lemma ShiftStep(k: bv8)
    requires 0 < k < 64
    ensures (1 as bv64) << k == ((1 as bv64) << (k - 1)) << 1
  {
  }

  /** Below bit 63, the shifted one leaves the top bit clear. */
  lemma ShiftBound(k: bv8)
    requires k < 63
    ensures (1 as bv64) << k < 0x8000_0000_0000_0000
  {
  }

  /** Without a carry out of the top bit, a shift by one doubles. */
  lemma ShiftDoubles(x: bv64)
    requires x < 0x8000_0000_0000_0000
    ensures (x << 1) as int == 2 * x as int
  {
  }

  /** The 64-bit shift of 1 by k is BIT(k). */
  lemma {:induction false} ShiftIsBit(k: bv8)
    requires k < 64
    ensures ((1 as bv64) << k) as int == Bit(k as int)
    decreases k as int
  {
    if k > 0 {
      ShiftIsBit(k - 1);
      ShiftStep(k);
      ShiftBound(k - 1);
      ShiftDoubles((1 as bv64) << (k - 1));
      assert (k - 1) as int == k as int - 1;
    }
  }

  /** What l2_config_read reports; a field of 64 or more gives an undefined shift, None. */
  datatype ConfigReport = ConfigReport(banks: bv8, waysPerBank: bv8, setsPerBank: Option<bv64>,
                                       bytesPerBlock: Option<bv64>, largestWayEnabled: bv32)

  /** l2_config_read: decode CONFIG, and report WAYENABLE unmasked. */
  function ConfigRead(config: bv32, wayEnable: bv32): (r: ConfigReport)
    ensures r.banks as bv32 == config % 0x100 && r.waysPerBank as bv32 == config / 0x100 % 0x100
    ensures var k := config / 0x1_0000 % 0x100;
            && (k < 64 <==> r.setsPerBank.Some?)
            && (k < 64 ==> r.setsPerBank.value as int == Bit(k as int))
    ensures var k := config / 0x100_0000;
            && (k < 64 <==> r.bytesPerBlock.Some?)
            && (k < 64 ==> r.bytesPerBlock.value as int == Bit(k as int))
    ensures r.largestWayEnabled == wayEnable
  {
    var c := DecodeConfig(config);
    ConfigBits(config);
    ConfigReport(c.banks, c.ways, U64Bit(c.setsLog2), U64Bit(c.blockLog2), wayEnable)
  }

  /** The two size fields of CONFIG give BIT(field) exactly when the field is below 64. */
  lemma ConfigBits(config: bv32)
    ensures var k := config / 0x1_0000 % 0x100;
            && (k < 64 <==> U64Bit(DecodeConfig(config).setsLog2).Some?)
            && (k < 64 ==> U64Bit(DecodeConfig(config).setsLog2).value as int == Bit(k as int))
    ensures var k := config / 0x100_0000;
            && (k < 64 <==> U64Bit(DecodeConfig(config).blockLog2).Some?)
            && (k < 64 ==> U64Bit(DecodeConfig(config).blockLog2).value as int == Bit(k as int))
  {
    var c := DecodeConfig(config);
    FieldBit(c.setsLog2, config / 0x1_0000 % 0x100);
    FieldBit(c.blockLog2, config / 0x100_0000);
  }

  /** The shift of a byte field y, held as the byte x, is BIT(y) exactly when y is below 64. */
  lemma FieldBit(x: bv8, y: bv32)
    requires x as bv32 == y
    ensures y < 64 <==> U64Bit(x).Some?
    ensures y < 64 ==> U64Bit(x).value as int == Bit(y as int)
  {
    assert x as int == y as int;
  }

  /** l2_largest_wayenabled: the low byte of WAYENABLE. */
  function LargestWayEnabled(wayEnable: bv32): (w: bv32)
    ensures w == wayEnable % 0x100
  {
    wayEnable & 0xFF
  }

  /** The attribute groups a cache leaf can get. */
  datatype AttrGroup = PrivAttrGroup

  /** l2_get_priv_group: the private group, for the level-2 cache only. */
  function GetPrivGroup(level: nat): (g: Option<AttrGroup>)
    ensures g.Some? <==> level == 2
    ensures g.Some? ==> g.value == PrivAttrGroup
  {
    if level == 2 then Some(PrivAttrGroup) else None
  }

  // ---------------------------------------------------------------------------
  // The interrupt loop of sifive_l2_probe (sifive_l2_cache.c:247-262, 280-285)
  // ---------------------------------------------------------------------------

  /** BIT(i). */
  function Bit(i: nat): (b: nat)
    ensures b > 0
  {
    if i == 0 then 1 else 2 * Bit(i - 1)
  }

  /** device_get_match_data for each compatible string: the interrupts to leave unrequested. */
  const Fu540Quirks: nat := 0
  const Fu740Quirks: nat := 0
  const Jh7100Quirks: nat := Bit(DataUncorr)

  /** quirks & BIT(i) != 0. */
  predicate QuirkSet(quirks: nat, i: nat)
  {
    (quirks / Bit(i)) % 2 == 1
  }

  /**
   * What the loop returns, which indices it requested an interrupt for, and
   * how many g_irq entries it stored.
   */
  datatype ProbeResult = ProbeResult(ret: int, requested: seq<nat>, stored: nat)

  /** The loop from index i on, after the requests in acc. */
  function ProbeFrom(quirks: nat, nirqs: nat, irqOf: seq<int>, requestRet: seq<int>, i: nat, acc: seq<nat>): (r: ProbeResult)
    requires i <= nirqs <= 64 && nirqs <= |irqOf| && nirqs <= |requestRet|
    ensures i <= r.stored <= nirqs
    decreases nirqs - i
  {
    if i == nirqs then ProbeResult(0, acc, i)
    else if irqOf[i] < 0 then ProbeResult(irqOf[i], acc, i + 1)
    else if QuirkSet(quirks, i) then ProbeFrom(quirks, nirqs, irqOf, requestRet, i + 1, acc)
    else if requestRet[i] != 0 then ProbeResult(requestRet[i], acc + [i], i + 1)
    else ProbeFrom(quirks, nirqs, irqOf, requestRet, i + 1, acc + [i])
  }

  /** The loop as probe runs it, after the nirqs <= 0 check. */
  function Probe(quirks: nat, nirqs: int, irqOf: seq<int>, requestRet: seq<int>): (r: ProbeResult)
    requires nirqs <= 64 && nirqs <= |irqOf| && nirqs <= |requestRet|
  {
    if nirqs <= 0 then ProbeResult(-ENODEV, [], 0) else ProbeFrom(quirks, nirqs, irqOf, requestRet, 0, [])
  }

  /** The outcome r with the requests in done made first. */
  function After(done: seq<nat>, r: ProbeResult): ProbeResult
  {
    ProbeResult(r.ret, done + r.requested, r.stored)
  }

  /** Earlier requests are kept in front and change nothing else. */
  lemma {:induction false} ProbeFromExtends(
      quirks: nat, nirqs: nat, irqOf: seq<int>, requestRet: seq<int>, i: nat, acc: seq<nat>)
    requires i <= nirqs <= 64 && nirqs <= |irqOf| && nirqs <= |requestRet|
    ensures ProbeFrom(quirks, nirqs, irqOf, requestRet, i, acc)
            == After(acc, ProbeFrom(quirks, nirqs, irqOf, requestRet, i, []))
    decreases nirqs - i
  {
    if i < nirqs && irqOf[i] >= 0 {
      if QuirkSet(quirks, i) {
        ProbeFromExtends(quirks, nirqs, irqOf, requestRet, i + 1, acc);
      } else if requestRet[i] == 0 {
        ProbeFromExtends(quirks, nirqs, irqOf, requestRet, i + 1, acc + [i]);
        ProbeFromExtends(quirks, nirqs, irqOf, requestRet, i + 1, [i]);
        assert [] + [i] == [i];
        var rest := ProbeFrom(quirks, nirqs, irqOf, requestRet, i + 1, []);
        assert acc + [i] + rest.requested == acc + ([i] + rest.requested);
      } else {
        assert acc + [i] == acc + ([] + [i]);
      }
    } else {
      assert acc == acc + [];
    }
  }

  /** From i on, only indices whose quirk bit is clear are requested, all of them below the stored count. */
  lemma {:induction false} ProbeRequestsUnquirked(
      quirks: nat, nirqs: nat, irqOf: seq<int>, requestRet: seq<int>, i: nat)
    requires i <= nirqs <= 64 && nirqs <= |irqOf| && nirqs <= |requestRet|
    ensures var r := ProbeFrom(quirks, nirqs, irqOf, requestRet, i, []);
            forall k :: 0 <= k < |r.requested| ==>
              i <= r.requested[k] < r.stored && !QuirkSet(quirks, r.requested[k])
    decreases nirqs - i
  {
    if i < nirqs && irqOf[i] >= 0 {
      ProbeRequestsUnquirked(quirks, nirqs, irqOf, requestRet, i + 1);
      if !QuirkSet(quirks, i) && requestRet[i] == 0 {
        ProbeFromExtends(quirks, nirqs, irqOf, requestRet, i + 1, [i]);
        assert [] + [i] == [i];
        var rest := ProbeFrom(quirks, nirqs, irqOf, requestRet, i + 1, []);
        var r := ProbeFrom(quirks, nirqs, irqOf, requestRet, i, []);
        assert r.requested == [i] + rest.requested && r.stored == rest.stored;
        forall k | 0 <= k < |r.requested|
          ensures i <= r.requested[k] < r.stored && !QuirkSet(quirks, r.requested[k])
        {
          if k > 0 {
            assert r.requested[k] == rest.requested[k - 1];
          }
        }
      }
    }
  }

  /** The requests go out in strictly increasing index order, so none is made twice. */
  lemma {:induction false} ProbeRequestsInOrder(
      quirks: nat, nirqs: nat, irqOf: seq<int>, requestRet: seq<int>, i: nat)
    requires i <= nirqs <= 64 && nirqs <= |irqOf| && nirqs <= |requestRet|
    ensures var r := ProbeFrom(quirks, nirqs, irqOf, requestRet, i, []);
            forall k :: 0 <= k < |r.requested| - 1 ==> r.requested[k] < r.requested[k + 1]
    decreases nirqs - i
  {
    if i == nirqs || irqOf[i] < 0 {
      assert ProbeFrom(quirks, nirqs, irqOf, requestRet, i, []).requested == [];
    } else if QuirkSet(quirks, i) {
      ProbeRequestsInOrder(quirks, nirqs, irqOf, requestRet, i + 1);
      assert ProbeFrom(quirks, nirqs, irqOf, requestRet, i, [])
             == ProbeFrom(quirks, nirqs, irqOf, requestRet, i + 1, []);
    } else if requestRet[i] != 0 {
      assert ProbeFrom(quirks, nirqs, irqOf, requestRet, i, []).requested == [] + [i];
    } else {
      ProbeRequestsInOrder(quirks, nirqs, irqOf, requestRet, i + 1);
      ProbeRequestsUnquirked(quirks, nirqs, irqOf, requestRet, i + 1);
      ProbeFromExtends(quirks, nirqs, irqOf, requestRet, i + 1, [i]);
      assert [] + [i] == [i];
      var rest := ProbeFrom(quirks, nirqs, irqOf, requestRet, i + 1, []);
      var r := ProbeFrom(quirks, nirqs, irqOf, requestRet, i, []);
      assert r.requested == [i] + rest.requested;
      forall k | 0 <= k < |r.requested| - 1
        ensures r.requested[k] < r.requested[k + 1]
      {
        assert r.requested[k + 1] == rest.requested[k];
        if k > 0 {
          assert r.requested[k] == rest.requested[k - 1];
        }
      }
    }
  }

  /** No interrupts: -ENODEV, nothing requested, nothing stored. */
  lemma NoInterruptsIsNoDevice(quirks: nat, nirqs: int, irqOf: seq<int>, requestRet: seq<int>)
    requires nirqs <= 0
    ensures Probe(quirks, nirqs, irqOf, requestRet) == ProbeResult(-ENODEV, [], 0)
  {
  }

  /**
   * When every interrupt resolves and every request succeeds, probe stores
   * them all, returns 0 and requests exactly the indices whose quirk bit is
   * clear.
   */
  lemma {:induction false} RequestsExactlyUnquirked(
      quirks: nat, nirqs: nat, irqOf: seq<int>, requestRet: seq<int>, i: nat, k: nat)
    requires i <= nirqs <= 64 && nirqs <= |irqOf| && nirqs <= |requestRet|
    requires forall j :: i <= j < nirqs ==> irqOf[j] >= 0 && requestRet[j] == 0
    requires i <= k < nirqs
    ensures var r := ProbeFrom(quirks, nirqs, irqOf, requestRet, i, []);
            r.ret == 0 && r.stored == nirqs && (k in r.requested <==> !QuirkSet(quirks, k))
    decreases nirqs - i
  {
    var r := ProbeFrom(quirks, nirqs, irqOf, requestRet, i, []);
    if i + 1 < nirqs {
      RequestsExactlyUnquirked(quirks, nirqs, irqOf, requestRet, i + 1, if k == i then i + 1 else k);
      var rest := ProbeFrom(quirks, nirqs, irqOf, requestRet, i + 1, []);
      if !QuirkSet(quirks, i) {
        ProbeFromExtends(quirks, nirqs, irqOf, requestRet, i + 1, [i]);
        assert [] + [i] == [i];
        assert r.requested == [i] + rest.requested;
        if k == i {
          assert k in r.requested;
        } else {
          ProbeRequestsUnquirked(quirks, nirqs, irqOf, requestRet, i + 1);
        }
      } else if k == i {
        ProbeRequestsUnquirked(quirks, nirqs, irqOf, requestRet, i + 1);
      }
    }
  }

  /** A failing platform_get_irq stops the loop with its error, right after storing it. */
  lemma BadIrqStops(
      quirks: nat, nirqs: nat, irqOf: seq<int>, requestRet: seq<int>, i: nat, acc: seq<nat>)
    requires i < nirqs <= 64 && nirqs <= |irqOf| && nirqs <= |requestRet|
    requires irqOf[i] < 0
    ensures ProbeFrom(quirks, nirqs, irqOf, requestRet, i, acc) == ProbeResult(irqOf[i], acc, i + 1)
  {
  }

  /** On jh7100 only the uncorrectable-data interrupt is skipped; fu540 and fu740 skip none. */
  lemma MatchDataQuirks(i: nat)
    requires i < MaxEccIntr
    ensures QuirkSet(Jh7100Quirks, i) <==> i == DataUncorr
    ensures !QuirkSet(Fu540Quirks, i) && !QuirkSet(Fu740Quirks, i)
  {
  }

  // ---------------------------------------------------------------------------
  // The controller
  // ---------------------------------------------------------------------------

  class L2Cache {
    /** CONFIG_32BIT. */
    const is32Bit: bool
    /** g_irq. */
    const gIrq: array<int>
    /** The MMIO writes issued so far. */
    var writes: seq<MmioWrite>
    /** The interrupt indices devm_request_irq was called for, in order. */
    var requested: seq<nat>

    ghost predicate Valid()
      reads this
    {
      gIrq.Length == MaxEccIntr
    }

    constructor(is32Bit: bool)
      ensures Valid() && fresh(gIrq) && this.is32Bit == is32Bit
      ensures writes == [] && requested == []
    {
      this.is32Bit := is32Bit;
      gIrq := new int[MaxEccIntr];
      writes := [];
      requested := [];
    }

    /** sifive_l2_flush_range: write every line of [start, start + len) to the flush register. */
    method FlushRange(start: nat, len: nat)
      requires start + len <= PhysModulus - LineSize
      modifies this
      ensures writes == old(writes) + FlushTrace(is32Bit, FlushLines(start, len))
      ensures requested == old(requested)
    {
      var end := start + len;
      if len == 0 {
        return;
      }
      var line := start - start % LineSize;
      ghost var all := LinesFrom(line, end);
      while line < end
        invariant line % LineSize == 0
        invariant old(writes) + FlushTrace(is32Bit, all) == writes + FlushTrace(is32Bit, LinesFrom(line, end))
        invariant requested == old(requested)
        decreases end - line
      {
        label Head:
        ghost var rest := LinesFrom(line + LineSize, end);
        assert LinesFrom(line, end) == [line] + rest;
        FlushTraceCons(is32Bit, line, rest);
        if is32Bit {
          writes := writes + [Writel(RegFlush32, (line / 16) % U32Modulus)];
        } else {
          writes := writes + [Writeq(RegFlush64, line)];
        }
        assert writes == old@Head(writes) + [FlushWrite(is32Bit, line)];
        line := line + LineSize;
      }
    }

    /** l2_write: parsed is what kstrtouint_from_user produced, None when it failed. */
    method L2Write(count: nat, parsed: Option<nat>) returns (r: int)
      requires parsed.Some? ==> parsed.value < U32Modulus
      modifies this
      ensures parsed.Some? && InjectAccepted(parsed.value) ==>
                r == count && writes == old(writes) + [Writel(RegEccInjectErr, parsed.value)]
      ensures !(parsed.Some? && InjectAccepted(parsed.value)) ==>
                r == -EINVAL && writes == old(writes)
      ensures requested == old(requested)
    {
      if parsed.None? {
        return -EINVAL;
      }
      var val := parsed.value;
      if val < 0xFF || (val >= 0x10000 && val < 0x100FF) {
        writes := writes + [Writel(RegEccInjectErr, val)];
      } else {
        return -EINVAL;
      }
      return count;
    }

    /**
     * The interrupt loop of sifive_l2_probe.  irqOf[i] is what
     * platform_get_irq returns for index i, requestRet[i] what
     * devm_request_irq returns for it.
     */
    method ProbeIrqs(quirks: nat, nirqs: int, irqOf: seq<int>, requestRet: seq<int>) returns (ret: int)
      requires Valid()
      requires nirqs <= MaxEccIntr && nirqs <= |irqOf| && nirqs <= |requestRet|
      modifies this, gIrq
      ensures Valid() && writes == old(writes)
      ensures var p := Probe(quirks, nirqs, irqOf, requestRet);
              && ret == p.ret
              && requested == old(requested) + p.requested
              && (forall k :: 0 <= k < p.stored ==> gIrq[k] == irqOf[k])
              && (forall k :: p.stored <= k < MaxEccIntr ==> gIrq[k] == old(gIrq[k]))
    {
      if nirqs <= 0 {
        return -ENODEV;
      }
      ProbeFromExtends(quirks, nirqs, irqOf, requestRet, 0, requested);
      ghost var p := ProbeFrom(quirks, nirqs, irqOf, requestRet, 0, requested);
      var i: nat := 0;
      while i < nirqs
        invariant i <= nirqs
        invariant p == ProbeFrom(quirks, nirqs, irqOf, requestRet, i, requested)
        invariant forall k :: 0 <= k < i ==> gIrq[k] == irqOf[k]
        invariant forall k :: i <= k < MaxEccIntr ==> gIrq[k] == old(gIrq[k])
        invariant writes == old(writes)
      {
        gIrq[i] := irqOf[i];
        if gIrq[i] < 0 {
          return gIrq[i];
        }
        if QuirkSet(quirks, i) {
          i := i + 1;
          continue;
        }
        requested := requested + [i];
        var r := requestRet[i];
        if r != 0 {
          return r;
        }
        i := i + 1;
      }
      return 0;
    }
  }

  lemma FlushTraceCons(is32Bit: bool, line: nat, rest: seq<nat>)
    ensures FlushTrace(is32Bit, [line] + rest) == [FlushWrite(is32Bit, line)] + FlushTrace(is32Bit, rest)
  {
    assert ([line] + rest)[1..] == rest;
  }
}
