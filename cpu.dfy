/**
 * CPU identification and frequency arithmetic of `cpu.c`. The CPUID, RDTSC,
 * RDMSR and timer instructions are inputs: CPUID leaves as register
 * quadruples, MSRs as 64-bit values and each timing run as the poll count
 * and the two TSC readings it produced.
 */
module Cpu {

  const TWO64: nat := 0x1_0000_0000_0000_0000
  const TWO32: nat := 0x1_0000_0000
  const INTEL_VENDOR: nat := 0x756E6547
  const CALIBRATE_TIME_MSEC: nat := 30
  const CALIBRATE_RUNS: nat := 10
  /** The initial `tscDelta`, all ones in 64 bits. */
  const NO_DELTA: nat := TWO64 - 1
  /** The largest TSC frequency `measure_tsc_frequency` can report. */
  const TSC_MAX: nat := TWO32 * 1000 / 30

  datatype Regs = Regs(eax: nat, ebx: nat, ecx: nat, edx: nat)

  /** The flags ORed into `Features`. */
  datatype Feature = MMX | SSE | SSE2 | SSE3 | SSE41 | SSE42 | EM64T | HTT | Mobile

  /**
   * A bit field of `x`: `unit` is 2 to the power of its lowest bit and
   * `size` 2 to the power of its width, so `Field(x, 0x10, 0x10)` is the
   * C `bitfield(x, 7, 4)`.
   */
  function Field(x: nat, unit: nat, size: nat): (r: nat)
    requires unit > 0 && size > 0
    ensures r < size
  {
    (x / unit) % size
  }

  /** Whether the bit of weight `unit` is set in `x`. */
  predicate Bit(x: nat, unit: nat)
    requires unit > 0
  {
    Field(x, unit, 2) == 1
  }

  /** The identification fields `scan_cpu` decodes from CPUID. */
  datatype CpuId = CpuId(vendor: nat, model: nat, family: nat, extModel: nat, extFamily: nat,
                         noThreads: nat, noCores: nat)

  /** Field decoding of `scan_cpu`; the model includes the extended model. */
  function DecodeCpuId(leaf0: Regs, leaf1: Regs, leaf4: Regs): (c: CpuId)
    ensures c.vendor == leaf0.ebx
    ensures c.model < 256 && c.model % 16 == Field(leaf1.eax, 0x10, 0x10) && c.model / 16 == c.extModel
    ensures c.family < 16 && c.extModel < 16 && c.extFamily < 256 && c.noThreads < 256
    ensures 1 <= c.noCores <= 64
  {
    var extModel := Field(leaf1.eax, 0x1_0000, 0x10);       // bits 19..16
    CpuId(leaf0.ebx,
          Field(leaf1.eax, 0x10, 0x10) + extModel * 16,           // bits 7..4
          Field(leaf1.eax, 0x100, 0x10),                         // bits 11..8
          extModel,
          Field(leaf1.eax, 0x10_0000, 0x100),                    // bits 27..20
          Field(leaf1.ebx, 0x1_0000, 0x100),                     // bits 23..16
          Field(leaf4.eax, 0x400_0000, 0x40) + 1)                // bits 31..26
  }

  /** The extended leaf 0x80000001 is read only when leaf 0x80000000 reports it. */
  function Leaf81(leaf80: Regs, leaf81: Regs): (r: Regs)
    ensures Field(leaf80.eax, 1, 0x10) == 0 ==> r == Regs(0, 0, 0, 0)
    ensures Field(leaf80.eax, 1, 0x10) >= 1 ==> r == leaf81
  {
    if Field(leaf80.eax, 1, 0x10) >= 1 then leaf81 else Regs(0, 0, 0, 0)
  }

  /** The CPUID condition under which `scan_cpu` sets each flag. */
  predicate CpuidSays(f: Feature, leaf1: Regs, leaf81: Regs, c: CpuId)
  {
    match f
    case MMX => Bit(leaf1.edx, 0x80_0000)        // bit 23
    case SSE => Bit(leaf1.edx, 0x200_0000)       // bit 25
    case SSE2 => Bit(leaf1.edx, 0x400_0000)      // bit 26
    case SSE3 => Bit(leaf1.ecx, 0x1)             // bit 0
    case SSE41 => Bit(leaf1.ecx, 0x8_0000)       // bit 19
    case SSE42 => Bit(leaf1.ecx, 0x10_0000)      // bit 20
    case EM64T => Bit(leaf81.edx, 0x2000_0000)   // bit 29
    case HTT => c.noThreads > c.noCores
    case Mobile => false
  }

  /** The feature flags set from CPUID (the mobile flag comes from an MSR). */
  function CpuidFeatures(leaf1: Regs, leaf81: Regs, c: CpuId): (fs: set<Feature>)
    ensures forall f :: f in fs <==> CpuidSays(f, leaf1, leaf81, c)
    ensures Mobile !in fs
  {
    set f: Feature | f in {MMX, SSE, SSE2, SSE3, SSE41, SSE42, EM64T, HTT} && CpuidSays(f, leaf1, leaf81, c)
  }

  /** Hyper-threading is reported from the counts, not from CPUID bit 28. */
  lemma HttFromCounts(leaf1: Regs, leaf81: Regs, c: CpuId)
    ensures HTT in CpuidFeatures(leaf1, leaf81, c) <==> c.noThreads > c.noCores
  {
  }

  // -------------------------------------------------------------------
  // measure_tsc_frequency

  /** One timing run: the PIT poll count and the TSC before and after. */
  datatype TscRun = TscRun(pollCount: nat, tscStart: nat, tscEnd: nat)

  /** `tscEnd - tscStart` in unsigned 64-bit arithmetic. */
  function Delta(r: TscRun): (d: nat)
    ensures d < TWO64
  {
    (r.tscEnd - r.tscStart) % TWO64
  }

  /** A run counts if the poll loop went round more than once and the TSC moved enough. */
  predicate Usable(r: TscRun)
  {
    r.pollCount > 1 && Delta(r) > CALIBRATE_TIME_MSEC
  }

  /** The running minimum of the usable deltas. */
  function MinDelta(runs: seq<TscRun>): (m: nat)
    ensures m <= NO_DELTA
  {
    if runs == [] then NO_DELTA
    else
      var m := MinDelta(runs[..|runs| - 1]);
      var last := runs[|runs| - 1];
      if Usable(last) && Delta(last) < m then Delta(last) else m
  }

  /** The reported frequency in Hz for the least delta over 30 ms. */
  function TscFrequency(delta: nat): (hz: nat)
  {
    if delta > TWO32 then 0 else delta * 1000 / 30
  }

  /** `measure_tsc_frequency` over the ten runs it performs. */
  method MeasureTscFrequency(runs: seq<TscRun>) returns (hz: nat)
    requires |runs| == CALIBRATE_RUNS
    ensures hz == TscFrequency(MinDelta(runs))
    ensures hz <= TSC_MAX
  {
    var tscDelta := NO_DELTA;
    var i := 0;
    while i < CALIBRATE_RUNS
      invariant i <= CALIBRATE_RUNS
      invariant tscDelta == MinDelta(runs[..i])
    {
      var run := runs[i];
      assert runs[..i + 1][..i] == runs[..i];
      if run.pollCount <= 1 {
        i := i + 1;
        continue;
      }
      var d := (run.tscEnd - run.tscStart) % TWO64;
      if d <= CALIBRATE_TIME_MSEC {
        i := i + 1;
        continue;
      }
      if d < tscDelta {
        tscDelta := d;
      }
      i := i + 1;
    }
    assert runs[..CALIBRATE_RUNS] == runs;
    if tscDelta > TWO32 {
      hz := 0;
    } else {
      hz := tscDelta * 1000 / 30;
    }
  }

  /** The minimum is at most the delta of every usable run... */
  lemma {:induction false} MinDeltaIsLeast(runs: seq<TscRun>, i: nat)
    requires i < |runs| && Usable(runs[i])
    ensures MinDelta(runs) <= Delta(runs[i])
  {
    var n := |runs| - 1;
    if i < n {
      assert runs[..n][i] == runs[i];
      MinDeltaIsLeast(runs[..n], i);
    }
  }

  /** ...and it is the delta of a usable run, unless there is none. */
  lemma {:induction false} MinDeltaAttained(runs: seq<TscRun>)
    ensures MinDelta(runs) == NO_DELTA ||
            exists i :: 0 <= i < |runs| && Usable(runs[i]) && Delta(runs[i]) == MinDelta(runs)
  {
    if runs != [] {
      var n := |runs| - 1;
      MinDeltaAttained(runs[..n]);
      if MinDelta(runs) != Delta(runs[n]) && MinDelta(runs[..n]) != NO_DELTA {
        var i :| 0 <= i < n && Usable(runs[..n][i]) && Delta(runs[..n][i]) == MinDelta(runs[..n]);
        assert runs[i] == runs[..n][i];
      }
    }
  }

  /** Without a usable run the frequency is reported as 0. */
  lemma {:induction false} NoUsableRun(runs: seq<TscRun>)
    requires forall i :: 0 <= i < |runs| ==> !Usable(runs[i])
    ensures MinDelta(runs) == NO_DELTA && TscFrequency(MinDelta(runs)) == 0
  {
    if runs != [] {
      var n := |runs| - 1;
      assert forall i :: 0 <= i < n ==> runs[..n][i] == runs[i];
      NoUsableRun(runs[..n]);
    }
  }

  // -------------------------------------------------------------------
  // Frequencies

  /** The multipliers and frequencies `scan_cpu` stores. */
  datatype Freq = Freq(maxCoef: nat, maxDiv: nat, currCoef: nat, currDiv: nat, fsb: nat, cpu: nat)

  const NO_FREQ: Freq := Freq(0, 0, 0, 0, 0, 0)

  predicate IsIntelCore(c: CpuId)
  {
    c.vendor == INTEL_VENDOR && (c.family == 0x06 || c.family == 0x0F)
  }

  predicate HasRatioMsrs(c: CpuId)
  {
    (c.family == 0x06 && c.model >= 0x0C) || (c.family == 0x0F && c.model >= 0x03)
  }

  predicate IsNehalem(c: CpuId)
  {
    c.family == 0x06 && (c.model == 0x1A || c.model == 0x1E)
  }

  /** Nehalem: the current ratio from PLATFORM_INFO, clamped by FLEX_RATIO when enabled. */
  function NehalemFreq(tsc: nat, platformInfo: nat, flexRatio: nat): (f: Freq)
    ensures f.currCoef == (if Bit(flexRatio, 0x1_0000) && Field(platformInfo, 0x100, 0x100) > Field(flexRatio, 0x100, 0x100)
                           then Field(flexRatio, 0x100, 0x100) else Field(platformInfo, 0x100, 0x100))
    ensures f.cpu == tsc && f.maxCoef == 0 && f.maxDiv == 0 && f.currDiv == 0
    ensures f.currCoef == 0 ==> f.fsb == 0
  {
    var coef := Field(platformInfo, 0x100, 0x100);                 // bits 15..8
    var flex := Field(flexRatio, 0x100, 0x100);
    var currcoef := if Bit(flexRatio, 0x1_0000) && coef > flex then flex else coef;
    Freq(0, 0, currcoef, 0, if currcoef != 0 then tsc / currcoef else 0, tsc)
  }

  /** Other Intel models: ratios (with half steps) from IA32_PERF_STATUS. */
  function PerfStatusFreq(c: CpuId, tsc: nat, perfStatus: nat): (f: Freq)
    ensures f.currCoef < 32 && f.maxCoef < 32 && f.maxDiv < 2 && f.currDiv < 2
    ensures f.maxCoef == 0 ==> f.fsb == 0 && f.cpu == 0
  {
    var currcoef := Field(perfStatus, 0x100, 0x20);                 // bits 12..8
    var maxdiv := Field(perfStatus, 0x4000_0000_0000, 2);           // bit 46
    var currdiv := Field(perfStatus, 0x4000, 2);                    // bit 14
    var maxcoef := if (c.family == 0x06 && c.model >= 0x0E) || c.family == 0x0F then Field(perfStatus, 0x100_0000_0000, 0x20) else currcoef;  // bits 44..40
    if maxcoef == 0 then Freq(maxcoef, maxdiv, currcoef, currdiv, 0, 0)
    else
      var fsb := FsbFor(tsc, maxcoef, maxdiv);
      Freq(maxcoef, maxdiv, currcoef, currdiv, fsb, CpuFor(fsb, currcoef, currdiv))
  }

  /** The FSB: the TSC over the maximum ratio, a half step higher when `maxdiv` is set. */
  function FsbFor(tsc: nat, maxcoef: nat, maxdiv: nat): (fsb: nat)
    requires maxcoef >= 1
    ensures fsb <= tsc
  {
    FsbBound(tsc, maxcoef, maxdiv);
    if maxdiv != 0 then tsc * 2 / (maxcoef * 2 + 1) else tsc / maxcoef
  }

  /** The CPU clock: the FSB times the current ratio, a half step higher when `currdiv` is set. */
  function CpuFor(fsb: nat, currcoef: nat, currdiv: nat): (cpu: nat)
    requires currcoef < 32
    ensures cpu <= 32 * fsb
  {
    CpuBound(fsb, currcoef, currdiv);
    if currdiv != 0 then fsb * (currcoef * 2 + 1) / 2 else fsb * currcoef
  }

  /** The frequency part of `scan_cpu`; the MSRs are read only where it reads them. */
  function Frequencies(c: CpuId, tsc: nat, platformInfo: nat, flexRatio: nat, perfStatus: nat): (f: Freq)
    ensures !IsIntelCore(c) ==> f == NO_FREQ
  {
    if IsIntelCore(c) && HasRatioMsrs(c) then
      if IsNehalem(c) then NehalemFreq(tsc, platformInfo, flexRatio) else PerfStatusFreq(c, tsc, perfStatus)
    else NO_FREQ
  }

  /** Older Intel models (family 6 below model 0x0C) get no frequencies either. */
  lemma OldIntelNoFreq(c: CpuId, tsc: nat, pi: nat, fr: nat, ps: nat)
    requires IsIntelCore(c) && !HasRatioMsrs(c)
    ensures Frequencies(c, tsc, pi, fr, ps) == NO_FREQ
  {
  }

  lemma DivBounds(t: nat, c: nat)
    requires c > 0
    ensures (t / c) * c <= t < (t / c + 1) * c
  {
  }

  /** On Nehalem the FSB times the current ratio is the TSC up to rounding. */
  lemma NehalemFsbTimesRatio(c: CpuId, tsc: nat, pi: nat, fr: nat, ps: nat)
    requires IsIntelCore(c) && HasRatioMsrs(c) && IsNehalem(c)
    ensures var f := Frequencies(c, tsc, pi, fr, ps);
            f.cpu == tsc && (f.currCoef != 0 ==> f.fsb * f.currCoef <= tsc < (f.fsb + 1) * f.currCoef)
  {
    var f := NehalemFreq(tsc, pi, fr);
    if f.currCoef != 0 {
      DivBounds(tsc, f.currCoef);
    }
  }

  /**
   * With whole ratios running at the maximum, the CPU frequency recovers
   * the TSC frequency up to rounding.
   */
  lemma CpuMatchesTsc(c: CpuId, tsc: nat, ps: nat)
    requires IsIntelCore(c) && HasRatioMsrs(c) && !IsNehalem(c)
    requires var f := PerfStatusFreq(c, tsc, ps); f.maxCoef != 0 && f.maxDiv == 0 && f.currDiv == 0 && f.currCoef == f.maxCoef
    ensures var f := Frequencies(c, tsc, 0, 0, ps); f.cpu <= tsc < f.cpu + f.maxCoef
  {
    var f := PerfStatusFreq(c, tsc, ps);
    DivBounds(tsc, f.maxCoef);
  }

  /** Bounded TSC values keep every product of `scan_cpu` inside 64 bits. */
  lemma FrequenciesFit64(c: CpuId, tsc: nat, pi: nat, fr: nat, ps: nat)
    requires tsc <= TSC_MAX
    ensures var f := Frequencies(c, tsc, pi, fr, ps);
            tsc * 2 < TWO64 && f.fsb <= tsc && f.cpu <= 32 * tsc && f.cpu < TWO64
  {
    var f := Frequencies(c, tsc, pi, fr, ps);
    if IsIntelCore(c) && HasRatioMsrs(c) && IsNehalem(c) && f.currCoef != 0 {
      DivBounds(tsc, f.currCoef);
      MulMono(f.fsb, 1, f.currCoef);
    }
  }

  lemma MulMono(a: nat, b: nat, c: nat)
    requires b <= c
    ensures a * b <= a * c
  {
  }

  lemma FsbBound(tsc: nat, maxcoef: nat, maxdiv: nat)
    requires maxcoef >= 1
    ensures (if maxdiv != 0 then tsc * 2 / (maxcoef * 2 + 1) else tsc / maxcoef) <= tsc
  {
    if maxdiv != 0 {
      var d := maxcoef * 2 + 1;
      var q := tsc * 2 / d;
      DivBounds(tsc * 2, d);
      MulMono(q, 3, d);
    } else {
      var q := tsc / maxcoef;
      DivBounds(tsc, maxcoef);
      MulMono(q, 1, maxcoef);
    }
  }

  lemma CpuBound(fsb: nat, currcoef: nat, currdiv: nat)
    requires currcoef < 32
    ensures (if currdiv != 0 then fsb * (currcoef * 2 + 1) / 2 else fsb * currcoef) <= 32 * fsb
  {
    MulMono(fsb, currcoef * 2 + 1, 63);
    MulMono(fsb, currcoef, 32);
  }

  // -------------------------------------------------------------------
  // scan_cpu

  /** The `CPU` part of `PlatformInfo_t` that `scan_cpu` fills in. */
  class Platform {
    var id: CpuId
    var features: set<Feature>
    var freq: Freq
    var tscFrequency: nat

    constructor()
      ensures features == {} && freq == NO_FREQ && tscFrequency == 0
    {
      id := CpuId(0, 0, 0, 0, 0, 0, 0);
      features := {};
      freq := NO_FREQ;
      tscFrequency := 0;
    }

    /**
     * `scan_cpu`. The leaves are what CPUID returns; `tscRuns` the ten
     * timing runs; `platformInfo`, `flexRatio`, `perfStatus` and `msr17` the
     * MSR values, each read only on the branch that reads it.
     */
    method ScanCpu(leaf0: Regs, leaf1: Regs, leaf4: Regs, leaf80: Regs, leaf81: Regs,
                   tscRuns: seq<TscRun>, platformInfo: nat, flexRatio: nat, perfStatus: nat, msr17: nat)
      requires |tscRuns| == CALIBRATE_RUNS
      modifies this
      ensures id == DecodeCpuId(leaf0, leaf1, leaf4)
      ensures tscFrequency == TscFrequency(MinDelta(tscRuns)) && tscFrequency <= TSC_MAX
      ensures freq == Frequencies(id, tscFrequency, platformInfo, flexRatio, perfStatus)
      ensures features == old(features) + CpuidFeatures(leaf1, Leaf81(leaf80, leaf81), id) +
                          (if IsIntelCore(id) && Bit(msr17, 0x1000_0000) then {Mobile} else {})
    {
      id := DecodeCpuId(leaf0, leaf1, leaf4);
      features := features + CpuidFeatures(leaf1, Leaf81(leaf80, leaf81), id);
      tscFrequency := MeasureTscFrequency(tscRuns);
      freq := NO_FREQ;
      if IsIntelCore(id) {
        if HasRatioMsrs(id) {
          if IsNehalem(id) {
            freq := NehalemFreq(tscFrequency, platformInfo, flexRatio);
          } else {
            freq := PerfStatusFreq(id, tscFrequency, perfStatus);
          }
        }
        if Bit(msr17, 0x1000_0000) {
          features := features + {Mobile};
        }
      }
    }
  }
}
