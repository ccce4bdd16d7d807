/**
 * The clock-speed probes: each reads one per-core cpufreq file (a value in
 * kHz) and reports it in MHz, or -1 when the reading is absent.
 *
 * The file read itself (`filesystem::get_specs_by_file_path` on the path
 * `/sys/devices/system/cpu/cpu<N>/cpufreq/<file>`) is the parameter `sysfs`:
 * `sysfs(coreId, file)` is the integer that read yields, -1 when the file is
 * missing or unreadable.
 */
module Clock {

  /** The four cpufreq files the probes consult. */
  datatype FreqFile = ScalingMaxFreq | BaseFrequency | ScalingMinFreq | ScalingCurFreq

  type Sysfs = (int, FreqFile) -> int

  /**
   * kHz to MHz: a reading above -1 is divided by 1000 (rounding down, the
   * same as C's truncation for a non-negative value); anything else is -1.
   */
  function KHzToMHz(reading: int): (mhz: int)
    ensures mhz >= -1
    ensures mhz >= 0 <==> reading >= 0
    ensures reading >= 0 ==> mhz * 1000 <= reading < (mhz + 1) * 1000
    ensures reading < 0 ==> mhz == -1
  {
    if reading > -1 then reading / 1000 else -1
  }

  /** `getMaxClockSpeed_MHz`: the scaling_max_freq reading in MHz. */
  function MaxClockSpeedMHz(sysfs: Sysfs, coreId: int): (mhz: int)
    ensures mhz >= -1
    ensures mhz >= 0 <==> sysfs(coreId, ScalingMaxFreq) >= 0
    ensures mhz >= 0 ==> mhz * 1000 <= sysfs(coreId, ScalingMaxFreq) < (mhz + 1) * 1000
  {
    KHzToMHz(sysfs(coreId, ScalingMaxFreq))
  }

  /** `getRegularClockSpeed_MHz`: the base_frequency reading in MHz. */
  function RegularClockSpeedMHz(sysfs: Sysfs, coreId: int): (mhz: int)
    ensures mhz >= -1
    ensures mhz >= 0 <==> sysfs(coreId, BaseFrequency) >= 0
    ensures mhz >= 0 ==> mhz * 1000 <= sysfs(coreId, BaseFrequency) < (mhz + 1) * 1000
  {
    KHzToMHz(sysfs(coreId, BaseFrequency))
  }

  /** `getMinClockSpeed_MHz`: the scaling_min_freq reading in MHz. */
  function MinClockSpeedMHz(sysfs: Sysfs, coreId: int): (mhz: int)
    ensures mhz >= -1
    ensures mhz >= 0 <==> sysfs(coreId, ScalingMinFreq) >= 0
    ensures mhz >= 0 ==> mhz * 1000 <= sysfs(coreId, ScalingMinFreq) < (mhz + 1) * 1000
  {
    KHzToMHz(sysfs(coreId, ScalingMinFreq))
  }

  /** `CPU::currentClockSpeed_MHz`: the scaling_cur_freq reading of the CPU's own core, in MHz. */
  function CurrentClockSpeedMHz(sysfs: Sysfs, coreId: int): (mhz: int)
    ensures mhz >= -1
    ensures mhz >= 0 <==> sysfs(coreId, ScalingCurFreq) >= 0
    ensures mhz >= 0 ==> mhz * 1000 <= sysfs(coreId, ScalingCurFreq) < (mhz + 1) * 1000
  {
    KHzToMHz(sysfs(coreId, ScalingCurFreq))
  }

  /**
   * A core whose cpufreq files are all missing (a core id the kernel does
   * not know, say) reports -1 for every probe.
   */
  lemma UnknownCore(sysfs: Sysfs, coreId: int)
    requires forall f: FreqFile :: sysfs(coreId, f) == -1
    ensures MaxClockSpeedMHz(sysfs, coreId) == -1
    ensures RegularClockSpeedMHz(sysfs, coreId) == -1
    ensures MinClockSpeedMHz(sysfs, coreId) == -1
    ensures CurrentClockSpeedMHz(sysfs, coreId) == -1
  {
    assert sysfs(coreId, ScalingMaxFreq) == -1;
    assert sysfs(coreId, BaseFrequency) == -1;
    assert sysfs(coreId, ScalingMinFreq) == -1;
    assert sysfs(coreId, ScalingCurFreq) == -1;
  }
}
