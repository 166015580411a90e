/**
 * `get_stats`: nothing for a run without accesses; otherwise the counters,
 * the hit and fault rates in percent, the effective access time and the
 * ranking of the most accessed pages. Rates and times are stated over the
 * reals.
 */
module Statistics {
  import opened Wrappers
  import opened Trace
  import opened Engine

  /** Nanoseconds of one memory access, and of servicing one page fault. */
  const MemoryAccessNs: real := 100.0
  const FaultServiceNs: real := 10000000.0

  /** The entries of the dictionary `get_stats` returns, less the wall-clock time and the file name. */
  datatype RunStats = RunStats(
    totalAccesses: nat,
    hits: nat,
    pageFaults: nat,
    replacements: nat,
    diskWrites: nat,
    hitRate: real,
    faultRate: real,
    eat: real,
    readCount: nat,
    writeCount: nat,
    frames: nat,
    policy: Policy,
    topPages: seq<PageCount>)

  /** `count / total * 100`. */
  function Percent(count: nat, total: nat): real
    requires total > 0
  {
    count as real / total as real * 100.0
  }

  function GetStats(s: State, freq: FrequencyTable): Option<RunStats> {
    if s.stats.totalAccesses == 0 then None
    else
      var faultRate := Percent(s.stats.pageFaults, s.stats.totalAccesses);
      Some(RunStats(
        s.stats.totalAccesses, s.stats.hits, s.stats.pageFaults, s.stats.replacements, s.stats.diskWrites,
        Percent(s.stats.hits, s.stats.totalAccesses), faultRate,
        MemoryAccessNs + faultRate / 100.0 * FaultServiceNs,
        s.stats.readCount, s.stats.writeCount, s.frameCount, s.policy,
        TopPages(freq)))
  }

  /** A share of a whole is between 0 and 100 percent, and two shares that make up the whole add up to 100. */
  lemma PercentSplit(a: nat, b: nat, total: nat)
    requires total > 0 && a + b == total
    ensures 0.0 <= Percent(a, total) <= 100.0
    ensures Percent(a, total) + Percent(b, total) == 100.0
  {
    var t := total as real;
    assert a as real / t + b as real / t == (a as real + b as real) / t;
    assert a as real / t <= 1.0 by {
      assert a as real <= t;
    }
  }

  /**
   * Once some reference was replayed, the report exists; its hit and fault
   * rates are percentages that add up to 100, and the effective access time
   * lies between one memory access and one memory access plus one fault
   * service, rising with the fault rate.
   */
  lemma StatsOfRun(s: State, freq: FrequencyTable)
    requires Inv(s)
    ensures GetStats(s, freq).None? <==> s.stats.totalAccesses == 0
    ensures GetStats(s, freq).Some? ==>
      var r := GetStats(s, freq).value;
      && r.hits + r.pageFaults == r.totalAccesses
      && r.readCount + r.writeCount == r.totalAccesses
      && r.diskWrites <= r.replacements <= r.pageFaults
      && 0.0 <= r.hitRate <= 100.0 && 0.0 <= r.faultRate <= 100.0
      && r.hitRate + r.faultRate == 100.0
      && r.eat == MemoryAccessNs + r.faultRate * (FaultServiceNs / 100.0)
      && MemoryAccessNs <= r.eat <= MemoryAccessNs + FaultServiceNs
  {
    if s.stats.totalAccesses > 0 {
      PercentSplit(s.stats.hits, s.stats.pageFaults, s.stats.totalAccesses);
      PercentSplit(s.stats.pageFaults, s.stats.hits, s.stats.totalAccesses);
    }
  }
}
