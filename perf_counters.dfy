/**
 * Performance counters (common/perf_counters.cc): a logger holds one data
 * slot per counter index strictly between its lower and upper bound; each
 * update is gated on the global `perf` switch and on the slot's type flags.
 * A builder configures the slots; a collection registers loggers under
 * unique names and indexes every counter by "logger.counter".
 */
module PerfCounters {
  import opened MachineInt
  import opened Wrappers

  /**
   * The flags of perfcounter_type_d (TIME 1, U64 2, LONGRUNAVG 4,
   * COUNTER 8, HISTOGRAM 16); a type is the set of its flags, and
   * PERFCOUNTER_NONE (0) is the empty set.
   */
  datatype PerfFlag = Time | U64 | LongRunAvg | Counter | Histogram

  type CounterType = set<PerfFlag>

  /** The numeric value of a flag. */
  function FlagValue(f: PerfFlag): nat
  {
    match f
    case Time => 1
    case U64 => 2
    case LongRunAvg => 4
    case Counter => 8
    case Histogram => 16
  }

  /** The types the builder's add_* helpers configure. */
  const TYPE_U64_COUNTER: CounterType := {U64, Counter}
  const TYPE_U64: CounterType := {U64}
  const TYPE_U64_AVG: CounterType := {U64, LongRunAvg}
  const TYPE_TIME: CounterType := {Time}
  const TYPE_TIME_AVG: CounterType := {Time, LongRunAvg}
  const TYPE_U64_COUNTER_HISTOGRAM: CounterType := {U64, Histogram, Counter}

  /** One slot: its configuration and its values (perf_counter_data_any_d). */
  datatype CounterData = CounterData(
    name: string, description: string, nick: Option<string>, prio: int,
    ty: CounterType, unit: int, u64: u64, avgcount: u64, avgcount2: u64, hasHistogram: bool)

  /** A slot as the constructor leaves it: unconfigured, all zero. */
  const EmptyData := CounterData("", "", None, 0, {}, 0, 0, 0, 0, false)

  /**
   * The update of inc and tinc once the gate passed: add `amt`; a
   * long-running average also counts one more sample in both counts.
   */
  function AddData(d: CounterData, amt: u64): (r: CounterData)
    ensures r.u64 == Add64(d.u64, amt)
    ensures LongRunAvg in d.ty ==> r.avgcount == Add64(d.avgcount, 1) && r.avgcount2 == Add64(d.avgcount2, 1)
    ensures LongRunAvg !in d.ty ==> r.avgcount == d.avgcount && r.avgcount2 == d.avgcount2
    ensures r.(u64 := d.u64, avgcount := d.avgcount, avgcount2 := d.avgcount2) == d
  {
    if LongRunAvg in d.ty then
      d.(avgcount := Add64(d.avgcount, 1), u64 := Add64(d.u64, amt), avgcount2 := Add64(d.avgcount2, 1))
    else
      d.(u64 := Add64(d.u64, amt))
  }

  /** The update of dec: subtract `amt`. */
  function SubData(d: CounterData, amt: u64): (r: CounterData)
    ensures r.u64 == Sub64(d.u64, amt)
    ensures r.(u64 := d.u64) == d
  {
    d.(u64 := Sub64(d.u64, amt))
  }

  /** The update of set: store `amt`; a long-running average counts a sample. */
  function SetData(d: CounterData, amt: u64): (r: CounterData)
    ensures r.u64 == amt
    ensures LongRunAvg in d.ty ==> r.avgcount == Add64(d.avgcount, 1) && r.avgcount2 == Add64(d.avgcount2, 1)
    ensures LongRunAvg !in d.ty ==> r.avgcount == d.avgcount && r.avgcount2 == d.avgcount2
    ensures r.(u64 := d.u64, avgcount := d.avgcount, avgcount2 := d.avgcount2) == d
  {
    if LongRunAvg in d.ty then
      d.(avgcount := Add64(d.avgcount, 1), u64 := amt, avgcount2 := Add64(d.avgcount2, 1))
    else
      d.(u64 := amt)
  }

  /**
   * perf_counter_data_any_d::reset (common/perf_counters.h): every slot
   * except a plain U64 gauge drops its value and both counts; a histogram
   * is reset too (its buckets are not modelled).
   */
  function ResetData(d: CounterData): (r: CounterData)
    ensures d.ty != TYPE_U64 ==> r.u64 == 0 && r.avgcount == 0 && r.avgcount2 == 0
    ensures d.ty == TYPE_U64 ==> r == d
    ensures r.ty == d.ty && r.name == d.name
  {
    if d.ty != TYPE_U64 then d.(u64 := 0, avgcount := 0, avgcount2 := 0) else d
  }

  /** dec undoes inc on a counter that is not a long-running average. */
  lemma SubUndoesAdd(d: CounterData, amt: u64)
    requires LongRunAvg !in d.ty
    ensures SubData(AddData(d, amt), amt) == d
  {
    AddSub64(d.u64, amt);
  }

  /**
   * The two sample counts of a long-running average move together: inc,
   * set and reset keep them equal (read_avg relies on this to detect a
   * concurrent update).
   */
  lemma AvgCountsStayEqual(d: CounterData, amt: u64)
    requires d.avgcount == d.avgcount2
    ensures AddData(d, amt).avgcount == AddData(d, amt).avgcount2
    ensures SetData(d, amt).avgcount == SetData(d, amt).avgcount2
    ensures ResetData(d).avgcount == ResetData(d).avgcount2
  {
  }

  /** The slots of a whole logger after reset. */
  function ResetAll(s: seq<CounterData>): (r: seq<CounterData>)
    ensures |r| == |s| && forall i :: 0 <= i < |s| ==> r[i] == ResetData(s[i])
  {
    seq(|s|, i requires 0 <= i < |s| => ResetData(s[i]))
  }

  /** A time value split as tget does: whole seconds and the nanoseconds left over. */
  datatype UTime = UTime(sec: nat, nsec: nat)

  const NSEC_PER_SEC: nat := 1_000_000_000

  /** The split of a nanosecond count into seconds and nanoseconds. */
  function SplitNanos(v: u64): (t: UTime)
    ensures t.sec * NSEC_PER_SEC + t.nsec == v
    ensures t.nsec < NSEC_PER_SEC
  {
    UTime(v / NSEC_PER_SEC, v % NSEC_PER_SEC)
  }

  /** A seconds/nanoseconds pair with less than a second of nanoseconds is the split of its total. */
  lemma SplitNanosUnique(v: u64, t: UTime)
    requires t.sec * NSEC_PER_SEC + t.nsec == v && t.nsec < NSEC_PER_SEC
    ensures SplitNanos(v) == t
  {
  }

  class PerfCounters {
    const lowerBound: int
    const upperBound: int
    var name: string
    /** m_data: one slot per index in (lowerBound, upperBound). */
    const data: array<CounterData>

    ghost predicate Valid()
      reads this
    {
      data.Length == upperBound - lowerBound - 1
    }

    /** The constructor sizes the slots to upper - lower - 1. */
    constructor(name: string, lowerBound: int, upperBound: int)
      requires lowerBound < upperBound
      ensures Valid()
      ensures this.name == name && this.lowerBound == lowerBound && this.upperBound == upperBound
      ensures forall i :: 0 <= i < data.Length ==> data[i] == EmptyData
      ensures fresh(data)
    {
      this.name := name;
      this.lowerBound := lowerBound;
      this.upperBound := upperBound;
      data := new CounterData[upperBound - lowerBound - 1](_ => EmptyData);
    }

    predicate InRange(idx: int)
      reads this
    {
      lowerBound < idx < upperBound
    }

    /** Counter `idx` lives in slot idx - lower - 1. */
    function Slot(idx: int): (i: nat)
      reads this
      requires Valid() && InRange(idx)
      ensures i < data.Length
      ensures i + lowerBound + 1 == idx
    {
      idx - lowerBound - 1
    }

    /** Whether an update of counter `idx` needing `flag` takes effect. */
    predicate Gate(perf: bool, idx: int, flag: PerfFlag)
      reads this, data
      requires Valid() && (perf ==> InRange(idx))
    {
      perf && flag in data[Slot(idx)].ty
    }

    /** get: the stored value of an enabled U64 counter, 0 otherwise. */
    function Get(perf: bool, idx: int): (v: u64)
      reads this, data
      requires Valid() && (perf ==> InRange(idx))
      ensures Gate(perf, idx, U64) ==> v == data[Slot(idx)].u64
      ensures !Gate(perf, idx, U64) ==> v == 0
    {
      if !perf then 0
      else if U64 !in data[Slot(idx)].ty then 0
      else data[Slot(idx)].u64
    }

    /** tget: the stored nanoseconds of an enabled TIME counter, split; zero otherwise. */
    function TGet(perf: bool, idx: int): (t: UTime)
      reads this, data
      requires Valid() && (perf ==> InRange(idx))
      ensures Gate(perf, idx, Time) ==> t.sec * NSEC_PER_SEC + t.nsec == data[Slot(idx)].u64
      ensures !Gate(perf, idx, Time) ==> t == UTime(0, 0)
    {
      if !perf then UTime(0, 0)
      else if Time !in data[Slot(idx)].ty then UTime(0, 0)
      else SplitNanos(data[Slot(idx)].u64)
    }

    /** inc: adds `amt` to an enabled U64 counter; nothing else changes. */
    method Inc(perf: bool, idx: int, amt: u64)
      requires Valid() && (perf ==> InRange(idx))
      modifies data
      ensures Gate(perf, idx, U64) ==> data[..] == old(data[..])[Slot(idx) := AddData(old(data[Slot(idx)]), amt)]
      ensures Gate(perf, idx, U64) ==> Get(perf, idx) == Add64(old(Get(perf, idx)), amt)
      ensures !old(Gate(perf, idx, U64)) ==> data[..] == old(data[..])
    {
      if !perf {
        return;
      }
      var i := idx - lowerBound - 1;
      if U64 !in data[i].ty {
        return;
      }
      data[i] := AddData(data[i], amt);
    }

    /** dec: subtracts `amt` from an enabled U64 counter; never a long-running average. */
    method Dec(perf: bool, idx: int, amt: u64)
      requires Valid() && (perf ==> InRange(idx))
      requires perf ==> LongRunAvg !in data[Slot(idx)].ty
      modifies data
      ensures Gate(perf, idx, U64) ==> data[..] == old(data[..])[Slot(idx) := SubData(old(data[Slot(idx)]), amt)]
      ensures Gate(perf, idx, U64) ==> Get(perf, idx) == Sub64(old(Get(perf, idx)), amt)
      ensures !old(Gate(perf, idx, U64)) ==> data[..] == old(data[..])
    {
      if !perf {
        return;
      }
      var i := idx - lowerBound - 1;
      if U64 !in data[i].ty {
        return;
      }
      data[i] := SubData(data[i], amt);
    }

    /** set: stores `amt` in an enabled U64 counter, which get then returns. */
    method Set(perf: bool, idx: int, amt: u64)
      requires Valid() && (perf ==> InRange(idx))
      modifies data
      ensures Gate(perf, idx, U64) ==> data[..] == old(data[..])[Slot(idx) := SetData(old(data[Slot(idx)]), amt)]
      ensures Gate(perf, idx, U64) ==> Get(perf, idx) == amt
      ensures !old(Gate(perf, idx, U64)) ==> data[..] == old(data[..])
    {
      if !perf {
        return;
      }
      var i := idx - lowerBound - 1;
      if U64 !in data[i].ty {
        return;
      }
      data[i] := SetData(data[i], amt);
    }

    /** tinc: adds `ns` nanoseconds to an enabled TIME counter. */
    method TInc(perf: bool, idx: int, ns: u64)
      requires Valid() && (perf ==> InRange(idx))
      modifies data
      ensures Gate(perf, idx, Time) ==> data[..] == old(data[..])[Slot(idx) := AddData(old(data[Slot(idx)]), ns)]
      ensures !old(Gate(perf, idx, Time)) ==> data[..] == old(data[..])
    {
      if !perf {
        return;
      }
      var i := idx - lowerBound - 1;
      if Time !in data[i].ty {
        return;
      }
      data[i] := AddData(data[i], ns);
    }

    /**
     * tset: stores `ns` in an enabled TIME counter, which tget then splits
     * back; a long-running average aborts.
     */
    method TSet(perf: bool, idx: int, ns: u64)
      requires Valid() && (perf ==> InRange(idx))
      requires perf && Time in data[Slot(idx)].ty ==> LongRunAvg !in data[Slot(idx)].ty
      modifies data
      ensures Gate(perf, idx, Time) ==> data[..] == old(data[..])[Slot(idx) := old(data[Slot(idx)]).(u64 := ns)]
      ensures Gate(perf, idx, Time) ==> TGet(perf, idx) == SplitNanos(ns)
      ensures !old(Gate(perf, idx, Time)) ==> data[..] == old(data[..])
    {
      if !perf {
        return;
      }
      var i := idx - lowerBound - 1;
      if Time !in data[i].ty {
        return;
      }
      data[i] := data[i].(u64 := ns);
    }

    /** reset: every slot reset in place. */
    method Reset()
      modifies data
      ensures data[..] == ResetAll(old(data[..]))
    {
      var i := 0;
      while i < data.Length
        invariant 0 <= i <= data.Length
        invariant forall j :: 0 <= j < i ==> data[j] == ResetData(old(data[j]))
        invariant forall j :: i <= j < data.Length ==> data[j] == old(data[j])
      {
        data[i] := ResetData(data[i]);
        i := i + 1;
      }
    }
  }

  /** What create_perf_counters demands of every slot: configured, as U64 or TIME. */
  predicate Ready(d: CounterData)
  {
    d.ty != {} && (U64 in d.ty || Time in d.ty)
  }

  /** Every type the builder's add_* helpers use passes create_perf_counters. */
  lemma BuilderTypesAreReady(d: CounterData)
    requires d.ty in {TYPE_U64_COUNTER, TYPE_U64, TYPE_U64_AVG, TYPE_TIME, TYPE_TIME_AVG,
                      TYPE_U64_COUNTER_HISTOGRAM}
    ensures Ready(d)
  {
  }

  class PerfCountersBuilder {
    /** m_perf_counters: the logger being built, handed over (and cleared) by create. */
    var perfCounters: PerfCounters?
    const prioDefault: int

    constructor(name: string, first: int, last: int, prioDefault: int)
      requires first < last
      ensures perfCounters != null && fresh(perfCounters) && fresh(perfCounters.data)
      ensures perfCounters.Valid() && perfCounters.name == name
      ensures perfCounters.lowerBound == first && perfCounters.upperBound == last
      ensures forall i :: 0 <= i < perfCounters.data.Length ==> perfCounters.data[i] == EmptyData
      ensures this.prioDefault == prioDefault
    {
      perfCounters := new PerfCounters(name, first, last);
      this.prioDefault := prioDefault;
    }

    /**
     * add_impl: configures the unconfigured slot of `idx`; a nick has at
     * most 4 characters, and priority 0 stands for the builder's default.
     */
    method AddImpl(idx: int, name: string, description: string, nick: Option<string>, prio: int,
                   ty: CounterType, unit: int, hasHistogram: bool)
      requires perfCounters != null && perfCounters.Valid() && perfCounters.InRange(idx)
      requires perfCounters.data[perfCounters.Slot(idx)].ty == {}
      requires nick.Some? ==> |nick.value| <= 4
      modifies perfCounters.data
      ensures perfCounters.data[perfCounters.Slot(idx)]
              == old(perfCounters.data[perfCounters.Slot(idx)]).(
                   name := name, description := description, nick := nick,
                   prio := if prio != 0 then prio else prioDefault,
                   ty := ty, unit := unit, hasHistogram := hasHistogram)
      ensures forall i :: 0 <= i < perfCounters.data.Length && i != perfCounters.Slot(idx) ==>
                perfCounters.data[i] == old(perfCounters.data[i])
    {
      var i := idx - perfCounters.lowerBound - 1;
      var d := perfCounters.data[i];
      perfCounters.data[i] := d.(name := name, description := description, nick := nick,
                                 prio := if prio != 0 then prio else prioDefault,
                                 ty := ty, unit := unit, hasHistogram := hasHistogram);
    }

    /** create_perf_counters: hands the logger over once every slot is ready. */
    method CreatePerfCounters() returns (ret: PerfCounters)
      requires perfCounters != null && perfCounters.Valid()
      requires forall i :: 0 <= i < perfCounters.data.Length ==> Ready(perfCounters.data[i])
      modifies this
      ensures ret == old(perfCounters) && perfCounters == null
    {
      ret := perfCounters;
      perfCounters := null;
    }
  }

  /** The by_path key of a counter: "logger.counter". */
  function Path(logger: string, counter: string): string
  {
    logger + "." + counter
  }

  datatype PathEntry = PathEntry(logger: PerfCounters, slot: nat)

  /** The by_path entries add registers for a logger's slots, later slots winning. */
  function PathsOf(l: PerfCounters, name: string, slots: seq<CounterData>): (m: map<string, PathEntry>)
    ensures forall p :: p in m ==> exists i :: 0 <= i < |slots| && p == Path(name, slots[i].name)
    ensures forall i :: 0 <= i < |slots| ==> Path(name, slots[i].name) in m
  {
    if |slots| == 0 then map[]
    else PathsOf(l, name, slots[..|slots| - 1])[Path(name, slots[|slots| - 1].name) := PathEntry(l, |slots| - 1)]
  }

  lemma UnionThenUpdate<K, V>(m: map<K, V>, p: map<K, V>, k: K, v: V)
    ensures (m + p)[k := v] == m + p[k := v]
  {
  }

  /** The by_path keys of a logger's slots. */
  function PathKeys(name: string, slots: seq<CounterData>): (k: set<string>)
    ensures forall p :: p in k <==> exists i :: 0 <= i < |slots| && p == Path(name, slots[i].name)
  {
    set i | 0 <= i < |slots| :: Path(name, slots[i].name)
  }

  /** The length of the longest name. */
  function MaxLen(names: seq<string>): (n: nat)
    ensures forall i :: 0 <= i < |names| ==> |names[i]| <= n
  {
    if |names| == 0 then 0
    else var m := MaxLen(names[..|names| - 1]); if |names[|names| - 1]| > m then |names[|names| - 1]| else m
  }

  /** The name add gives a logger: `suffix` appended until no logger has it. */
  function Uniquify(name: string, suffix: string, taken: seq<string>): (r: string)
    requires |suffix| > 0
    ensures r !in taken
    ensures |name| <= |r| && r[..|name|] == name
    decreases MaxLen(taken) + 1 - |name|
  {
    if name in taken then Uniquify(name + suffix, suffix, taken) else name
  }

  /** A name that is free is kept as it is. */
  lemma UniquifyKeepsFreeName(name: string, suffix: string, taken: seq<string>)
    requires |suffix| > 0 && name !in taken
    ensures Uniquify(name, suffix, taken) == name
  {
  }

  class PerfCountersCollection {
    /** m_loggers, kept ordered by (unique) name in the source. */
    var loggers: seq<PerfCounters>
    var byPath: map<string, PathEntry>

    function Names(): (ns: seq<string>)
      reads this, loggers
      ensures |ns| == |loggers| && forall i :: 0 <= i < |loggers| ==> ns[i] == loggers[i].name
    {
      seq(|loggers|, i reads this, loggers requires 0 <= i < |loggers| => loggers[i].name)
    }

    /** Loggers have distinct names and their own slot arrays. */
    ghost predicate Valid()
      reads this, loggers
    {
      && (forall i :: 0 <= i < |loggers| ==> loggers[i].Valid())
      && (forall i, j :: 0 <= i < j < |loggers| ==> loggers[i].name != loggers[j].name)
      && (forall i, j :: 0 <= i < j < |loggers| ==> loggers[i].data != loggers[j].data)
    }

    constructor()
      ensures Valid() && loggers == [] && byPath == map[]
    {
      loggers := [];
      byPath := map[];
    }

    /**
     * add: renames the logger with "-" + its address until its name is
     * unused, registers it, and indexes each of its counters by path.
     */
    method Add(l: PerfCounters, addr: string)
      requires Valid() && l.Valid() && l !in loggers && |addr| > 0
      requires forall i :: 0 <= i < |loggers| ==> loggers[i].data != l.data
      modifies this, l
      ensures Valid()
      ensures l.name == Uniquify(old(l.name), "-" + addr, old(Names()))
      ensures loggers == old(loggers) + [l]
      ensures byPath == old(byPath) + PathsOf(l, l.name, l.data[..])
    {
      RenameUnique(l, addr);
      loggers := loggers + [l];
      RegisterPaths(l);
    }

    /** The renaming loop of add. */
    method RenameUnique(l: PerfCounters, addr: string)
      requires l !in loggers && |addr| > 0
      modifies l`name
      ensures l.name == Uniquify(old(l.name), "-" + addr, old(Names()))
      ensures l.name !in Names() && Names() == old(Names())
    {
      ghost var taken := Names();
      while l.name in Names()
        invariant Names() == taken
        invariant Uniquify(l.name, "-" + addr, taken) == Uniquify(old(l.name), "-" + addr, taken)
        decreases MaxLen(taken) + 1 - |l.name|
      {
        l.name := l.name + ("-" + addr);
      }
      UniquifyKeepsFreeName(l.name, "-" + addr, taken);
    }

    /** The path-registration loop of add. */
    method RegisterPaths(l: PerfCounters)
      modifies this`byPath
      ensures byPath == old(byPath) + PathsOf(l, l.name, l.data[..])
    {
      var i := 0;
      while i < l.data.Length
        invariant 0 <= i <= l.data.Length
        invariant byPath == old(byPath) + PathsOf(l, l.name, l.data[..i])
      {
        assert l.data[..i + 1][..i] == l.data[..i];
        UnionThenUpdate(old(byPath), PathsOf(l, l.name, l.data[..i]), Path(l.name, l.data[i].name), PathEntry(l, i));
        byPath := byPath[Path(l.name, l.data[i].name) := PathEntry(l, i)];
        i := i + 1;
      }
      assert l.data[..i] == l.data[..];
    }

    /** remove: drops the logger's counter paths and the logger, which must be registered. */
    method Remove(l: PerfCounters)
      requires Valid() && l in loggers
      modifies this
      ensures Valid()
      ensures byPath == old(byPath) - PathKeys(l.name, l.data[..])
      ensures forall x :: x in loggers <==> x in old(loggers) && x != l
    {
      var i := 0;
      while i < l.data.Length
        invariant 0 <= i <= l.data.Length
        invariant loggers == old(loggers)
        invariant byPath == old(byPath) - PathKeys(l.name, l.data[..i])
      {
        assert l.data[..i + 1][..i] == l.data[..i];
        byPath := byPath - {Path(l.name, l.data[i].name)};
        i := i + 1;
      }
      assert l.data[..i] == l.data[..];
      var k :| 0 <= k < |loggers| && loggers[k] == l;
      loggers := loggers[..k] + loggers[k + 1..];
    }

    /** clear: no loggers and no paths. */
    method Clear()
      modifies this
      ensures Valid() && loggers == [] && byPath == map[]
    {
      loggers := [];
      byPath := map[];
    }

    /**
     * reset: "all" resets every logger and returns true; another name
     * resets the logger of that name and returns whether there is one.
     */
    method Reset(name: string) returns (result: bool)
      requires Valid()
      modifies set i | 0 <= i < |loggers| :: loggers[i].data
      ensures name == "all" ==> result
      ensures name != "all" ==> (result <==> name in old(Names()))
      ensures forall i :: 0 <= i < |loggers| ==>
                loggers[i].data[..] == if name == "all" || loggers[i].name == name
                                       then ResetAll(old(loggers[i].data[..])) else old(loggers[i].data[..])
    {
      result := false;
      if name == "all" {
        var i := 0;
        while i < |loggers|
          invariant 0 <= i <= |loggers|
          invariant forall j :: 0 <= j < i ==> loggers[j].data[..] == ResetAll(old(loggers[j].data[..]))
          invariant forall j :: i <= j < |loggers| ==> loggers[j].data[..] == old(loggers[j].data[..])
        {
          loggers[i].Reset();
          i := i + 1;
        }
        result := true;
      } else {
        var i := 0;
        while i < |loggers| && loggers[i].name != name
          invariant 0 <= i <= |loggers|
          invariant forall j :: 0 <= j < i ==> loggers[j].name != name
        {
          i := i + 1;
        }
        if i < |loggers| {
          loggers[i].Reset();
          result := true;
        }
      }
    }
  }
}
