/**
 * Bookkeeping of a SeaStore transaction (crimson/os/seastore/transaction.h):
 * the statistics counters, the lookup order over the write, retired and read
 * sets, the retired-range containment check, the placement of fresh extents
 * and the reset that keeps the ordering handle.
 *
 * Extents are values here: an extent's address, length, kind and validity
 * are what the transaction reads of it. Addresses of stable on-disk extents
 * (those in the retired set) are plain integers.
 */
module Transaction {
  import opened MachineInt

  // ---------------------------------------------------------------------
  // Counters
  // ---------------------------------------------------------------------

  /**
   * The value of an io_stat_t or version_stat_t: how many things were
   * counted and the running total of their sizes (bytes or versions).
   */
  datatype Tally = Tally(num: u64, total: u64)

  const ZeroTally := Tally(0, 0)

  /** increment_stat: component-wise uint64_t sum. */
  function Merge(a: Tally, b: Tally): (r: Tally)
    ensures r.num == Add64(a.num, b.num) && r.total == Add64(a.total, b.total)
  {
    Tally(Add64(a.num, b.num), Add64(a.total, b.total))
  }

  /** increment: one more item of the given size. */
  function Bump(t: Tally, amount: u64): (r: Tally)
    ensures r == Merge(t, Tally(1, amount))
  {
    Tally(Add64(t.num, 1), Add64(t.total, amount))
  }

  /** is_clear: both counters are zero. */
  predicate TallyIsClear(t: Tally)
  {
    t.num == 0 && t.total == 0
  }

  lemma MergeCommutes(a: Tally, b: Tally)
    ensures Merge(a, b) == Merge(b, a)
  {
  }

  /** Merging a clear tally changes nothing. */
  lemma MergeClearIsIdentity(a: Tally, z: Tally)
    requires TallyIsClear(z)
    ensures Merge(a, z) == a
  {
  }

  /** A tally without wrap-around is clear exactly when nothing was counted. */
  lemma BumpNeverClearWithoutWrap(t: Tally, amount: u64)
    requires t.num < U64_MAX
    ensures !TallyIsClear(Bump(t, amount))
  {
  }

  /** io_stat_t: number of extents and their bytes. */
  class IoStat {
    var num: u64
    var bytes: u64

    function Value(): Tally
      reads this
    {
      Tally(num, bytes)
    }

    constructor()
      ensures Value() == ZeroTally
    {
      num := 0;
      bytes := 0;
    }

    predicate IsClear()
      reads this
    {
      TallyIsClear(Value())
    }

    method Increment(b: u64)
      modifies this
      ensures Value() == Bump(old(Value()), b)
    {
      num := Add64(num, 1);
      bytes := Add64(bytes, b);
    }

    /** The argument may be this very object. */
    method IncrementStat(stat: IoStat)
      modifies this
      ensures Value() == Merge(old(Value()), old(stat.Value()))
    {
      var n, b := stat.num, stat.bytes;
      num := Add64(num, n);
      bytes := Add64(bytes, b);
    }

    method Clear()
      modifies this
      ensures Value() == ZeroTally
    {
      num := 0;
      bytes := 0;
    }
  }

  /** version_stat_t: number of extents and the sum of their versions. */
  class VersionStat {
    var num: u64
    var version: u64

    function Value(): Tally
      reads this
    {
      Tally(num, version)
    }

    constructor()
      ensures Value() == ZeroTally
    {
      num := 0;
      version := 0;
    }

    predicate IsClear()
      reads this
    {
      TallyIsClear(Value())
    }

    method Increment(v: u64)
      modifies this
      ensures Value() == Bump(old(Value()), v)
    {
      num := Add64(num, 1);
      version := Add64(version, v);
    }

    method IncrementStat(stat: VersionStat)
      modifies this
      ensures Value() == Merge(old(Value()), old(stat.Value()))
    {
      var n, v := stat.num, stat.version;
      num := Add64(num, n);
      version := Add64(version, v);
    }

    method Clear()
      modifies this
      ensures Value() == ZeroTally
    {
      num := 0;
      version := 0;
    }
  }

  /** The three counters of existing_block_stats_t. */
  datatype BlockCounts = BlockCounts(valid: u64, clean: u64, mutated: u64)

  /** inc: one more existing extent, counted as clean or as mutated. */
  function CountInc(c: BlockCounts, existClean: bool): (r: BlockCounts)
    ensures r.valid == Add64(c.valid, 1)
    ensures existClean ==> r.clean == Add64(c.clean, 1) && r.mutated == c.mutated
    ensures !existClean ==> r.mutated == Add64(c.mutated, 1) && r.clean == c.clean
  {
    if existClean then BlockCounts(Add64(c.valid, 1), Add64(c.clean, 1), c.mutated)
    else BlockCounts(Add64(c.valid, 1), c.clean, Add64(c.mutated, 1))
  }

  /** dec: one existing extent fewer. */
  function CountDec(c: BlockCounts, existClean: bool): (r: BlockCounts)
    ensures r.valid == Sub64(c.valid, 1)
    ensures existClean ==> r.clean == Sub64(c.clean, 1) && r.mutated == c.mutated
    ensures !existClean ==> r.mutated == Sub64(c.mutated, 1) && r.clean == c.clean
  {
    if existClean then BlockCounts(Sub64(c.valid, 1), Sub64(c.clean, 1), c.mutated)
    else BlockCounts(Sub64(c.valid, 1), c.clean, Sub64(c.mutated, 1))
  }

  /** valid_num == clean_num + mutated_num, in uint64_t arithmetic. */
  predicate Balanced(c: BlockCounts)
  {
    c.valid == Add64(c.clean, c.mutated)
  }

  /** dec undoes inc on the same kind of extent, wrap-around included. */
  lemma CountDecUndoesInc(c: BlockCounts, existClean: bool)
    ensures CountDec(CountInc(c, existClean), existClean) == c
  {
    AddSub64(c.valid, 1);
    if existClean {
      AddSub64(c.clean, 1);
    } else {
      AddSub64(c.mutated, 1);
    }
  }

  lemma CountIncKeepsBalance(c: BlockCounts, existClean: bool)
    requires Balanced(c)
    ensures Balanced(CountInc(c, existClean))
  {
  }

  lemma CountDecKeepsBalance(c: BlockCounts, existClean: bool)
    requires Balanced(c)
    ensures Balanced(CountDec(c, existClean))
  {
  }

  /** existing_block_stats_t */
  class ExistingBlockStats {
    var validNum: u64
    var cleanNum: u64
    var mutatedNum: u64

    function Value(): BlockCounts
      reads this
    {
      BlockCounts(validNum, cleanNum, mutatedNum)
    }

    constructor()
      ensures Value() == BlockCounts(0, 0, 0)
    {
      validNum, cleanNum, mutatedNum := 0, 0, 0;
    }

    method Inc(existClean: bool)
      modifies this
      ensures Value() == CountInc(old(Value()), existClean)
    {
      validNum := Add64(validNum, 1);
      if existClean {
        cleanNum := Add64(cleanNum, 1);
      } else {
        mutatedNum := Add64(mutatedNum, 1);
      }
    }

    method Dec(existClean: bool)
      modifies this
      ensures Value() == CountDec(old(Value()), existClean)
    {
      validNum := Sub64(validNum, 1);
      if existClean {
        cleanNum := Sub64(cleanNum, 1);
      } else {
        mutatedNum := Sub64(mutatedNum, 1);
      }
    }

    method Clear()
      modifies this
      ensures Value() == BlockCounts(0, 0, 0)
    {
      validNum, cleanNum, mutatedNum := 0, 0, 0;
    }
  }

  /** tree_stats_t */
  datatype TreeStats = TreeStats(depth: u64, numInserts: u64, numErases: u64, numUpdates: u64,
                                 extentsNumDelta: int)

  const ZeroTreeStats := TreeStats(0, 0, 0, 0, 0)

  /** tree_stats_t::is_clear: every field is zero. */
  predicate TreeStatsIsClear(s: TreeStats)
    ensures TreeStatsIsClear(s) <==> s == ZeroTreeStats
  {
    s.depth == 0 && s.numInserts == 0 && s.numErases == 0 && s.numUpdates == 0
    && s.extentsNumDelta == 0
  }

  /** ool_write_stats_t */
  datatype OolWriteStats = OolWriteStats(extents: Tally, mdBytes: u64, numRecords: u64)

  const ZeroOolWriteStats := OolWriteStats(ZeroTally, 0, 0)

  /** ool_write_stats_t::is_clear: no extents counted, no metadata, no records. */
  predicate OolWriteStatsIsClear(s: OolWriteStats)
    ensures OolWriteStatsIsClear(s) <==> s == ZeroOolWriteStats
  {
    TallyIsClear(s.extents) && s.mdBytes == 0 && s.numRecords == 0
  }

  /** The stats a reset leaves behind are the only clear ones. */
  lemma ClearStatsAreTheDefaults(t: TreeStats, o: OolWriteStats, c: Tally)
    ensures TreeStatsIsClear(t) <==> t == ZeroTreeStats
    ensures OolWriteStatsIsClear(o) <==> o == ZeroOolWriteStats
    ensures TallyIsClear(c) <==> c == ZeroTally
  {
  }

  // ---------------------------------------------------------------------
  // Extents and addresses
  // ---------------------------------------------------------------------

  /**
   * The kinds of physical address a fresh extent can carry: an absolute
   * on-disk address, an offset relative to the journal record being built,
   * a temporary address for delayed allocation, or a fake address.
   */
  datatype Paddr = Absolute(addr: int) | RecordRelative(off: int) | DelayedTemp(off: int) | Fake(id: int)

  datatype Extent = Extent(paddr: Paddr, length: nat, existClean: bool, logical: bool,
                           backref: bool, valid: bool)

  /** An extent of the retired set: a stable extent at an absolute address. */
  datatype RetiredExtent = RetiredExtent(paddr: int, length: nat)

  /** The outcome of get_extent, with the extent found when PRESENT. */
  datatype Lookup = Present(extent: Extent) | Absent | Retired

  /** The list add_fresh_extent files an extent in, in the order it tests. */
  datatype Route = ToExisting | ToDelayed | ToPreAlloc | ToInline

  function RouteOf(e: Extent): (r: Route)
    ensures r == ToExisting <==> e.existClean
    ensures r == ToDelayed <==> !e.existClean && e.paddr.DelayedTemp?
    ensures r == ToPreAlloc <==> !e.existClean && e.paddr.Absolute?
    ensures r == ToInline <==> !e.existClean && (e.paddr.RecordRelative? || e.paddr.Fake?)
  {
    if e.existClean then ToExisting
    else if e.paddr.DelayedTemp? then ToDelayed
    else if e.paddr.Absolute? then ToPreAlloc
    else ToInline
  }

  /** Sum of the lengths of a list of extents. */
  function SumLengths(s: seq<Extent>): nat
  {
    if |s| == 0 then 0 else SumLengths(s[..|s| - 1]) + s[|s| - 1].length
  }

  lemma {:induction false} SumLengthsMonotone(s: seq<Extent>, i: nat, j: nat)
    requires i <= j <= |s|
    ensures SumLengths(s[..i]) <= SumLengths(s[..j])
    decreases j - i
  {
    if i < j {
      SumLengthsMonotone(s, i + 1, j);
      assert s[..i + 1][..i] == s[..i];
    }
  }

  /**
   * The inline block list is laid out back to back from record offset 0:
   * `offset` is the total of the lengths, and each extent with a
   * record-relative address sits at the total of the lengths before it.
   */
  ghost predicate InlineLaidOut(list: seq<Extent>, offset: int)
  {
    && offset == SumLengths(list)
    && forall i :: 0 <= i < |list| && list[i].paddr.RecordRelative? ==>
                     list[i].paddr.off == SumLengths(list[..i])
  }

  /** Inline extents with record-relative addresses never overlap. */
  lemma InlineExtentsDisjoint(list: seq<Extent>, offset: int, i: nat, j: nat)
    requires InlineLaidOut(list, offset)
    requires i < j < |list|
    requires list[i].paddr.RecordRelative? && list[j].paddr.RecordRelative?
    ensures list[i].paddr.off + list[i].length <= list[j].paddr.off
    ensures list[j].paddr.off + list[j].length <= offset
  {
    assert list[..i + 1][..i] == list[..i];
    SumLengthsMonotone(list, i + 1, j);
    assert list[..j + 1][..j] == list[..j];
    SumLengthsMonotone(list, j + 1, |list|);
    assert list[..|list|] == list;
  }

  // ---------------------------------------------------------------------
  // is_retired
  // ---------------------------------------------------------------------

  /** The retired set is ordered by address, one extent per address. */
  predicate SortedByPaddr(s: seq<RetiredExtent>)
  {
    forall i, j :: 0 <= i < j < |s| ==> s[i].paddr < s[j].paddr
  }

  /** Retired extents do not overlap. */
  predicate NonOverlapping(s: seq<RetiredExtent>)
  {
    forall i, j :: 0 <= i < j < |s| ==> s[i].paddr + s[i].length <= s[j].paddr
  }

  /** Extent `e` covers [p, p + len). */
  predicate Covers(e: RetiredExtent, p: int, len: nat)
  {
    e.paddr <= p && e.paddr + e.length >= p + len
  }

  /** lower_bound: the first position whose address is at least `p`. */
  function LowerBound(s: seq<RetiredExtent>, p: int): (i: nat)
    requires SortedByPaddr(s)
    ensures i <= |s|
    ensures forall k :: 0 <= k < i ==> s[k].paddr < p
    ensures forall k :: i <= k < |s| ==> s[k].paddr >= p
  {
    if |s| == 0 || s[0].paddr >= p then 0 else 1 + LowerBound(s[1..], p)
  }

  /**
   * The position is_retired inspects: lower_bound, stepped back once when it
   * is past the end or past `p`. The source asserts the step back is
   * possible, which holds when some retired extent starts at or before `p`.
   */
  function FloorIndex(s: seq<RetiredExtent>, p: int): (j: nat)
    requires SortedByPaddr(s)
    requires |s| > 0 && s[0].paddr <= p
    ensures j < |s| && s[j].paddr <= p
    ensures forall k :: j < k < |s| ==> s[k].paddr > p
  {
    var i := LowerBound(s, p);
    if i == |s| || s[i].paddr > p then i - 1 else i
  }

  /**
   * is_retired: false on an empty retired set; otherwise whether the extent
   * starting at or just before `p` covers [p, p + len).
   */
  function IsRetired(s: seq<RetiredExtent>, p: int, len: nat): (r: bool)
    requires SortedByPaddr(s)
    requires |s| == 0 || s[0].paddr <= p
    ensures |s| == 0 ==> !r
    ensures r ==> exists k :: 0 <= k < |s| && Covers(s[k], p, len)
  {
    if |s| == 0 then false else Covers(s[FloorIndex(s, p)], p, len)
  }

  /**
   * Over non-overlapping retired extents the floor extent is the only one
   * that can cover the range, so is_retired finds every covered range.
   */
  lemma IsRetiredComplete(s: seq<RetiredExtent>, p: int, len: nat, k: nat)
    requires SortedByPaddr(s) && NonOverlapping(s)
    requires k < |s| && Covers(s[k], p, len)
    ensures s[0].paddr <= p
    ensures IsRetired(s, p, len)
  {
    if k > 0 {
      assert s[0].paddr < s[k].paddr;
    }
    var j := FloorIndex(s, p);
    assert k <= j;
    if k < j {
      assert s[k].paddr + s[k].length <= s[j].paddr;
    }
  }

  // ---------------------------------------------------------------------
  // The transaction
  // ---------------------------------------------------------------------

  /** Extents of a list that are still valid, in order. */
  function ValidOnly(s: seq<Extent>): (r: seq<Extent>)
    ensures |r| <= |s|
  {
    if |s| == 0 then []
    else if s[|s| - 1].valid then ValidOnly(s[..|s| - 1]) + [s[|s| - 1]]
    else ValidOnly(s[..|s| - 1])
  }

  /** The filtered list holds exactly the valid extents of the list. */
  lemma {:induction false} ValidOnlyKeepsExactlyTheValid(s: seq<Extent>, e: Extent)
    ensures e in ValidOnly(s) <==> e in s && e.valid
  {
    if |s| > 0 {
      var t := s[..|s| - 1];
      ValidOnlyKeepsExactlyTheValid(t, e);
      assert s == t + [s[|s| - 1]];
    }
  }

  /** Number of extents of a list that were invalidated. */
  function CountInvalid(s: seq<Extent>): (n: nat)
    ensures n == |s| - |ValidOnly(s)|
  {
    if |s| == 0 then 0
    else CountInvalid(s[..|s| - 1]) + (if s[|s| - 1].valid then 0 else 1)
  }

  /** A uint64_t counter incremented `n` times. */
  function Incremented(c: u64, n: nat): u64
  {
    if n == 0 then c else Add64(Incremented(c, n - 1), 1)
  }

  /** Incrementing `n` times adds `n` modulo 2^64. */
  lemma {:induction false} IncrementedWraps(c: u64, n: nat)
    ensures Incremented(c, n) == (c + n) % U64_MOD
  {
    if n > 0 {
      IncrementedWraps(c, n - 1);
      ModSucc(c + n - 1);
    }
  }

  /** One more in uint64_t is one more modulo 2^64. */
  lemma ModSucc(x: nat)
    ensures (x + 1) % U64_MOD == Add64(x % U64_MOD, 1)
  {
    var q := x / U64_MOD;
    var r := x % U64_MOD;
    assert x == q * U64_MOD + r;
    if r + 1 < U64_MOD {
      assert x + 1 == q * U64_MOD + (r + 1);
    } else {
      assert x + 1 == (q + 1) * U64_MOD;
    }
  }

  /** One more extent of the list: kept if valid, counted if not. */
  lemma KeepValidStep(s: seq<Extent>, i: nat)
    requires i < |s|
    ensures ValidOnly(s[..i + 1]) == ValidOnly(s[..i]) + (if s[i].valid then [s[i]] else [])
    ensures CountInvalid(s[..i + 1]) == CountInvalid(s[..i]) + (if s[i].valid then 0 else 1)
  {
    var t := s[..i + 1];
    assert t[..|t| - 1] == s[..i] && t[|t| - 1] == s[i];
  }

  /**
   * The loop of get_delayed_alloc_list and get_valid_pre_alloc_list: the
   * valid extents in order, and the counter raised once per invalid one.
   */
  method KeepValid(s: seq<Extent>, counter: u64) returns (ret: seq<Extent>, counted: u64)
    ensures ret == ValidOnly(s)
    ensures counted == Incremented(counter, CountInvalid(s))
  {
    ret := [];
    counted := counter;
    ghost var n := 0;
    var i := 0;
    while i < |s|
      invariant 0 <= i <= |s|
      invariant ret == ValidOnly(s[..i])
      invariant n == CountInvalid(s[..i])
      invariant counted == Incremented(counter, n)
    {
      KeepValidStep(s, i);
      if s[i].valid {
        ret := ret + [s[i]];
      } else {
        counted := Add64(counted, 1);
        n := n + 1;
      }
      i := i + 1;
    }
    assert s[..i] == s;
  }

  class Transaction {
    /** A weak transaction keeps no read set and may not write. */
    const weak: bool
    const transId: u64

    var hasRoot: bool
    /** Relative offset of the next inline block of the record. */
    var offset: int
    var delayedTempOffset: int
    var readSet: map<Paddr, Extent>
    var freshBackrefExtents: u64
    var writeSet: map<Paddr, Extent>
    const freshBlockStats: IoStat
    var numDelayedInvalidExtents: u64
    var numAllocatedInvalidExtents: u64
    var inlineBlockList: seq<Extent>
    var writtenOolBlockList: seq<Extent>
    var delayedAllocList: seq<Extent>
    var preAllocList: seq<Extent>
    var mutatedBlockList: seq<Extent>
    var existingBlockList: seq<Extent>
    const existingBlockStats: ExistingBlockStats
    var retiredSet: seq<RetiredExtent>
    var onodeTreeStats: TreeStats
    var omapTreeStats: TreeStats
    var lbaTreeStats: TreeStats
    var backrefTreeStats: TreeStats
    var oolWriteStats: OolWriteStats
    const rewriteVersionStats: VersionStat
    var conflicted: bool
    var hasReset: bool

    ghost predicate Valid()
      reads this, existingBlockStats
    {
      && InlineLaidOut(inlineBlockList, offset)
      && SortedByPaddr(retiredSet)
      && Balanced(existingBlockStats.Value())
    }

    constructor(weak: bool, transId: u64)
      ensures Valid()
      ensures this.weak == weak && this.transId == transId
      ensures offset == 0 && delayedTempOffset == 0 && !conflicted && !hasReset
      ensures readSet == map[] && writeSet == map[] && retiredSet == []
      ensures inlineBlockList == [] && delayedAllocList == [] && preAllocList == []
      ensures freshBlockStats.Value() == ZeroTally
      ensures fresh(freshBlockStats) && fresh(existingBlockStats) && fresh(rewriteVersionStats)
    {
      this.weak := weak;
      this.transId := transId;
      hasRoot := false;
      offset := 0;
      delayedTempOffset := 0;
      readSet := map[];
      freshBackrefExtents := 0;
      writeSet := map[];
      freshBlockStats := new IoStat();
      numDelayedInvalidExtents := 0;
      numAllocatedInvalidExtents := 0;
      inlineBlockList := [];
      writtenOolBlockList := [];
      delayedAllocList := [];
      preAllocList := [];
      mutatedBlockList := [];
      existingBlockList := [];
      existingBlockStats := new ExistingBlockStats();
      retiredSet := [];
      onodeTreeStats := ZeroTreeStats;
      omapTreeStats := ZeroTreeStats;
      lbaTreeStats := ZeroTreeStats;
      backrefTreeStats := ZeroTreeStats;
      oolWriteStats := ZeroOolWriteStats;
      rewriteVersionStats := new VersionStat();
      conflicted := false;
      hasReset := false;
    }

    /** retired_set.count(addr): retired extents sit at absolute addresses. */
    predicate InRetiredSet(addr: Paddr)
      reads this
    {
      addr.Absolute? && exists i :: 0 <= i < |retiredSet| && retiredSet[i].paddr == addr.addr
    }

    /**
     * get_extent: the write set wins, even over the retired set; then a
     * retired address is RETIRED; then the read set; otherwise ABSENT.
     */
    function GetExtent(addr: Paddr): (r: Lookup)
      reads this
      ensures addr in writeSet ==> r == Present(writeSet[addr])
      ensures r == Retired <==> addr !in writeSet && InRetiredSet(addr)
      ensures addr !in writeSet && !InRetiredSet(addr) && addr in readSet ==> r == Present(readSet[addr])
      ensures r == Absent <==> addr !in writeSet && !InRetiredSet(addr) && addr !in readSet
    {
      if addr in writeSet then Present(writeSet[addr])
      else if InRetiredSet(addr) then Retired
      else if addr in readSet then Present(readSet[addr])
      else Absent
    }

    /** is_retired over this transaction's retired set. */
    function IsRetiredRange(p: int, len: nat): (r: bool)
      reads this
      requires SortedByPaddr(retiredSet)
      requires |retiredSet| == 0 || retiredSet[0].paddr <= p
      ensures r ==> exists k :: 0 <= k < |retiredSet| && Covers(retiredSet[k], p, len)
    {
      IsRetired(retiredSet, p, len)
    }

    /**
     * The address add_fresh_extent gives an extent: a delayed extent gets
     * the next temporary offset, one at record-relative 0 the current record
     * offset, and every other extent keeps its address.
     */
    function Placed(e: Extent): (r: Extent)
      reads this
      ensures r.length == e.length && r.valid == e.valid && r.existClean == e.existClean
      ensures RouteOf(e) == ToDelayed ==> r.paddr == DelayedTemp(delayedTempOffset)
      ensures RouteOf(e) == ToInline && e.paddr.RecordRelative? ==> r.paddr == RecordRelative(offset)
      ensures RouteOf(e) == ToInline && e.paddr.Fake? ==> r == e
      ensures RouteOf(e) in {ToExisting, ToPreAlloc} ==> r == e
    {
      match RouteOf(e)
      case ToDelayed => e.(paddr := DelayedTemp(delayedTempOffset))
      case ToInline => if e.paddr.RecordRelative? then e.(paddr := RecordRelative(offset)) else e
      case _ => e
    }

    /**
     * add_fresh_extent: files the extent in the list its kind selects,
     * advances the temporary or the record offset by its length, counts it
     * and enters it in the write set.
     */
    method AddFreshExtent(e: Extent) returns (placed: Extent)
      requires Valid()
      requires !weak
      requires RouteOf(e) == ToDelayed ==> e.paddr.off == 0 && e.logical
      requires RouteOf(e) == ToInline && e.paddr.RecordRelative? ==> e.paddr.off == 0
      requires e.length < U64_MOD
      modifies this`offset, this`delayedTempOffset, this`writeSet, this`freshBackrefExtents,
               this`existingBlockList, this`delayedAllocList, this`preAllocList, this`inlineBlockList,
               freshBlockStats, existingBlockStats
      ensures Valid()
      ensures placed == old(Placed(e))
      ensures writeSet == if placed.paddr in old(writeSet) then old(writeSet) else old(writeSet)[placed.paddr := placed]
      ensures freshBackrefExtents == if e.backref then Add64(old(freshBackrefExtents), 1) else old(freshBackrefExtents)
      ensures offset == old(offset) + (if RouteOf(e) == ToInline then e.length else 0)
      ensures delayedTempOffset == old(delayedTempOffset) + (if RouteOf(e) == ToDelayed then e.length else 0)
      ensures existingBlockList == old(existingBlockList) + (if RouteOf(e) == ToExisting then [placed] else [])
      ensures delayedAllocList == old(delayedAllocList) + (if RouteOf(e) == ToDelayed then [placed] else [])
      ensures preAllocList == old(preAllocList) + (if RouteOf(e) == ToPreAlloc then [placed] else [])
      ensures inlineBlockList == old(inlineBlockList) + (if RouteOf(e) == ToInline then [placed] else [])
      ensures existingBlockStats.Value() ==
              if RouteOf(e) == ToExisting then CountInc(old(existingBlockStats.Value()), true)
              else old(existingBlockStats.Value())
      ensures freshBlockStats.Value() ==
              if RouteOf(e) == ToExisting then old(freshBlockStats.Value())
              else Bump(old(freshBlockStats.Value()), e.length)
    {
      placed := Placed(e);
      FileFresh(e, placed);
      EnterWriteSet(placed, e.backref);
    }

    /** The write-set and backref-count part of add_fresh_extent. */
    method EnterWriteSet(placed: Extent, backref: bool)
      requires Valid()
      modifies this`writeSet, this`freshBackrefExtents
      ensures Valid()
      ensures writeSet == if placed.paddr in old(writeSet) then old(writeSet) else old(writeSet)[placed.paddr := placed]
      ensures freshBackrefExtents == if backref then Add64(old(freshBackrefExtents), 1) else old(freshBackrefExtents)
    {
      if placed.paddr !in writeSet {
        writeSet := writeSet[placed.paddr := placed];
      }
      if backref {
        freshBackrefExtents := Add64(freshBackrefExtents, 1);
      }
    }

    /** The list, offset and statistics part of add_fresh_extent. */
    method FileFresh(e: Extent, placed: Extent)
      requires Valid()
      requires placed == Placed(e)
      requires RouteOf(e) == ToInline && e.paddr.RecordRelative? ==> e.paddr.off == 0
      requires e.length < U64_MOD
      modifies this`offset, this`delayedTempOffset,
               this`existingBlockList, this`delayedAllocList, this`preAllocList, this`inlineBlockList,
               freshBlockStats, existingBlockStats
      ensures Valid()
      ensures offset == old(offset) + (if RouteOf(e) == ToInline then e.length else 0)
      ensures delayedTempOffset == old(delayedTempOffset) + (if RouteOf(e) == ToDelayed then e.length else 0)
      ensures existingBlockList == old(existingBlockList) + (if RouteOf(e) == ToExisting then [placed] else [])
      ensures delayedAllocList == old(delayedAllocList) + (if RouteOf(e) == ToDelayed then [placed] else [])
      ensures preAllocList == old(preAllocList) + (if RouteOf(e) == ToPreAlloc then [placed] else [])
      ensures inlineBlockList == old(inlineBlockList) + (if RouteOf(e) == ToInline then [placed] else [])
      ensures existingBlockStats.Value() ==
              if RouteOf(e) == ToExisting then CountInc(old(existingBlockStats.Value()), true)
              else old(existingBlockStats.Value())
      ensures freshBlockStats.Value() ==
              if RouteOf(e) == ToExisting then old(freshBlockStats.Value())
              else Bump(old(freshBlockStats.Value()), e.length)
    {
      match RouteOf(e) {
        case ToExisting => FileExisting(placed);
        case ToDelayed => FileDelayed(placed);
        case ToPreAlloc => FilePreAlloc(placed);
        case ToInline => FileInline(placed);
      }
    }

    method FileExisting(placed: Extent)
      requires Valid()
      modifies this`existingBlockList, existingBlockStats
      ensures Valid()
      ensures existingBlockList == old(existingBlockList) + [placed]
      ensures existingBlockStats.Value() == CountInc(old(existingBlockStats.Value()), true)
    {
      CountIncKeepsBalance(existingBlockStats.Value(), true);
      existingBlockStats.Inc(true);
      existingBlockList := existingBlockList + [placed];
    }

    method FileDelayed(placed: Extent)
      requires placed.length < U64_MOD
      modifies this`delayedTempOffset, this`delayedAllocList, freshBlockStats
      ensures delayedTempOffset == old(delayedTempOffset) + placed.length
      ensures delayedAllocList == old(delayedAllocList) + [placed]
      ensures freshBlockStats.Value() == Bump(old(freshBlockStats.Value()), placed.length)
    {
      delayedTempOffset := delayedTempOffset + placed.length;
      delayedAllocList := delayedAllocList + [placed];
      freshBlockStats.Increment(placed.length);
    }

    method FilePreAlloc(placed: Extent)
      requires placed.length < U64_MOD
      modifies this`preAllocList, freshBlockStats
      ensures preAllocList == old(preAllocList) + [placed]
      ensures freshBlockStats.Value() == Bump(old(freshBlockStats.Value()), placed.length)
    {
      preAllocList := preAllocList + [placed];
      freshBlockStats.Increment(placed.length);
    }

    method FileInline(placed: Extent)
      requires InlineLaidOut(inlineBlockList, offset)
      requires placed.paddr.RecordRelative? ==> placed.paddr.off == offset
      requires placed.length < U64_MOD
      modifies this`offset, this`inlineBlockList, freshBlockStats
      ensures InlineLaidOut(inlineBlockList, offset)
      ensures inlineBlockList == old(inlineBlockList) + [placed]
      ensures offset == old(offset) + placed.length
      ensures freshBlockStats.Value() == Bump(old(freshBlockStats.Value()), placed.length)
    {
      AppendInline(placed);
      freshBlockStats.Increment(placed.length);
    }

    /** Appends an inline block at the end of the record and advances `offset`. */
    method AppendInline(placed: Extent)
      requires InlineLaidOut(inlineBlockList, offset)
      requires placed.paddr.RecordRelative? ==> placed.paddr.off == offset
      modifies this`offset, this`inlineBlockList
      ensures InlineLaidOut(inlineBlockList, offset)
      ensures inlineBlockList == old(inlineBlockList) + [placed]
      ensures offset == old(offset) + placed.length
    {
      var list := inlineBlockList + [placed];
      assert list[..|list| - 1] == inlineBlockList;
      forall i | 0 <= i < |inlineBlockList|
        ensures list[..i] == inlineBlockList[..i]
      {
      }
      offset := offset + placed.length;
      inlineBlockList := list;
    }

    /**
     * After add_fresh_extent, looking up the extent's new address finds it,
     * unless the write set already held an extent there.
     */
    lemma FreshExtentIsPresent(placed: Extent)
      requires placed.paddr in writeSet && writeSet[placed.paddr] == placed
      ensures GetExtent(placed.paddr) == Present(placed)
    {
    }

    /**
     * get_delayed_alloc_list: hands out the delayed extents that are still
     * valid, counts the invalidated ones, and empties the list.
     */
    method GetDelayedAllocList() returns (ret: seq<Extent>)
      modifies this`delayedAllocList, this`numDelayedInvalidExtents
      ensures ret == ValidOnly(old(delayedAllocList))
      ensures numDelayedInvalidExtents == (old(numDelayedInvalidExtents) + CountInvalid(old(delayedAllocList))) % U64_MOD
      ensures delayedAllocList == []
    {
      ret, numDelayedInvalidExtents := KeepValid(delayedAllocList, numDelayedInvalidExtents);
      IncrementedWraps(old(numDelayedInvalidExtents), CountInvalid(old(delayedAllocList)));
      delayedAllocList := [];
    }

    /**
     * get_valid_pre_alloc_list: the pre-allocated extents that are still
     * valid; the list is kept and the invalid ones are counted.
     */
    method GetValidPreAllocList() returns (ret: seq<Extent>)
      requires numAllocatedInvalidExtents == 0
      modifies this`numAllocatedInvalidExtents
      ensures ret == ValidOnly(preAllocList)
      ensures numAllocatedInvalidExtents == CountInvalid(preAllocList) % U64_MOD
    {
      ret, numAllocatedInvalidExtents := KeepValid(preAllocList, numAllocatedInvalidExtents);
      IncrementedWraps(0, CountInvalid(preAllocList));
    }

    /**
     * reset_preserve_handle: back to the state of a new transaction, except
     * that it is marked as reset (and keeps its handle and identity).
     */
    method ResetPreserveHandle()
      modifies this, freshBlockStats, existingBlockStats, rewriteVersionStats
      ensures Valid()
      ensures !hasRoot && offset == 0 && delayedTempOffset == 0
      ensures readSet == map[] && writeSet == map[] && retiredSet == []
      ensures freshBackrefExtents == 0 && numDelayedInvalidExtents == 0 && numAllocatedInvalidExtents == 0
      ensures inlineBlockList == [] && writtenOolBlockList == [] && delayedAllocList == []
      ensures preAllocList == [] && mutatedBlockList == [] && existingBlockList == []
      ensures freshBlockStats.IsClear() && rewriteVersionStats.IsClear()
      ensures existingBlockStats.Value() == BlockCounts(0, 0, 0)
      ensures TreeStatsIsClear(onodeTreeStats) && TreeStatsIsClear(omapTreeStats)
      ensures TreeStatsIsClear(lbaTreeStats) && TreeStatsIsClear(backrefTreeStats)
      ensures OolWriteStatsIsClear(oolWriteStats)
      ensures !conflicted && hasReset
    {
      ClearSetsAndLists();
      ClearStats();
      conflicted := false;
      if !hasReset {
        hasReset := true;
      }
    }

    /** The address, set and list part of reset_preserve_handle. */
    method ClearSetsAndLists()
      modifies this`hasRoot, this`offset, this`delayedTempOffset, this`readSet, this`writeSet,
               this`retiredSet, this`inlineBlockList, this`writtenOolBlockList, this`delayedAllocList,
               this`preAllocList, this`mutatedBlockList, this`existingBlockList
      ensures !hasRoot && offset == 0 && delayedTempOffset == 0
      ensures readSet == map[] && writeSet == map[] && retiredSet == []
      ensures inlineBlockList == [] && writtenOolBlockList == [] && delayedAllocList == []
      ensures preAllocList == [] && mutatedBlockList == [] && existingBlockList == []
    {
      hasRoot := false;
      offset := 0;
      delayedTempOffset := 0;
      readSet := map[];
      writeSet := map[];
      mutatedBlockList := [];
      delayedAllocList := [];
      inlineBlockList := [];
      writtenOolBlockList := [];
      preAllocList := [];
      retiredSet := [];
      existingBlockList := [];
    }

    /** The statistics part of reset_preserve_handle. */
    method ClearStats()
      modifies this`freshBackrefExtents, this`numDelayedInvalidExtents, this`numAllocatedInvalidExtents,
               this`onodeTreeStats, this`omapTreeStats, this`lbaTreeStats, this`backrefTreeStats,
               this`oolWriteStats, freshBlockStats, existingBlockStats, rewriteVersionStats
      ensures freshBackrefExtents == 0 && numDelayedInvalidExtents == 0 && numAllocatedInvalidExtents == 0
      ensures freshBlockStats.IsClear() && rewriteVersionStats.IsClear()
      ensures existingBlockStats.Value() == BlockCounts(0, 0, 0)
      ensures TreeStatsIsClear(onodeTreeStats) && TreeStatsIsClear(omapTreeStats)
      ensures TreeStatsIsClear(lbaTreeStats) && TreeStatsIsClear(backrefTreeStats)
      ensures OolWriteStatsIsClear(oolWriteStats)
    {
      freshBackrefExtents := 0;
      numDelayedInvalidExtents := 0;
      numAllocatedInvalidExtents := 0;
      freshBlockStats.Clear();
      existingBlockStats.Clear();
      rewriteVersionStats.Clear();
      onodeTreeStats := ZeroTreeStats;
      omapTreeStats := ZeroTreeStats;
      lbaTreeStats := ZeroTreeStats;
      backrefTreeStats := ZeroTreeStats;
      oolWriteStats := ZeroOolWriteStats;
    }
  }
}
