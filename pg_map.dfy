/**
 * The sharded pgid -> core mapping of the crimson OSD (crimson/osd/pg_map.h).
 *
 * Every shard (seastar core) keeps its own copy of the pgid -> core map so that
 * lookups stay core-local. Updates are proxied to shard 0, which owns the load
 * table (number of PGs mapped to each core) and then copies the change out to
 * every other shard. The seastar cross-core calls are flattened here into
 * sequential code: an update runs on shard 0 and then on shards 1, 2, ... in
 * turn, so every state between two operations is a quiescent one.
 */
module PgMap {

  /** A placement-group id (spg_t); only identity and order matter here. */
  type PgId = int

  /** A seastar shard id (core_id_t, an unsigned 32-bit integer). */
  type Core = nat

  /** NULL_CORE: the largest core_id_t, meaning "no mapping". */
  const NULL_CORE: Core := 0xFFFF_FFFF

  /** The pgids that mapping `m` sends to core `c`. */
  ghost function PgsOn(m: map<PgId, Core>, c: Core): set<PgId>
  {
    set pg | pg in m && m[pg] == c
  }

  /** The pgids that mapping `m` sends to some core in [lo, hi). */
  ghost function PgsIn(m: map<PgId, Core>, lo: Core, hi: Core): set<PgId>
  {
    set pg | pg in m && lo <= m[pg] < hi
  }

  /** Each core's count in `load` is the number of pgids `m` sends to it. */
  ghost predicate CountsMatch(m: map<PgId, Core>, load: map<Core, nat>)
  {
    forall c :: c in load ==> load[c] == |PgsOn(m, c)|
  }

  /** Total of the load table over the cores in [lo, hi). */
  function LoadSum(load: map<Core, nat>, lo: Core, hi: Core): nat
    requires forall c :: lo <= c < hi ==> c in load
    decreases hi - lo
  {
    if lo >= hi then 0 else load[lo] + LoadSum(load, lo + 1, hi)
  }

  /**
   * `c` is the core std::min_element picks from an ordered load table: a core
   * with the fewest PGs, the lowest-numbered one among equals.
   */
  predicate IsLeastLoaded(load: map<Core, nat>, c: Core)
  {
    && c in load
    && (forall d :: d in load ==> load[c] <= load[d])
    && (forall d :: d in load && d < c ==> load[c] < load[d])
  }

  /** At most one core is the least loaded one. */
  lemma LeastLoadedUnique(load: map<Core, nat>, a: Core, b: Core)
    requires IsLeastLoaded(load, a) && IsLeastLoaded(load, b)
    ensures a == b
  {
  }

  /**
   * If each core's load equals the number of pgids mapped to it, the load of
   * the cores [lo, hi) adds up to the number of pgids mapped into [lo, hi).
   */
  lemma {:induction false} LoadSumCountsPgs(m: map<PgId, Core>, load: map<Core, nat>, lo: Core, hi: Core)
    requires forall c :: lo <= c < hi ==> c in load && load[c] == |PgsOn(m, c)|
    ensures LoadSum(load, lo, hi) == |PgsIn(m, lo, hi)|
    decreases hi - lo
  {
    if lo >= hi {
      assert PgsIn(m, lo, hi) == {};
    } else {
      LoadSumCountsPgs(m, load, lo + 1, hi);
      assert PgsIn(m, lo, hi) == PgsOn(m, lo) + PgsIn(m, lo + 1, hi);
      assert PgsOn(m, lo) * PgsIn(m, lo + 1, hi) == {};
    }
  }

  /** Mapping a new pgid to `c` and counting one more PG on `c` keeps the counts exact. */
  lemma CountsMatchAfterInsert(m: map<PgId, Core>, load: map<Core, nat>, pg: PgId, c: Core)
    requires CountsMatch(m, load) && pg !in m && c in load
    ensures CountsMatch(m[pg := c], load[c := load[c] + 1])
  {
    forall d | d in load
      ensures load[c := load[c] + 1][d] == |PgsOn(m[pg := c], d)|
    {
      PgsOnAfterInsert(m, pg, c, d);
    }
  }

  lemma PgsOnAfterInsert(m: map<PgId, Core>, pg: PgId, c: Core, d: Core)
    requires pg !in m
    ensures PgsOn(m[pg := c], d) == if d == c then PgsOn(m, d) + {pg} else PgsOn(m, d)
  {
  }

  /** Unmapping a pgid and counting one PG less on its core keeps the counts exact. */
  lemma CountsMatchAfterRemove(m: map<PgId, Core>, load: map<Core, nat>, pg: PgId)
    requires CountsMatch(m, load) && pg in m && m[pg] in load
    ensures load[m[pg]] > 0
    ensures CountsMatch(m - {pg}, load[m[pg] := load[m[pg]] - 1])
  {
    assert pg in PgsOn(m, m[pg]);
    forall d | d in load
      ensures load[m[pg] := load[m[pg]] - 1][d] == |PgsOn(m - {pg}, d)|
    {
      PgsOnAfterRemove(m, pg, d);
    }
  }

  lemma PgsOnAfterRemove(m: map<PgId, Core>, pg: PgId, d: Core)
    requires pg in m
    ensures PgsOn(m - {pg}, d) == if d == m[pg] then PgsOn(m, d) - {pg} else PgsOn(m, d)
  {
  }

  /**
   * std::min_element over the ordered load table core_to_num_pgs, whose keys
   * are exactly the cores [lo, hi): scans in key order, keeping the first
   * smallest count.
   */
  method MinElement(load: map<Core, nat>, lo: Core, hi: Core) returns (c: Core)
    requires lo < hi
    requires forall c :: c in load <==> lo <= c < hi
    ensures lo <= c < hi
    ensures IsLeastLoaded(load, c)
  {
    c := lo;
    var i := lo + 1;
    while i < hi
      invariant lo < i <= hi && lo <= c < i
      invariant forall d :: lo <= d < i ==> load[c] <= load[d]
      invariant forall d :: lo <= d < c ==> load[c] < load[d]
    {
      if load[i] < load[c] {
        c := i;
      }
      i := i + 1;
    }
    forall d | d in load
      ensures load[c] <= load[d]
    {
    }
  }

  /** `s` lists its elements in strictly increasing order. */
  predicate StrictlyIncreasing(s: seq<PgId>)
  {
    forall i, j :: 0 <= i < j < |s| ==> s[i] < s[j]
  }

  /** The least pgid of a non-empty set, found by a scan over its elements. */
  method LeastPgId(s: set<PgId>) returns (k: PgId)
    requires s != {}
    ensures k in s && forall x :: x in s ==> k <= x
  {
    assert (forall x :: x !in s) ==> s == {};
    k :| k in s;
    var rest := s - {k};
    while rest != {}
      invariant rest <= s && k in s
      invariant forall x :: x in s && x !in rest ==> k <= x
      decreases |rest|
    {
      assert (forall y :: y !in rest) ==> rest == {};
      var x :| x in rest;
      if x < k {
        k := x;
      }
      rest := rest - {x};
    }
  }

  class PGShardMapping {
    /** Number of shards; shard 0 holds the primary copy and the load table. */
    const shards: nat
    /** PGs are mapped to cores in [minCore, coreLimit). */
    const minCore: Core
    const coreLimit: Core
    /** pg_to_core of every shard, indexed by shard. */
    var pgToCore: seq<map<PgId, Core>>
    /** core_to_num_pgs of shard 0. */
    var coreToNumPgs: map<Core, nat>

    /**
     * The invariants of a quiescent mapping: every shard holds the same map,
     * every mapped core lies in [minCore, coreLimit) (so none is NULL_CORE),
     * the load table has exactly those cores as keys, and each core's count
     * is the number of pgids mapped to it.
     */
    ghost predicate Valid()
      reads this
    {
      && 0 < shards && |pgToCore| == shards
      && minCore < coreLimit <= NULL_CORE
      && (forall c :: c in coreToNumPgs <==> minCore <= c < coreLimit)
      && (forall s :: 0 <= s < shards ==> pgToCore[s] == pgToCore[0])
      && (forall pg :: pg in pgToCore[0] ==> minCore <= pgToCore[0][pg] < coreLimit)
      && CountsMatch(pgToCore[0], coreToNumPgs)
    }

    /** Builds the mapping on every shard with a zero count for each core in [minCore, coreLimit). */
    constructor (shards: nat, minCore: Core, coreLimit: Core)
      requires 0 < shards
      requires minCore < coreLimit <= NULL_CORE
      ensures Valid()
      ensures this.shards == shards && this.minCore == minCore && this.coreLimit == coreLimit
      ensures forall s :: 0 <= s < shards ==> pgToCore[s] == map[]
      ensures forall c :: c in coreToNumPgs ==> coreToNumPgs[c] == 0
    {
      this.shards := shards;
      this.minCore := minCore;
      this.coreLimit := coreLimit;
      var load: map<Core, nat> := map[];
      var i := minCore;
      while i != coreLimit
        invariant minCore <= i <= coreLimit
        invariant forall c :: c in load <==> minCore <= c < i
        invariant forall c :: c in load ==> load[c] == 0
        decreases coreLimit - i
      {
        load := load[i := 0];
        i := i + 1;
      }
      coreToNumPgs := load;
      pgToCore := seq(shards, _ => map[]);
    }

    /** get_pg_mapping on `shard`: the core of `pgid`, or NULL_CORE when it is unmapped. */
    function GetPgMapping(shard: nat, pgid: PgId): (r: Core)
      reads this
      requires Valid() && shard < shards
      ensures r == NULL_CORE <==> pgid !in pgToCore[shard]
      ensures r != NULL_CORE ==> r == pgToCore[shard][pgid] && r in coreToNumPgs
    {
      assert pgToCore[shard] == pgToCore[0];
      if pgid in pgToCore[shard] then pgToCore[shard][pgid] else NULL_CORE
    }

    /**
     * get_num_pgs on `shard`: the number of pgids known there, which is also
     * the total of the primary's load table.
     */
    function GetNumPgs(shard: nat): (r: nat)
      reads this
      requires Valid() && shard < shards
      ensures r == |pgToCore[shard].Keys|
      ensures r == LoadSum(coreToNumPgs, minCore, coreLimit)
    {
      var m := pgToCore[0];
      forall c | minCore <= c < coreLimit
        ensures c in coreToNumPgs && coreToNumPgs[c] == |PgsOn(m, c)|
      {
      }
      LoadSumCountsPgs(m, coreToNumPgs, minCore, coreLimit);
      forall pg | pg in m
        ensures pg in PgsIn(m, minCore, coreLimit)
      {
      }
      assert PgsIn(m, minCore, coreLimit) == m.Keys;
      |pgToCore[shard]|
    }

    /** for_each_pgid on `shard`: the pgids in the order the callback sees them, the map's key order. */
    method ForEachPgid(shard: nat) returns (visited: seq<PgId>)
      requires Valid() && shard < shards
      ensures StrictlyIncreasing(visited)
      ensures forall pg :: pg in visited <==> GetPgMapping(shard, pg) != NULL_CORE
      ensures |visited| == GetNumPgs(shard)
    {
      var rest := pgToCore[shard].Keys;
      visited := [];
      while rest != {}
        invariant rest <= pgToCore[shard].Keys
        invariant forall pg :: pg in visited <==> pg in pgToCore[shard] && pg !in rest
        invariant forall i, x :: 0 <= i < |visited| && x in rest ==> visited[i] < x
        invariant StrictlyIncreasing(visited)
        invariant |visited| + |rest| == |pgToCore[shard].Keys|
        decreases |rest|
      {
        var k := LeastPgId(rest);
        visited := visited + [k];
        rest := rest - {k};
      }
    }

    /**
     * maybe_create_pg called on `shard`. A pgid already known locally keeps its
     * core. Otherwise shard 0 picks `core` if one is given, else the least
     * loaded core, records the mapping, bumps that core's count, and copies
     * the mapping to every other shard; the result is the core now recorded
     * on `shard`.
     */
    method MaybeCreatePg(shard: nat, pgid: PgId, core: Core) returns (r: Core)
      requires Valid() && shard < shards
      requires core <= NULL_CORE
      requires pgid in pgToCore[shard] && core != NULL_CORE ==> pgToCore[shard][pgid] == core
      requires pgid !in pgToCore[shard] && core != NULL_CORE ==> core in coreToNumPgs
      modifies this
      ensures Valid()
      ensures minCore <= r < coreLimit
      ensures pgid in old(pgToCore[shard]) ==>
        r == old(pgToCore[shard][pgid]) && pgToCore == old(pgToCore) && coreToNumPgs == old(coreToNumPgs)
      ensures pgid !in old(pgToCore[shard]) ==>
        && (core == NULL_CORE ==> IsLeastLoaded(old(coreToNumPgs), r))
        && (core != NULL_CORE ==> r == core)
        && (forall s :: 0 <= s < shards ==> pgToCore[s] == old(pgToCore[s])[pgid := r])
        && coreToNumPgs == old(coreToNumPgs)[r := old(coreToNumPgs)[r] + 1]
    {
      assert pgToCore[shard] == pgToCore[0];
      if pgid in pgToCore[shard] {
        r := pgToCore[shard][pgid];
        return;
      }
      // Runs on shard 0.
      var primary := pgToCore[0];
      assert pgid !in primary;
      primary := primary[pgid := core];
      var chosen: Core;
      if core == NULL_CORE {
        chosen := MinElement(coreToNumPgs, minCore, coreLimit);
      } else {
        chosen := core;
      }
      primary := primary[pgid := chosen];
      assert primary == pgToCore[0][pgid := chosen];
      CountsMatchAfterInsert(pgToCore[0], coreToNumPgs, pgid, chosen);
      coreToNumPgs := coreToNumPgs[chosen := coreToNumPgs[chosen] + 1];
      pgToCore := pgToCore[0 := primary];
      // Runs on every other shard.
      var load := coreToNumPgs;
      var s := 1;
      while s < shards
        invariant 1 <= s <= shards && |pgToCore| == shards && coreToNumPgs == load
        invariant forall t :: 0 <= t < s ==> pgToCore[t] == primary
        invariant forall t :: s <= t < shards ==> pgToCore[t] == old(pgToCore[t])
      {
        assert pgid !in pgToCore[s];
        var updated: map<PgId, Core> := pgToCore[s][pgid := chosen];
        pgToCore := pgToCore[s := updated];
        s := s + 1;
      }
      // Back on the calling shard.
      r := pgToCore[shard][pgid];
    }

    /**
     * remove_pg: on shard 0 the pgid's core loses one from its count and the
     * mapping is erased; then the mapping is erased on every other shard.
     */
    method RemovePg(pgid: PgId)
      requires Valid()
      requires pgid in pgToCore[0]
      modifies this
      ensures Valid()
      ensures forall s :: 0 <= s < shards ==> pgToCore[s] == old(pgToCore[s]) - {pgid}
      ensures var c := old(pgToCore[0][pgid]);
        c in old(coreToNumPgs) && old(coreToNumPgs)[c] > 0 && coreToNumPgs == old(coreToNumPgs)[c := old(coreToNumPgs)[c] - 1]
    {
      // Runs on shard 0.
      var primary := pgToCore[0];
      var c := primary[pgid];
      assert c != NULL_CORE;
      CountsMatchAfterRemove(primary, coreToNumPgs, pgid);
      coreToNumPgs := coreToNumPgs[c := coreToNumPgs[c] - 1];
      primary := primary - {pgid};
      pgToCore := pgToCore[0 := primary];
      // Runs on every other shard.
      var load := coreToNumPgs;
      var s := 1;
      while s < shards
        invariant 1 <= s <= shards && |pgToCore| == shards && coreToNumPgs == load
        invariant forall t :: 0 <= t < s ==> pgToCore[t] == primary
        invariant forall t :: s <= t < shards ==> pgToCore[t] == old(pgToCore[t])
      {
        assert pgid in pgToCore[s] && pgToCore[s][pgid] != NULL_CORE;
        pgToCore := pgToCore[s := pgToCore[s] - {pgid}];
        s := s + 1;
      }
    }
  }
}
