/**
 * The MDS damage table (mds/DamageTable.cc): records of damaged dentries,
 * dirfrags and remote inodes, indexed both by what is damaged and by the
 * entry id, with a cap on the number of entries and erase by id.
 *
 * An entry is a value here; the source shares one heap object between the
 * two indexes, which the model states as equality of the two copies.
 */
module DamageTable {
  import opened MachineInt

  // System inode numbers (include/ceph_fs.h and mds/mdstypes.h).
  const MAX_MDS: nat := 0x100
  const MDS_INO_MDSDIR_OFFSET: nat := 1 * MAX_MDS
  const MDS_INO_STRAY_OFFSET: nat := 6 * MAX_MDS
  const NUM_STRAY: nat := 10
  const CEPH_INO_ROOT: nat := 1

  type Ino = u64
  type Frag = u32
  type SnapId = u64
  type DamageId = u64

  /** MDS_INO_IS_MDSDIR: the per-rank mdsdir inodes. */
  predicate IsMdsdir(ino: Ino)
  {
    MDS_INO_MDSDIR_OFFSET <= ino < MDS_INO_MDSDIR_OFFSET + MAX_MDS
  }

  /** MDS_INO_MDSDIR_OWNER */
  function MdsdirOwner(ino: Ino): int
  {
    ino - MDS_INO_MDSDIR_OFFSET
  }

  /** MDS_INO_IS_STRAY: the NUM_STRAY stray directories of every rank. */
  predicate IsStray(ino: Ino)
  {
    MDS_INO_STRAY_OFFSET <= ino < MDS_INO_STRAY_OFFSET + MAX_MDS * NUM_STRAY
  }

  /** MDS_INO_STRAY_OWNER */
  function StrayOwner(ino: Ino): int
  {
    (ino - MDS_INO_STRAY_OFFSET) / NUM_STRAY
  }

  /** Rank `r` owns exactly one mdsdir, at MDS_INO_MDSDIR_OFFSET + r. */
  lemma MdsdirOfRank(ino: Ino, r: int)
    ensures IsMdsdir(ino) && MdsdirOwner(ino) == r
            <==> 0 <= r < MAX_MDS && ino == MDS_INO_MDSDIR_OFFSET + r
  {
  }

  /** Rank `r` owns the NUM_STRAY consecutive stray inodes starting at offset + r * NUM_STRAY. */
  lemma StraysOfRank(ino: Ino, r: int)
    ensures IsStray(ino) && StrayOwner(ino) == r
            <==> 0 <= r < MAX_MDS
                 && MDS_INO_STRAY_OFFSET + r * NUM_STRAY <= ino < MDS_INO_STRAY_OFFSET + (r + 1) * NUM_STRAY
  {
    var d := ino - MDS_INO_STRAY_OFFSET;
    if IsStray(ino) {
      assert d == StrayOwner(ino) * NUM_STRAY + d % NUM_STRAY;
    }
    if 0 <= r < MAX_MDS && r * NUM_STRAY <= d < (r + 1) * NUM_STRAY {
      var q := d / NUM_STRAY;
      assert d == q * NUM_STRAY + d % NUM_STRAY;
      assert q == r;
    }
  }

  /** Dentry damage in the mdsdir or a stray directory of this rank is fatal. */
  predicate FatalForDentries(ino: Ino, rank: int)
  {
    (IsMdsdir(ino) && MdsdirOwner(ino) == rank) || (IsStray(ino) && StrayOwner(ino) == rank)
  }

  /** Dirfrag damage in a stray directory of this rank, or in the root, is fatal. */
  predicate FatalForDirfrag(ino: Ino, rank: int)
  {
    (IsStray(ino) && StrayOwner(ino) == rank) || ino == CEPH_INO_ROOT
  }

  datatype DirFragIdent = DirFragIdent(ino: Ino, frag: Frag)
  datatype DentryIdent = DentryIdent(dname: string, snapId: SnapId)

  datatype DamageEntry =
    | DirFragDamage(id: DamageId, ino: Ino, frag: Frag, path: string)
    | DentryDamage(id: DamageId, ino: Ino, frag: Frag, dname: string, snapId: SnapId, path: string)
    | BacktraceDamage(id: DamageId, ino: Ino, path: string)

  /** The dirfrag a dirfrag or dentry entry belongs to. */
  function DirFragOf(e: DamageEntry): DirFragIdent
    requires !e.BacktraceDamage?
  {
    DirFragIdent(e.ino, e.frag)
  }

  /** Entry `e` is the one by_id holds under its id. */
  ghost predicate Listed(byId: map<DamageId, DamageEntry>, e: DamageEntry)
  {
    e.id in byId && byId[e.id] == e
  }

  /** The dentry records of a dirfrag, empty when there are none. */
  function DentriesAt(dentries: map<DirFragIdent, map<DentryIdent, DamageEntry>>, k: DirFragIdent)
    : map<DentryIdent, DamageEntry>
  {
    if k in dentries then dentries[k] else map[]
  }

  /**
   * What every operation keeps, whatever ids it is given: by_id holds each
   * entry under its own id; each type index holds entries of its kind under
   * their own key; every dirfrag and backtrace entry of by_id is in its
   * index (a dentry entry may have been dropped with a sibling, see Erase).
   * The size cap is not part of it: the source reads the cap afresh on every
   * call, so a lowered setting can leave the table above it.
   */
  ghost predicate TableOk(dentries: map<DirFragIdent, map<DentryIdent, DamageEntry>>,
                          dirfrags: map<DirFragIdent, DamageEntry>, remotes: map<Ino, DamageEntry>,
                          byId: map<DamageId, DamageEntry>)
  {
    && (forall id | id in byId :: byId[id].id == id)
    && (forall k | k in dirfrags :: dirfrags[k].DirFragDamage? && DirFragOf(dirfrags[k]) == k)
    && (forall i | i in remotes :: remotes[i].BacktraceDamage? && remotes[i].ino == i)
    && (forall k, d | k in dentries && d in dentries[k] ::
          dentries[k][d].DentryDamage? && DirFragOf(dentries[k][d]) == k
          && DentryIdent(dentries[k][d].dname, dentries[k][d].snapId) == d)
    && (forall id | id in byId && byId[id].DirFragDamage? ::
          DirFragOf(byId[id]) in dirfrags && dirfrags[DirFragOf(byId[id])] == byId[id])
    && (forall id | id in byId && byId[id].BacktraceDamage? ::
          byId[id].ino in remotes && remotes[byId[id].ino] == byId[id])
  }

  /** Every entry of a type index is the one by_id lists under its id. */
  ghost predicate AllListed(dentries: map<DirFragIdent, map<DentryIdent, DamageEntry>>,
                            dirfrags: map<DirFragIdent, DamageEntry>, remotes: map<Ino, DamageEntry>,
                            byId: map<DamageId, DamageEntry>)
  {
    && (forall k | k in dirfrags :: Listed(byId, dirfrags[k]))
    && (forall i | i in remotes :: Listed(byId, remotes[i]))
    && (forall k, d | k in dentries && d in dentries[k] :: Listed(byId, dentries[k][d]))
  }

  /**
   * The two indexes agree: the table is well formed and nothing in a type
   * index is missing from by_id, so every recorded damage can be erased by
   * its id. This holds as long as every new entry draws an id not in use.
   */
  ghost predicate IndexesOk(dentries: map<DirFragIdent, map<DentryIdent, DamageEntry>>,
                            dirfrags: map<DirFragIdent, DamageEntry>, remotes: map<Ino, DamageEntry>,
                            byId: map<DamageId, DamageEntry>)
  {
    TableOk(dentries, dirfrags, remotes, byId) && AllListed(dentries, dirfrags, remotes, byId)
  }

  /**
   * Recording a new dentry keeps the table well formed; under
   * an id not in use it also keeps the indexes in agreement.
   */
  lemma AddDentryKeepsIndexes(dentries: map<DirFragIdent, map<DentryIdent, DamageEntry>>,
                              dirfrags: map<DirFragIdent, DamageEntry>, remotes: map<Ino, DamageEntry>,
                              byId: map<DamageId, DamageEntry>, entry: DamageEntry)
    requires TableOk(dentries, dirfrags, remotes, byId)
    requires entry.DentryDamage?
    requires DentryIdent(entry.dname, entry.snapId) !in DentriesAt(dentries, DirFragOf(entry))
    ensures var k, d := DirFragOf(entry), DentryIdent(entry.dname, entry.snapId);
      TableOk(dentries[k := DentriesAt(dentries, k)[d := entry]], dirfrags, remotes,
              byId[entry.id := entry])
    ensures var k, d := DirFragOf(entry), DentryIdent(entry.dname, entry.snapId);
      entry.id !in byId && AllListed(dentries, dirfrags, remotes, byId) ==>
        AllListed(dentries[k := DentriesAt(dentries, k)[d := entry]], dirfrags, remotes, byId[entry.id := entry])
  {
    var k, d := DirFragOf(entry), DentryIdent(entry.dname, entry.snapId);
    AddDentryKeepsTable(dentries, dirfrags, remotes, byId, entry);
    if entry.id !in byId && AllListed(dentries, dirfrags, remotes, byId) {
      var dentries' := dentries[k := DentriesAt(dentries, k)[d := entry]];
      forall k2, d2 | k2 in dentries' && d2 in dentries'[k2]
        ensures Listed(byId[entry.id := entry], dentries'[k2][d2])
      {
        if k2 != k || d2 != d {
          assert dentries'[k2][d2] == dentries[k2][d2];
        }
      }
    }
  }

  lemma AddDentryKeepsTable(dentries: map<DirFragIdent, map<DentryIdent, DamageEntry>>,
                            dirfrags: map<DirFragIdent, DamageEntry>, remotes: map<Ino, DamageEntry>,
                            byId: map<DamageId, DamageEntry>, entry: DamageEntry)
    requires TableOk(dentries, dirfrags, remotes, byId)
    requires entry.DentryDamage?
    requires DentryIdent(entry.dname, entry.snapId) !in DentriesAt(dentries, DirFragOf(entry))
    ensures var k, d := DirFragOf(entry), DentryIdent(entry.dname, entry.snapId);
      TableOk(dentries[k := DentriesAt(dentries, k)[d := entry]], dirfrags, remotes,
              byId[entry.id := entry])
  {
  }

  /** The same for a new dirfrag. */
  lemma AddDirfragKeepsIndexes(dentries: map<DirFragIdent, map<DentryIdent, DamageEntry>>,
                               dirfrags: map<DirFragIdent, DamageEntry>, remotes: map<Ino, DamageEntry>,
                               byId: map<DamageId, DamageEntry>, entry: DamageEntry)
    requires TableOk(dentries, dirfrags, remotes, byId)
    requires entry.DirFragDamage? && DirFragOf(entry) !in dirfrags
    ensures TableOk(dentries, dirfrags[DirFragOf(entry) := entry], remotes, byId[entry.id := entry])
    ensures entry.id !in byId && AllListed(dentries, dirfrags, remotes, byId) ==>
              AllListed(dentries, dirfrags[DirFragOf(entry) := entry], remotes, byId[entry.id := entry])
  {
  }

  /** The same for a new remote inode. */
  lemma AddRemoteKeepsIndexes(dentries: map<DirFragIdent, map<DentryIdent, DamageEntry>>,
                              dirfrags: map<DirFragIdent, DamageEntry>, remotes: map<Ino, DamageEntry>,
                              byId: map<DamageId, DamageEntry>, entry: DamageEntry)
    requires TableOk(dentries, dirfrags, remotes, byId)
    requires entry.BacktraceDamage? && entry.ino !in remotes
    ensures TableOk(dentries, dirfrags, remotes[entry.ino := entry], byId[entry.id := entry])
    ensures entry.id !in byId && AllListed(dentries, dirfrags, remotes, byId) ==>
              AllListed(dentries, dirfrags, remotes[entry.ino := entry], byId[entry.id := entry])
  {
  }

  /**
   * A new dirfrag entry whose random id is already in use overwrites the
   * by_id slot of an older dirfrag or backtrace entry: the older entry stays
   * in its type index, so is_dirfrag_damaged or is_remote_damaged keeps
   * reporting it, yet by_id no longer lists it and erase cannot reach it.
   */
  lemma DirfragIdCollisionOrphansEntry(dentries: map<DirFragIdent, map<DentryIdent, DamageEntry>>,
                                       dirfrags: map<DirFragIdent, DamageEntry>, remotes: map<Ino, DamageEntry>,
                                       byId: map<DamageId, DamageEntry>, entry: DamageEntry)
    requires IndexesOk(dentries, dirfrags, remotes, byId)
    requires entry.DirFragDamage? && DirFragOf(entry) !in dirfrags
    requires entry.id in byId && !byId[entry.id].DentryDamage?
    ensures var older := byId[entry.id];
      var dirfrags' := dirfrags[DirFragOf(entry) := entry];
      && (older.DirFragDamage? ==> DirFragOf(older) in dirfrags' && dirfrags'[DirFragOf(older)] == older)
      && (older.BacktraceDamage? ==> older.ino in remotes && remotes[older.ino] == older)
      && !Listed(byId[entry.id := entry], older)
      && !AllListed(dentries, dirfrags', remotes, byId[entry.id := entry])
  {
    var older := byId[entry.id];
    var dirfrags' := dirfrags[DirFragOf(entry) := entry];
    assert older != entry;
    if older.DirFragDamage? {
      assert dirfrags'[DirFragOf(older)] == older;
    } else {
      assert remotes[older.ino] == older;
    }
  }

  /** Dropping a dirfrag entry from both indexes keeps the table well formed and the indexes in agreement. */
  lemma EraseDirfragKeepsIndexes(dentries: map<DirFragIdent, map<DentryIdent, DamageEntry>>,
                                 dirfrags: map<DirFragIdent, DamageEntry>, remotes: map<Ino, DamageEntry>,
                                 byId: map<DamageId, DamageEntry>, id: DamageId)
    requires TableOk(dentries, dirfrags, remotes, byId)
    requires id in byId && byId[id].DirFragDamage?
    ensures TableOk(dentries, dirfrags - {DirFragOf(byId[id])}, remotes, byId - {id})
    ensures AllListed(dentries, dirfrags, remotes, byId) ==>
              AllListed(dentries, dirfrags - {DirFragOf(byId[id])}, remotes, byId - {id})
  {
  }

  /** Dropping a dentry entry's whole dirfrag map, and the entry from by_id, keeps both properties. */
  lemma EraseDentryKeepsIndexes(dentries: map<DirFragIdent, map<DentryIdent, DamageEntry>>,
                                dirfrags: map<DirFragIdent, DamageEntry>, remotes: map<Ino, DamageEntry>,
                                byId: map<DamageId, DamageEntry>, id: DamageId)
    requires TableOk(dentries, dirfrags, remotes, byId)
    requires id in byId && byId[id].DentryDamage?
    ensures TableOk(dentries - {DirFragOf(byId[id])}, dirfrags, remotes, byId - {id})
    ensures AllListed(dentries, dirfrags, remotes, byId) ==>
              AllListed(dentries - {DirFragOf(byId[id])}, dirfrags, remotes, byId - {id})
  {
  }

  /** Dropping a backtrace entry from both indexes keeps both properties. */
  lemma EraseRemoteKeepsIndexes(dentries: map<DirFragIdent, map<DentryIdent, DamageEntry>>,
                                dirfrags: map<DirFragIdent, DamageEntry>, remotes: map<Ino, DamageEntry>,
                                byId: map<DamageId, DamageEntry>, id: DamageId)
    requires TableOk(dentries, dirfrags, remotes, byId)
    requires id in byId && byId[id].BacktraceDamage?
    ensures TableOk(dentries, dirfrags, remotes - {byId[id].ino}, byId - {id})
    ensures AllListed(dentries, dirfrags, remotes, byId) ==>
              AllListed(dentries, dirfrags, remotes - {byId[id].ino}, byId - {id})
  {
  }

  class DamageTable {
    const rank: int
    var dentries: map<DirFragIdent, map<DentryIdent, DamageEntry>>
    var dirfrags: map<DirFragIdent, DamageEntry>
    var remotes: map<Ino, DamageEntry>
    var byId: map<DamageId, DamageEntry>

    ghost predicate Valid()
      reads this
    {
      TableOk(dentries, dirfrags, remotes, byId)
    }

    /** The type indexes and by_id agree, see IndexesOk. */
    ghost predicate Consistent()
      reads this
    {
      IndexesOk(dentries, dirfrags, remotes, byId)
    }

    constructor(rank: int)
      ensures Valid() && Consistent()
      ensures this.rank == rank
      ensures dentries == map[] && dirfrags == map[] && remotes == map[] && byId == map[]
    {
      this.rank := rank;
      dentries := map[];
      dirfrags := map[];
      remotes := map[];
      byId := map[];
    }

    /**
     * oversized: more entries than the cap `maxEntries`, the setting
     * mds_damage_table_max_entries as it stands at the time of the call.
     */
    predicate Oversized(maxEntries: nat)
      reads this
    {
      |byId| > maxEntries
    }

    /** is_dentry_damaged */
    predicate IsDentryDamaged(ino: Ino, frag: Frag, dname: string, snapId: SnapId)
      reads this
      ensures IsDentryDamaged(ino, frag, dname, snapId) && Consistent() ==>
                exists id :: id in byId && byId[id].DentryDamage? && byId[id].ino == ino && byId[id].frag == frag
                             && byId[id].dname == dname && byId[id].snapId == snapId
    {
      DirFragIdent(ino, frag) in dentries && DentryIdent(dname, snapId) in dentries[DirFragIdent(ino, frag)]
    }

    /** is_dirfrag_damaged */
    predicate IsDirfragDamaged(ino: Ino, frag: Frag)
      reads this
      ensures IsDirfragDamaged(ino, frag) && Consistent() ==>
                exists id :: id in byId && byId[id].DirFragDamage? && byId[id].ino == ino && byId[id].frag == frag
    {
      DirFragIdent(ino, frag) in dirfrags
    }

    /** is_remote_damaged */
    predicate IsRemoteDamaged(ino: Ino)
      reads this
      ensures IsRemoteDamaged(ino) && Consistent() ==>
                exists id :: id in byId && byId[id].BacktraceDamage? && byId[id].ino == ino
    {
      ino in remotes
    }

    /** The dentry records of a dirfrag, empty when there are none. */
    function DentriesOf(k: DirFragIdent): map<DentryIdent, DamageEntry>
      reads this
    {
      DentriesAt(dentries, k)
    }

    /**
     * notify_dentry: true (damage is not recorded) when the table is
     * oversized or the dentry is in a system directory of this rank;
     * otherwise records the dentry unless it already is, and returns false.
     * The new entry takes the random id `freshId` and, like the source,
     * overwrites whatever by_id held under it; the indexes stay in agreement
     * only when that id was not in use. `maxEntries` is the cap as it stands
     * at this call; a record is added only below it, so by_id then holds at
     * most one entry more than the cap.
     */
    method NotifyDentry(ino: Ino, frag: Frag, snapId: SnapId, dname: string, path: string,
                        freshId: DamageId, maxEntries: nat) returns (fatal: bool)
      requires Valid()
      modifies this
      ensures Valid()
      ensures !fatal ==> |byId| <= maxEntries + 1
      ensures old(Consistent()) && freshId !in old(byId) ==> Consistent()
      ensures fatal <==> old(Oversized(maxEntries)) || FatalForDentries(ino, rank)
      ensures fatal ==> unchanged(this)
      ensures !fatal ==> IsDentryDamaged(ino, frag, dname, snapId)
      ensures !fatal ==> dirfrags == old(dirfrags) && remotes == old(remotes)
      ensures !fatal && old(IsDentryDamaged(ino, frag, dname, snapId)) ==>
                byId == old(byId) && dentries == old(dentries)
      ensures !fatal && !old(IsDentryDamaged(ino, frag, dname, snapId)) ==>
                var entry := DentryDamage(freshId, ino, frag, dname, snapId, path);
                && byId == old(byId)[freshId := entry]
                && dentries == old(dentries)[DirFragIdent(ino, frag) :=
                                              old(DentriesOf(DirFragIdent(ino, frag)))[DentryIdent(dname, snapId) := entry]]
    {
      if Oversized(maxEntries) {
        return true;
      }
      if FatalForDentries(ino, rank) {
        return true;
      }
      var k := DirFragIdent(ino, frag);
      var d := DentryIdent(dname, snapId);
      var inner := DentriesOf(k);
      if d !in inner {
        var entry := DentryDamage(freshId, ino, frag, dname, snapId, path);
        AddDentryKeepsIndexes(dentries, dirfrags, remotes, byId, entry);
        dentries := dentries[k := inner[d := entry]];
        byId := byId[freshId := entry];
      }
      return false;
    }

    /**
     * notify_dirfrag: true when the dirfrag is a stray of this rank or the
     * root (checked before the size cap) or the table is oversized;
     * otherwise records the dirfrag unless it already is, and returns false.
     * A colliding `freshId` overwrites by_id as in NotifyDentry.
     */
    method NotifyDirfrag(ino: Ino, frag: Frag, path: string, freshId: DamageId, maxEntries: nat)
      returns (fatal: bool)
      requires Valid()
      modifies this
      ensures Valid()
      ensures !fatal ==> |byId| <= maxEntries + 1
      ensures old(Consistent()) && freshId !in old(byId) ==> Consistent()
      ensures fatal <==> FatalForDirfrag(ino, rank) || old(Oversized(maxEntries))
      ensures fatal ==> unchanged(this)
      ensures !fatal ==> IsDirfragDamaged(ino, frag)
      ensures !fatal ==> dentries == old(dentries) && remotes == old(remotes)
      ensures !fatal && old(IsDirfragDamaged(ino, frag)) ==> byId == old(byId) && dirfrags == old(dirfrags)
      ensures !fatal && !old(IsDirfragDamaged(ino, frag)) ==>
                var entry := DirFragDamage(freshId, ino, frag, path);
                byId == old(byId)[freshId := entry] && dirfrags == old(dirfrags)[DirFragIdent(ino, frag) := entry]
    {
      if FatalForDirfrag(ino, rank) {
        return true;
      }
      if Oversized(maxEntries) {
        return true;
      }
      var k := DirFragIdent(ino, frag);
      if k !in dirfrags {
        var entry := DirFragDamage(freshId, ino, frag, path);
        AddDirfragKeepsIndexes(dentries, dirfrags, remotes, byId, entry);
        dirfrags := dirfrags[k := entry];
        byId := byId[freshId := entry];
      }
      return false;
    }

    /**
     * notify_remote_damaged: true when oversized; otherwise records the
     * inode unless it already is, and returns false. A colliding `freshId`
     * overwrites by_id as in NotifyDentry.
     */
    method NotifyRemoteDamaged(ino: Ino, path: string, freshId: DamageId, maxEntries: nat)
      returns (fatal: bool)
      requires Valid()
      modifies this
      ensures Valid()
      ensures !fatal ==> |byId| <= maxEntries + 1
      ensures old(Consistent()) && freshId !in old(byId) ==> Consistent()
      ensures fatal <==> old(Oversized(maxEntries))
      ensures fatal ==> unchanged(this)
      ensures !fatal ==> IsRemoteDamaged(ino)
      ensures !fatal ==> dentries == old(dentries) && dirfrags == old(dirfrags)
      ensures !fatal && old(IsRemoteDamaged(ino)) ==> byId == old(byId) && remotes == old(remotes)
      ensures !fatal && !old(IsRemoteDamaged(ino)) ==>
                var entry := BacktraceDamage(freshId, ino, path);
                byId == old(byId)[freshId := entry] && remotes == old(remotes)[ino := entry]
    {
      if Oversized(maxEntries) {
        return true;
      }
      if ino !in remotes {
        var entry := BacktraceDamage(freshId, ino, path);
        AddRemoteKeepsIndexes(dentries, dirfrags, remotes, byId, entry);
        remotes := remotes[ino := entry];
        byId := byId[freshId := entry];
      }
      return false;
    }

    /**
     * erase: an unknown id is ignored; otherwise the entry leaves by_id and
     * its index. For a dentry entry the whole dentry map of its dirfrag is
     * dropped, siblings included.
     */
    method Erase(id: DamageId)
      requires Valid()
      modifies this
      ensures Valid()
      ensures old(Consistent()) ==> Consistent()
      ensures id !in old(byId) ==> unchanged(this)
      ensures id in old(byId) ==>
                var e := old(byId)[id];
                && byId == old(byId) - {id}
                && dirfrags == (if e.DirFragDamage? then old(dirfrags) - {DirFragOf(e)} else old(dirfrags))
                && dentries == (if e.DentryDamage? then old(dentries) - {DirFragOf(e)} else old(dentries))
                && remotes == (if e.BacktraceDamage? then old(remotes) - {e.ino} else old(remotes))
    {
      if id !in byId {
        return;
      }
      var e := byId[id];
      match e {
        case DirFragDamage(_, _, _, _) => EraseDirfragEntry(id);
        case DentryDamage(_, _, _, _, _, _) => EraseDentryEntry(id);
        case BacktraceDamage(_, _, _) => EraseBacktraceEntry(id);
      }
    }

    method EraseDirfragEntry(id: DamageId)
      requires Valid()
      requires id in byId && byId[id].DirFragDamage?
      modifies this`dirfrags, this`byId
      ensures Valid()
      ensures old(Consistent()) ==> Consistent()
      ensures byId == old(byId) - {id}
      ensures dirfrags == old(dirfrags) - {DirFragOf(old(byId)[id])}
    {
      var e := byId[id];
      EraseDirfragKeepsIndexes(dentries, dirfrags, remotes, byId, id);
      dirfrags := dirfrags - {DirFragOf(e)};
      byId := byId - {id};
    }

    method EraseDentryEntry(id: DamageId)
      requires Valid()
      requires id in byId && byId[id].DentryDamage?
      modifies this`dentries, this`byId
      ensures Valid()
      ensures old(Consistent()) ==> Consistent()
      ensures byId == old(byId) - {id}
      ensures dentries == old(dentries) - {DirFragOf(old(byId)[id])}
    {
      var e := byId[id];
      EraseDentryKeepsIndexes(dentries, dirfrags, remotes, byId, id);
      dentries := dentries - {DirFragOf(e)};
      byId := byId - {id};
    }

    method EraseBacktraceEntry(id: DamageId)
      requires Valid()
      requires id in byId && byId[id].BacktraceDamage?
      modifies this`remotes, this`byId
      ensures Valid()
      ensures old(Consistent()) ==> Consistent()
      ensures byId == old(byId) - {id}
      ensures remotes == old(remotes) - {old(byId)[id].ino}
    {
      var e := byId[id];
      EraseRemoteKeepsIndexes(dentries, dirfrags, remotes, byId, id);
      remotes := remotes - {e.ino};
      byId := byId - {id};
    }
  }
}
