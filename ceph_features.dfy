/**
 * Feature bits exchanged between Ceph daemons and clients
 * (include/ceph_features.h). A feature is a bit number and an incarnation:
 * bits that were retired and reused carry, in their mask, the marker bits of
 * the release that reintroduced them, so that a peer advertising the old
 * meaning of the bit is not mistaken for one supporting the new meaning.
 *
 * A 64-bit feature word is represented by the set of its bit positions
 * (each below 64): `|` is set union, `&` is set intersection and `1 << b`
 * is the singleton {b}.
 */
module CephFeatures {

  type FeatureBit = b: nat | b < 64

  /** A uint64_t feature word, as the set of the bits it has set. */
  type FeatureSet = set<FeatureBit>

  datatype Incarnation = Inc1 | Inc2 | Inc3

  /** The SERVER_JEWEL bit, marker of incarnation 2. */
  const JEWEL_BIT: FeatureBit := 57
  /** The SERVER_MIMIC bit, added to the marker of incarnation 3. */
  const MIMIC_BIT: FeatureBit := 28

  /** CEPH_FEATURE_INCARNATION_N: the marker bits of each incarnation. */
  function IncarnationMask(i: Incarnation): (s: FeatureSet)
    ensures s <= {JEWEL_BIT, MIMIC_BIT}
    ensures i != Inc1 <==> JEWEL_BIT in s
    ensures i == Inc3 <==> MIMIC_BIT in s
  {
    match i
    case Inc1 => {}
    case Inc2 => {JEWEL_BIT}
    case Inc3 => {JEWEL_BIT, MIMIC_BIT}
  }

  /** A DEFINE_CEPH_FEATURE(bit, incarnation, name) entry. */
  datatype Feature = Feature(bit: FeatureBit, incarnation: Incarnation)

  /** CEPH_FEATURE_name: the bit alone. */
  function Bit(f: Feature): (s: FeatureSet)
  {
    {f.bit}
  }

  /** CEPH_FEATUREMASK_name: the bit together with its incarnation's marker bits. */
  function Mask(f: Feature): (s: FeatureSet)
    ensures f.bit in s && IncarnationMask(f.incarnation) <= s
  {
    Bit(f) + IncarnationMask(f.incarnation)
  }

  /** HAVE_FEATURE(x, name): `x` masked with the feature mask is the whole mask. */
  predicate HaveFeature(x: FeatureSet, f: Feature): (r: bool)
    ensures r <==> f.bit in x && IncarnationMask(f.incarnation) <= x
  {
    x * Mask(f) == Mask(f)
  }

  const UID: Feature := Feature(0, Inc1)
  const NOSRCADDR: Feature := Feature(1, Inc1)
  const SERVER_NAUTILUS: Feature := Feature(2, Inc3)
  const FLOCK: Feature := Feature(3, Inc1)
  const SUBSCRIBE2: Feature := Feature(4, Inc1)
  const MONNAMES: Feature := Feature(5, Inc1)
  const RECONNECT_SEQ: Feature := Feature(6, Inc1)
  const DIRLAYOUTHASH: Feature := Feature(7, Inc1)
  const OBJECTLOCATOR: Feature := Feature(8, Inc1)
  const PGID64: Feature := Feature(9, Inc1)
  const INCSUBOSDMAP: Feature := Feature(10, Inc1)
  const PGPOOL3: Feature := Feature(11, Inc1)
  const OSDREPLYMUX: Feature := Feature(12, Inc1)
  const OSDENC: Feature := Feature(13, Inc1)
  const SERVER_KRAKEN: Feature := Feature(14, Inc2)
  const MONENC: Feature := Feature(15, Inc1)
  const SERVER_OCTOPUS: Feature := Feature(16, Inc3)
  const OSD_REPOP_MLCOD: Feature := Feature(16, Inc3)
  const OS_PERF_STAT_NS: Feature := Feature(17, Inc3)
  const CRUSH_TUNABLES: Feature := Feature(18, Inc1)
  const OSD_PGLOG_HARDLIMIT: Feature := Feature(19, Inc2)
  const SERVER_PACIFIC: Feature := Feature(20, Inc3)
  const SERVER_LUMINOUS: Feature := Feature(21, Inc2)
  const RESEND_ON_SPLIT: Feature := Feature(21, Inc2)
  const RADOS_BACKOFF: Feature := Feature(21, Inc2)
  const OSDMAP_PG_UPMAP: Feature := Feature(21, Inc2)
  const CRUSH_CHOOSE_ARGS: Feature := Feature(21, Inc2)
  const OSD_FIXED_COLLECTION_LIST: Feature := Feature(22, Inc2)
  const MSG_AUTH: Feature := Feature(23, Inc1)
  const RECOVERY_RESERVATION_2: Feature := Feature(24, Inc2)
  const CRUSH_TUNABLES2: Feature := Feature(25, Inc1)
  const CREATEPOOLID: Feature := Feature(26, Inc1)
  const REPLY_CREATE_INODE: Feature := Feature(27, Inc1)
  const SERVER_MIMIC: Feature := Feature(28, Inc2)
  const MDSENC: Feature := Feature(29, Inc1)
  const OSDHASHPSPOOL: Feature := Feature(30, Inc1)
  const SERVER_REEF: Feature := Feature(31, Inc3)
  const STRETCH_MODE: Feature := Feature(32, Inc3)
  const SERVER_QUINCY: Feature := Feature(33, Inc3)
  const RANGE_BLOCKLIST: Feature := Feature(34, Inc3)
  const OSD_CACHEPOOL: Feature := Feature(35, Inc1)
  const CRUSH_V2: Feature := Feature(36, Inc1)
  const EXPORT_PEER: Feature := Feature(37, Inc1)
  const OSDMAP_ENC: Feature := Feature(39, Inc1)
  const MDS_INLINE_DATA: Feature := Feature(40, Inc1)
  const CRUSH_TUNABLES3: Feature := Feature(41, Inc1)
  const OSD_PRIMARY_AFFINITY: Feature := Feature(41, Inc1)
  const MSGR_KEEPALIVE2: Feature := Feature(42, Inc1)
  const OSD_POOLRESEND: Feature := Feature(43, Inc1)
  const OSD_FADVISE_FLAGS: Feature := Feature(46, Inc1)
  const MDS_QUOTA: Feature := Feature(47, Inc1)
  const CRUSH_V4: Feature := Feature(48, Inc1)
  const NEW_OSDOP_ENCODING: Feature := Feature(56, Inc1)
  const MON_STATEFUL_SUB: Feature := Feature(57, Inc1)
  const SERVER_JEWEL: Feature := Feature(57, Inc1)
  const CRUSH_TUNABLES5: Feature := Feature(58, Inc1)
  const NEW_OSDOPREPLY_ENCODING: Feature := Feature(58, Inc1)
  const FS_FILE_LAYOUT_V2: Feature := Feature(58, Inc1)
  const FS_BTIME: Feature := Feature(59, Inc1)
  const FS_CHANGE_ATTR: Feature := Feature(59, Inc1)
  const MSG_ADDR2: Feature := Feature(59, Inc1)
  const OSD_RECOVERY_DELETES: Feature := Feature(60, Inc1)
  const CEPHX_V2: Feature := Feature(61, Inc1)
  const RESERVED: Feature := Feature(62, Inc1)

  /**
   * CEPH_FEATURES_ALL: every feature this release advertises, the OR of its
   * operands taken ten at a time in source order. It carries both
   * incarnation markers, and not the reserved sentinel bit (the build-time
   * check).
   */
  function FeaturesAll(): (s: FeatureSet)
    ensures IncarnationMask(Inc3) <= s
    ensures RESERVED.bit !in s
  {
    AllPart1Bits();
    AllPart2Bits();
    AllPart3Bits();
    AllPart4Bits();
    AllPart5Bits();
    AllPart6Bits();
    AllPart1() + AllPart2() + AllPart3() + AllPart4() + AllPart5() + AllPart6()
  }

  function AllPart1(): (s: FeatureSet)
  {
    Bit(UID) +
    Bit(NOSRCADDR) +
    Bit(FLOCK) +
    Bit(SUBSCRIBE2) +
    Bit(MONNAMES) +
    Bit(RECONNECT_SEQ) +
    Bit(DIRLAYOUTHASH) +
    Bit(OBJECTLOCATOR) +
    Bit(PGID64) +
    Bit(INCSUBOSDMAP)
  }

  function AllPart2(): (s: FeatureSet)
  {
    Bit(PGPOOL3) +
    Bit(OSDREPLYMUX) +
    Bit(OSDENC) +
    Bit(MONENC) +
    Bit(CRUSH_TUNABLES) +
    Bit(MSG_AUTH) +
    Bit(CRUSH_TUNABLES2) +
    Bit(CREATEPOOLID) +
    Bit(REPLY_CREATE_INODE) +
    Bit(MDSENC)
  }

  function AllPart3(): (s: FeatureSet)
  {
    Bit(OSDHASHPSPOOL) +
    Bit(NEW_OSDOP_ENCODING) +
    Bit(NEW_OSDOPREPLY_ENCODING) +
    Bit(OSD_CACHEPOOL) +
    Bit(CRUSH_V2) +
    Bit(EXPORT_PEER) +
    Bit(OSDMAP_ENC) +
    Bit(MDS_INLINE_DATA) +
    Bit(CRUSH_TUNABLES3) +
    Bit(OSD_PRIMARY_AFFINITY)
  }

  function AllPart4(): (s: FeatureSet)
  {
    Bit(MSGR_KEEPALIVE2) +
    Bit(OSD_POOLRESEND) +
    Bit(OSD_FADVISE_FLAGS) +
    Bit(MDS_QUOTA) +
    Bit(CRUSH_V4) +
    Bit(MON_STATEFUL_SUB) +
    Bit(CRUSH_TUNABLES5) +
    Bit(SERVER_JEWEL) +
    Bit(FS_FILE_LAYOUT_V2) +
    Bit(SERVER_KRAKEN)
  }

  function AllPart5(): (s: FeatureSet)
  {
    Bit(FS_BTIME) +
    Bit(FS_CHANGE_ATTR) +
    Bit(MSG_ADDR2) +
    Bit(SERVER_LUMINOUS) +
    Bit(RESEND_ON_SPLIT) +
    Bit(RADOS_BACKOFF) +
    Bit(OSD_RECOVERY_DELETES) +
    Bit(SERVER_MIMIC) +
    Bit(RECOVERY_RESERVATION_2) +
    Bit(SERVER_NAUTILUS)
  }

  function AllPart6(): (s: FeatureSet)
  {
    Bit(CEPHX_V2) +
    Bit(OSD_PGLOG_HARDLIMIT) +
    Mask(SERVER_OCTOPUS) +
    Mask(STRETCH_MODE) +
    Mask(OSD_REPOP_MLCOD) +
    Mask(SERVER_PACIFIC) +
    Bit(OSD_FIXED_COLLECTION_LIST) +
    Mask(SERVER_QUINCY) +
    Bit(RANGE_BLOCKLIST) +
    Mask(SERVER_REEF)
  }

  /** The features named in CEPH_FEATURES_ALL. */
  function AllListed(): set<Feature>
  {
    AllListed1() + AllListed2() + AllListed3() + AllListed4() + AllListed5() + AllListed6()
  }

  function AllListed1(): set<Feature>
  {
    {UID, NOSRCADDR, FLOCK, SUBSCRIBE2, MONNAMES, RECONNECT_SEQ, DIRLAYOUTHASH, OBJECTLOCATOR, PGID64, INCSUBOSDMAP}
  }

  function AllListed2(): set<Feature>
  {
    {PGPOOL3, OSDREPLYMUX, OSDENC, MONENC, CRUSH_TUNABLES, MSG_AUTH, CRUSH_TUNABLES2, CREATEPOOLID, REPLY_CREATE_INODE, MDSENC}
  }

  function AllListed3(): set<Feature>
  {
    {OSDHASHPSPOOL, NEW_OSDOP_ENCODING, NEW_OSDOPREPLY_ENCODING, OSD_CACHEPOOL, CRUSH_V2, EXPORT_PEER, OSDMAP_ENC, MDS_INLINE_DATA, CRUSH_TUNABLES3, OSD_PRIMARY_AFFINITY}
  }

  function AllListed4(): set<Feature>
  {
    {MSGR_KEEPALIVE2, OSD_POOLRESEND, OSD_FADVISE_FLAGS, MDS_QUOTA, CRUSH_V4, MON_STATEFUL_SUB, CRUSH_TUNABLES5, SERVER_JEWEL, FS_FILE_LAYOUT_V2, SERVER_KRAKEN}
  }

  function AllListed5(): set<Feature>
  {
    {FS_BTIME, FS_CHANGE_ATTR, MSG_ADDR2, SERVER_LUMINOUS, RESEND_ON_SPLIT, RADOS_BACKOFF, OSD_RECOVERY_DELETES, SERVER_MIMIC, RECOVERY_RESERVATION_2, SERVER_NAUTILUS}
  }

  function AllListed6(): set<Feature>
  {
    {CEPHX_V2, OSD_PGLOG_HARDLIMIT, SERVER_OCTOPUS, STRETCH_MODE, OSD_REPOP_MLCOD, SERVER_PACIFIC, OSD_FIXED_COLLECTION_LIST, SERVER_QUINCY, RANGE_BLOCKLIST, SERVER_REEF}
  }

  /** CEPH_FEATURES_CRUSH: the CRUSH-related features, which set exactly these bits. */
  function FeaturesCrush(): (s: FeatureSet)
    ensures s == {18, 21, 25, 36, 41, 48, 57, 58}
  {
    Bit(CRUSH_TUNABLES) +
    Bit(CRUSH_TUNABLES2) +
    Bit(CRUSH_TUNABLES3) +
    Bit(CRUSH_TUNABLES5) +
    Bit(CRUSH_V2) +
    Bit(CRUSH_V4) +
    Mask(CRUSH_CHOOSE_ARGS)
  }

  /** The mask holds exactly the feature's bit and its incarnation's marker bits. */
  lemma MaskBits(f: Feature, b: FeatureBit)
    ensures b in Mask(f) <==> b == f.bit || (f.incarnation != Inc1 && b == JEWEL_BIT) || (f.incarnation == Inc3 && b == MIMIC_BIT)
  {
  }

  /** Incarnation 1 has no marker, so its mask is the bit alone. */
  lemma Incarnation1MaskIsBit(f: Feature)
    requires f.incarnation == Inc1
    ensures Mask(f) == Bit(f)
  {
  }

  /** HAVE_FEATURE holds iff every bit of the mask is set in `x`. */
  lemma HaveFeatureIffMaskSubset(x: FeatureSet, f: Feature)
    ensures HaveFeature(x, f) <==> forall b :: b in Mask(f) ==> b in x
  {
  }

  /**
   * A word that lacks the SERVER_JEWEL marker bit has no incarnation-2 or
   * incarnation-3 feature, whatever raw bits it holds.
   */
  lemma NoMarkerNoLaterIncarnation(x: FeatureSet, f: Feature)
    requires f.incarnation != Inc1
    requires JEWEL_BIT !in x
    ensures !HaveFeature(x, f)
  {
    assert JEWEL_BIT in Mask(f);
  }

  /** In particular the raw bit of a reused feature does not satisfy HAVE_FEATURE. */
  lemma RawBitIsNotFeature(f: Feature)
    requires f.incarnation != Inc1 && f.bit != JEWEL_BIT
    ensures !HaveFeature(Bit(f), f)
  {
    NoMarkerNoLaterIncarnation(Bit(f), f);
  }

  /** HAVE_FEATURE is monotone: more bits never lose a feature. */
  lemma HaveFeatureMonotone(x: FeatureSet, y: FeatureSet, f: Feature)
    requires HaveFeature(x, f)
    ensures HaveFeature(x + y, f)
  {
  }

  /** Each group of operands of CEPH_FEATURES_ALL sets exactly these bits. */
  lemma AllPart1Bits()
    ensures AllPart1() == {0, 1, 3, 4, 5, 6, 7, 8, 9, 10}
    ensures RESERVED.bit !in AllPart1()
  {
  }

  lemma AllListed1Masks()
    ensures forall f :: f in AllListed1() ==> Mask(f) <= AllPart1() + IncarnationMask(Inc3)
  {
  }

  lemma AllPart2Bits()
    ensures AllPart2() == {11, 12, 13, 15, 18, 23, 25, 26, 27, 29}
    ensures RESERVED.bit !in AllPart2()
  {
  }

  lemma AllListed2Masks()
    ensures forall f :: f in AllListed2() ==> Mask(f) <= AllPart2() + IncarnationMask(Inc3)
  {
  }

  lemma AllPart3Bits()
    ensures AllPart3() == {30, 35, 36, 37, 39, 40, 41, 56, 58}
    ensures RESERVED.bit !in AllPart3()
  {
  }

  lemma AllListed3Masks()
    ensures forall f :: f in AllListed3() ==> Mask(f) <= AllPart3() + IncarnationMask(Inc3)
  {
  }

  lemma AllPart4Bits()
    ensures AllPart4() == {14, 42, 43, 46, 47, 48, 57, 58}
    ensures RESERVED.bit !in AllPart4()
  {
  }

  lemma AllListed4Masks()
    ensures forall f :: f in AllListed4() ==> Mask(f) <= AllPart4() + IncarnationMask(Inc3)
  {
  }

  lemma AllPart5Bits()
    ensures AllPart5() == {2, 21, 24, 28, 59, 60}
    ensures RESERVED.bit !in AllPart5()
  {
  }

  lemma AllListed5Masks()
    ensures forall f :: f in AllListed5() ==> Mask(f) <= AllPart5() + IncarnationMask(Inc3)
  {
  }

  lemma AllPart6Bits()
    ensures AllPart6() == {16, 19, 20, 22, 28, 31, 32, 33, 34, 57, 61}
    ensures RESERVED.bit !in AllPart6()
  {
  }

  lemma AllListed6Masks()
    ensures forall f :: f in AllListed6() ==> Mask(f) <= AllPart6() + IncarnationMask(Inc3)
  {
  }

  /** Every feature named in CEPH_FEATURES_ALL passes HAVE_FEATURE against it. */
  lemma AllHasListedFeatures(f: Feature)
    requires f in AllListed()
    ensures HaveFeature(FeaturesAll(), f)
  {
    AllListed1Masks();
    AllListed2Masks();
    AllListed3Masks();
    AllListed4Masks();
    AllListed5Masks();
    AllListed6Masks();
  }

  /** CEPH_FEATURES_CRUSH is contained in CEPH_FEATURES_ALL. */
  lemma CrushWithinAll()
    ensures FeaturesCrush() <= FeaturesAll()
  {
    AllPart1Bits();
    AllPart2Bits();
    AllPart3Bits();
    AllPart4Bits();
    AllPart5Bits();
    AllPart6Bits();
  }
}
