/**
 * The error flags a scrub records about one shard of an object and about
 * the object as a whole (common/scrub_types.h). The flags are bits of an
 * integer in the source; every setter ORs in one bit and the one clearing
 * operation masks one bit out, so the integer is modelled as the set of its
 * flags: OR is union, AND-NOT is removal, comparing the integer with one
 * flag is comparing the set with a singleton.
 */
module ScrubTypes {
  import opened MachineInt

  /** librados::err_t: the per-shard errors the wrapper sets. */
  datatype ShardError =
    | ShardMissing
    | OmapDigestMismatchInfo
    | SizeMismatchInfo
    | DataDigestMismatchInfo
    | ShardReadErr
    | ShardStatErr
    | ShardEcHashMismatch
    | ShardEcSizeMismatch
    | InfoMissing
    | InfoCorrupted
    | SnapsetMissing
    | SnapsetCorrupted
    | ObjSizeInfoMismatch
    | HinfoMissing
    | HinfoCorrupted

  /** librados::obj_err_t: the errors about the object across its shards. */
  datatype ObjError =
    | ObjectInfoInconsistency
    | OmapDigestMismatch
    | DataDigestMismatch
    | SizeMismatch
    | AttrValueMismatch
    | AttrNameMismatch
    | SnapsetInconsistency
    | HinfoInconsistency
    | SizeTooLarge

  /** `errors |= flag`: the flag is set and every other flag keeps its state. */
  function WithFlag<T(!new)>(errors: set<T>, flag: T): (r: set<T>)
    ensures flag in r
    ensures forall g :: g != flag ==> (g in r <==> g in errors)
  {
    errors + {flag}
  }

  /** `errors &= ~flag`: the flag is clear and every other flag keeps its state. */
  function WithoutFlag<T(!new)>(errors: set<T>, flag: T): (r: set<T>)
    ensures flag !in r
    ensures forall g :: g != flag ==> (g in r <==> g in errors)
  {
    errors - {flag}
  }

  /** Setting a flag twice is setting it once. */
  lemma WithFlagIdempotent<T(!new)>(errors: set<T>, flag: T)
    ensures WithFlag(WithFlag(errors, flag), flag) == WithFlag(errors, flag)
  {
  }

  /** Clearing a flag undoes setting it when it was not set before. */
  lemma WithoutFlagUndoesWithFlag<T(!new)>(errors: set<T>, flag: T)
    requires flag !in errors
    ensures WithoutFlag(WithFlag(errors, flag), flag) == errors
  {
  }

  /** shard_info_wrapper: the errors found on one shard. */
  class ShardInfoWrapper {
    var errors: set<ShardError>

    constructor()
      ensures errors == {}
    {
      errors := {};
    }

    /** set_missing, set_read_error, ..., set_hinfo_corrupted: each ORs in its flag. */
    method SetError(flag: ShardError)
      modifies this
      ensures errors == WithFlag(old(errors), flag)
    {
      errors := errors + {flag};
    }

    /** Whether the data digest mismatch against the object info is the only error. */
    function OnlyDataDigestMismatchInfo(): (r: bool)
      reads this
      ensures r <==> DataDigestMismatchInfo in errors && forall g :: g in errors ==> g == DataDigestMismatchInfo
    {
      errors == {DataDigestMismatchInfo}
    }

    /** clear_data_digest_mismatch_info: masks that one flag out. */
    method ClearDataDigestMismatchInfo()
      modifies this
      ensures errors == WithoutFlag(old(errors), DataDigestMismatchInfo)
    {
      errors := errors - {DataDigestMismatchInfo};
    }
  }

  /**
   * When the data digest mismatch was the only error, clearing it leaves a
   * shard without errors.
   */
  lemma ClearingTheOnlyErrorLeavesNone(errors: set<ShardError>)
    requires errors == {DataDigestMismatchInfo}
    ensures WithoutFlag(errors, DataDigestMismatchInfo) == {}
  {
  }

  /** inconsistent_obj_wrapper: the errors found on an object, and its version. */
  class InconsistentObjWrapper {
    var errors: set<ObjError>
    var version: u64

    /** set_object_info_inconsistency, ..., set_size_too_large: each ORs in its flag. */
    method SetError(flag: ObjError)
      modifies this`errors
      ensures errors == WithFlag(old(errors), flag)
    {
      errors := errors + {flag};
    }

    /** set_version: stores the version and leaves the errors alone. */
    method SetVersion(ver: u64)
      modifies this`version
      ensures version == ver
    {
      version := ver;
    }
  }
}
