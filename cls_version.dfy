/**
 * The version of an object kept by the version object class
 * (cls/version/cls_version_types.h): a counter and a tag. A version with an
 * empty tag is empty, whatever its counter says.
 */
module ClsVersion {
  import opened MachineInt

  /** The value an obj_version holds. */
  datatype VersionValue = VersionValue(ver: u64, tag: string)

  /** obj_version: updated in place by inc and clear. */
  class ObjVersion {
    var ver: u64
    var tag: string

    function Value(): VersionValue
      reads this
    {
      VersionValue(ver, tag)
    }

    /** A new version counts from 0 with no tag. */
    constructor()
      ensures ver == 0 && tag == ""
      ensures Empty()
    {
      ver := 0;
      tag := "";
    }

    /** inc: the counter goes up by one in uint64_t (so the maximum wraps to 0); the tag stays. */
    method Inc()
      modifies this`ver
      ensures ver == Add64(old(ver), 1)
      ensures old(ver) < U64_MAX ==> ver == old(ver) + 1
      ensures Empty() == old(Empty())
    {
      ver := (ver + 1) % U64_MOD;
    }

    /** clear: back to counter 0 and no tag, which is an empty version. */
    method Clear()
      modifies this
      ensures ver == 0 && tag == ""
      ensures Empty()
    {
      ver := 0;
      tag := "";
    }

    /** empty: a version without a tag, whatever its counter. */
    function Empty(): (r: bool)
      reads this
      ensures r <==> |tag| == 0
    {
      tag == ""
    }

    /** compare: the same counter and a tag that compares equal. */
    function Compare(v: ObjVersion): (r: bool)
      reads this, v
      ensures r <==> Value() == v.Value()
    {
      ver == v.ver && tag == v.tag
    }

    /** operator==, on the same fields as compare. */
    function Equals(v: ObjVersion): (r: bool)
      reads this, v
      ensures r <==> Value() == v.Value()
    {
      ver == v.ver && tag == v.tag
    }
  }

  /** compare and == always give the same answer, and agree both ways round. */
  lemma CompareIsEquality(a: ObjVersion, b: ObjVersion)
    ensures a.Compare(b) == a.Equals(b)
    ensures a.Compare(b) == b.Compare(a)
  {
  }
}
