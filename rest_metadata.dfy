/**
 * The metadata REST handlers of the object gateway (rgw/rgw_rest_metadata.cc):
 * how a request names a metadata key, which operation a GET or POST asks
 * for, how the lock and unlock operations validate their parameters, and
 * how the status of a put becomes the HTTP response code. The metadata
 * manager the handlers call is outside the model: each handler returns the
 * call it makes (or None when it makes none) and takes that call's result
 * as a parameter.
 */
module RestMetadata {
  import opened Wrappers
  import opened Strings

  /** The parts of req_state the handlers read. */
  datatype Request = Request(args: map<string, string>, urlBucket: string)

  /** RGWHTTPArgs::get: the value of an argument, "" when absent. */
  function Arg(req: Request, name: string): (r: string)
    ensures name !in req.args ==> r == ""
  {
    if name in req.args then req.args[name] else ""
  }

  /**
   * frame_metadata_key: the bucket of the URL is the section and the "key"
   * argument follows it after a colon; without a bucket in the URL the
   * "key" argument alone is the whole key.
   */
  function FrameMetadataKey(req: Request): (out: string)
    ensures req.urlBucket == "" ==> out == Arg(req, "key")
    ensures req.urlBucket != "" && Arg(req, "key") == "" ==> out == req.urlBucket
    ensures req.urlBucket != "" && Arg(req, "key") != "" ==> out == req.urlBucket + ":" + Arg(req, "key")
  {
    var key := Arg(req, "key");
    if req.urlBucket != "" then
      if key != "" then req.urlBucket + (":" + key) else req.urlBucket
    else key
  }

  /** The section of a framed key: what comes before the first colon. */
  function Section(metadataKey: string): string
  {
    match Find(metadataKey, ':')
    case None => metadataKey
    case Some(pos) => metadataKey[..pos]
  }

  /** A framed key gives back the URL's bucket as its section when the bucket has no colon. */
  lemma FramedKeySection(req: Request)
    requires req.urlBucket != "" && ':' !in req.urlBucket
    ensures Section(FrameMetadataKey(req)) == req.urlBucket
  {
    var key := Arg(req, "key");
    if key != "" {
      var out := req.urlBucket + (":" + key);
      assert out[..|req.urlBucket|] == req.urlBucket;
      FindIsFirst(out, ':', |req.urlBucket|);
    }
  }

  // ---------------------------------------------------------------------
  // Status codes

  const EINVAL: int := 22
  const EBUSY: int := 16

  /**
   * http_ret: a plain return code (0, a negative errno or whatever the
   * manager returns) or one of the gateway's own codes from rgw_common.h,
   * which is not part of this model and whose numbers are therefore kept
   * symbolic.
   */
  datatype Ret = Code(n: int) | ErrLocked | StatusNoApply | StatusApplied | StatusNoContent

  /** The codes the handlers treat as failures (http_ret < 0): -ERR_LOCKED is negative. */
  predicate Failed(r: Ret)
  {
    (r.Code? && r.n < 0) || r.ErrLocked?
  }

  // ---------------------------------------------------------------------
  // Operation dispatch

  datatype Op = GetOp | ListOp | PutOp | DeleteOp | LockOp | UnlockOp

  /** op_get: one key when the request names one, the listing otherwise. */
  function OpGet(req: Request): (r: Op)
    ensures r == GetOp <==> "key" in req.args
    ensures r == ListOp <==> "key" !in req.args
  {
    if "key" in req.args then GetOp else ListOp
  }

  /** op_post: lock before unlock; a POST with neither has no operation. */
  function OpPost(req: Request): (r: Option<Op>)
    ensures r == Some(LockOp) <==> "lock" in req.args
    ensures r == Some(UnlockOp) <==> "lock" !in req.args && "unlock" in req.args
    ensures r.None? <==> "lock" !in req.args && "unlock" !in req.args
  {
    if "lock" in req.args then Some(LockOp)
    else if "unlock" in req.args then Some(UnlockOp)
    else None
  }

  // ---------------------------------------------------------------------
  // Lock and unlock

  const INT_MIN: int := -0x8000_0000
  const INT_MAX: int := 0x7fff_ffff

  /** Optional leading white space, an optional sign and at least one digit, and nothing else. */
  predicate IsDecimalInteger(s: string)
  {
    var t := SkipSpaces(s);
    var body := if |t| > 0 && (t[0] == '-' || t[0] == '+') then t[1..] else t;
    |body| > 0 && LeadingDigits(body) == body
  }

  /**
   * strict_strtol (common/strtol.cc, not part of this model): the whole
   * string must be a decimal integer that fits an int; None stands for the
   * error message it sets.
   */
  function StrictStrtol(s: string): (r: Option<int>)
    ensures r.Some? ==> IsDecimalInteger(s) && INT_MIN <= r.value <= INT_MAX
  {
    if !IsDecimalInteger(s) then None
    else
      var t := SkipSpaces(s);
      var v: int := if t[0] == '-' || t[0] == '+' then DigitsValue(t[1..]) else DigitsValue(t);
      var n := if t[0] == '-' then -v else v;
      if n < INT_MIN || n > INT_MAX then None else Some(n)
  }

  lemma DecimalStringShape(n: nat)
    ensures var s := DecimalString(n);
            SkipSpaces(s) == s && s[0] != '-' && s[0] != '+' && IsDecimalInteger(s)
  {
    var s := DecimalString(n);
    assert IsDigit(s[0]);
    assert !IsSpace(s[0]);
    LeadingDigitsOfDigits(s);
  }

  /** Every int from 0 up written in decimal is read back by strict_strtol. */
  lemma StrictStrtolOfDecimalString(n: nat)
    requires n <= INT_MAX
    ensures StrictStrtol(DecimalString(n)) == Some(n)
  {
    DecimalStringShape(n);
    DigitsValueOfDecimalString(n);
  }

  /** The parameters a lock request must carry: a key, a lock id, and a positive length. */
  predicate LockParamsValid(req: Request)
  {
    && "key" in req.args
    && Arg(req, "length") != ""
    && Arg(req, "lock_id") != ""
    && StrictStrtol(Arg(req, "length")).Some?
    && StrictStrtol(Arg(req, "length")).value > 0
  }

  /** The lock_exclusive call: the key, the duration in seconds, the lock id. */
  datatype LockCall = LockCall(key: string, duration: int, lockId: string)

  /** The unlock call: the key and the lock id. */
  datatype UnlockCall = UnlockCall(key: string, lockId: string)

  /** One metadata operation and the return code it builds up. */
  class MetadataOp {
    var httpRet: Ret
    var updateStatus: string

    constructor()
      ensures httpRet == Code(0) && updateStatus == ""
    {
      httpRet := Code(0);
      updateStatus := "";
    }

    /**
     * RGWOp_Metadata_Lock::execute: -EINVAL without a key, a length or a
     * lock id, or with a length that is no positive int; otherwise the lock
     * is taken, and a lock held by someone else (-EBUSY) is reported as
     * ERR_LOCKED.
     */
    method LockExecute(req: Request, lockResult: Ret) returns (call: Option<LockCall>)
      modifies this`httpRet
      ensures call.Some? <==> LockParamsValid(req)
      ensures call.None? ==> httpRet == Code(-EINVAL)
      ensures call.Some? ==> call.value == LockCall(FrameMetadataKey(req), StrictStrtol(Arg(req, "length")).value,
                                                    Arg(req, "lock_id"))
      ensures call.Some? ==> httpRet == (if lockResult == Code(-EBUSY) then ErrLocked else lockResult)
    {
      var metadataKey := FrameMetadataKey(req);
      httpRet := Code(0);
      var durationStr := Arg(req, "length");
      var lockId := Arg(req, "lock_id");
      if "key" !in req.args || durationStr == "" || lockId == "" {
        httpRet := Code(-EINVAL);
        return None;
      }
      var dur := StrictStrtol(durationStr);
      if dur.None? || dur.value <= 0 {
        httpRet := Code(-EINVAL);
        return None;
      }
      call := Some(LockCall(metadataKey, dur.value, lockId));
      httpRet := lockResult;
      if httpRet == Code(-EBUSY) {
        httpRet := ErrLocked;
      }
    }

    /**
     * RGWOp_Metadata_Unlock::execute: -EINVAL without a key or a lock id;
     * otherwise the unlock's own result.
     */
    method UnlockExecute(req: Request, unlockResult: Ret) returns (call: Option<UnlockCall>)
      modifies this`httpRet
      ensures call.Some? <==> "key" in req.args && Arg(req, "lock_id") != ""
      ensures call.None? ==> httpRet == Code(-EINVAL)
      ensures call.Some? ==> call.value == UnlockCall(FrameMetadataKey(req), Arg(req, "lock_id"))
                             && httpRet == unlockResult
    {
      var metadataKey := FrameMetadataKey(req);
      httpRet := Code(0);
      var lockId := Arg(req, "lock_id");
      if "key" !in req.args || lockId == "" {
        httpRet := Code(-EINVAL);
        return None;
      }
      call := Some(UnlockCall(metadataKey, lockId));
      httpRet := unlockResult;
    }

    /**
     * RGWOp_Metadata_Get::execute and RGWOp_Metadata_Delete::execute: the
     * manager is asked about the framed key; its failure is the result,
     * anything else becomes 0.
     */
    method KeyExecute(req: Request, managerResult: Ret) returns (key: string)
      modifies this`httpRet
      ensures key == FrameMetadataKey(req)
      ensures Failed(managerResult) ==> httpRet == managerResult
      ensures !Failed(managerResult) ==> httpRet == Code(0)
    {
      key := FrameMetadataKey(req);
      httpRet := managerResult;
      if Failed(httpRet) {
        return;
      }
      httpRet := Code(0);
    }

    /**
     * RGWOp_Metadata_Put::execute: reading the body, then completing the
     * authentication, then parsing update-type, then the put itself; the
     * first failure is the result. A put that was skipped or applied
     * records that in the update status.
     */
    method PutExecute(req: Request, parse: string -> Option<SyncType>, dataResult: Ret, authResult: Ret, putResult: Ret)
      returns (call: Option<(string, SyncType)>)
      modifies this`httpRet, this`updateStatus
      ensures Failed(dataResult) ==> httpRet == dataResult && call.None?
      ensures !Failed(dataResult) && Failed(authResult) ==> httpRet == authResult && call.None?
      ensures call.Some? <==> !Failed(dataResult) && !Failed(authResult) && PutSyncType(req, parse).Some?
      ensures !Failed(dataResult) && !Failed(authResult) && PutSyncType(req, parse).None? ==> httpRet == Code(-EINVAL)
      ensures call.Some? ==> call.value == (FrameMetadataKey(req), PutSyncType(req, parse).value) && httpRet == putResult
      ensures call.Some? && putResult == StatusNoApply ==> updateStatus == "skipped"
      ensures call.Some? && putResult == StatusApplied ==> updateStatus == "applied"
      ensures (call.None? || (putResult != StatusNoApply && putResult != StatusApplied)) ==>
                updateStatus == old(updateStatus)
    {
      httpRet := dataResult;
      if Failed(httpRet) {
        return None;
      }
      httpRet := authResult;
      if Failed(httpRet) {
        return None;
      }
      var metadataKey := FrameMetadataKey(req);
      var syncType := PutSyncType(req, parse);
      if syncType.None? {
        httpRet := Code(-EINVAL);
        return None;
      }
      call := Some((metadataKey, syncType.value));
      httpRet := putResult;
      if Failed(httpRet) {
        return;
      }
      if httpRet == StatusNoApply {
        updateStatus := "skipped";
      } else if httpRet == StatusApplied {
        updateStatus := "applied";
      }
    }

    /** RGWOp_Metadata_Put::send_response: a skipped or applied put answers "no content". */
    function PutResponseCode(): (r: Ret)
      reads this
      ensures httpRet in {StatusNoApply, StatusApplied} ==> r == StatusNoContent
      ensures httpRet !in {StatusNoApply, StatusApplied} ==> r == httpRet
    {
      if httpRet == StatusNoApply || httpRet == StatusApplied then StatusNoContent else httpRet
    }
  }

  /** RGWMetadataHandler::sync_type_t. */
  datatype SyncType = ApplyAlways | ApplyUpdates | ApplyNewer

  /**
   * The update-type argument of a put: always applied when absent,
   * otherwise what string_to_sync_type (rgw_metadata.cc, not part of this
   * model; the `parse` parameter) makes of it, None meaning -EINVAL.
   */
  function PutSyncType(req: Request, parse: string -> Option<SyncType>): (r: Option<SyncType>)
    ensures "update-type" !in req.args ==> r == Some(ApplyAlways)
    ensures "update-type" in req.args ==> r == parse(req.args["update-type"])
  {
    if "update-type" !in req.args then Some(ApplyAlways)
    else parse(req.args["update-type"])
  }

  /** A put that reached the manager never answers with its internal skipped/applied code. */
  lemma PutResponseHidesInternalStatus(op: MetadataOp)
    ensures op.PutResponseCode() != StatusNoApply && op.PutResponseCode() != StatusApplied
  {
  }
}
