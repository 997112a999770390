/**
 * The two request handlers of the flags service (src/Garage.FeatureFlags/main.go) as decision
 * procedures over the decoded flagd.json document: the membership query (GET /flags/) and the
 * allow-list update (POST /flags/).
 */
module FlagsService {
  import opened Wrappers
  import opened Json
  import opened StringOps
  import opened Targeting
  import opened PreviewMode

  /** One flag definition of the document; `targeting` is None when the member is absent or null. */
  datatype Flag = Flag(state: string, variants: map<string, Value>, defaultVariant: string, targeting: Option<Rule>)

  /** The decoded POST body; members missing from the body decode to the empty string and false. */
  datatype TargetingRequest = TargetingRequest(userId: string, enabled: bool, flagKey: string)

  const StatusOK: int := 200
  const StatusBadRequest: int := 400
  const StatusForbidden: int := 403
  const StatusNotFound: int := 404
  const StatusInternalServerError: int := 500

  const UpdatesDisabled: string := "Flag updates are disabled: enable-preview-mode is empty or off"

  /** The answer to a POST: an error status with its message, or the success body. */
  datatype UpdateResponse =
    | UpdateRejected(status: int, message: string)
    | UpdateApplied(userId: string, enabled: bool, userIds: seq<string>)
  {
    function Status(): int {
      if UpdateRejected? then status else StatusOK
    }
  }

  /** The answer to a GET: an error status with its message, or the map of flag states. */
  datatype GetResponse =
    | GetRejected(status: int, message: string)
    | GetStates(states: map<string, bool>)

  /** The flag's targeting as Go reads it: a nil map behaves as an empty one. */
  function TargetingOf(f: Flag): Rule {
    if f.targeting.Some? then f.targeting.value else map[]
  }

  // ---------------------------------------------------------------------------------------
  // The membership query
  // ---------------------------------------------------------------------------------------

  /** A flag the query reports on: it exists, has targeting, and the targeting is well shaped. */
  predicate Reportable(flags: map<string, Flag>, k: string) {
    k in flags && flags[k].targeting.Some? && WellShaped(flags[k].targeting.value)
  }

  /** The query result for the listed keys: exactly the reportable ones, each with the user's membership. */
  function FlagStates(keys: seq<string>, flags: map<string, Flag>, userId: string): (states: map<string, bool>)
    ensures forall k :: k in states ==> k in keys && k in flags
  {
    map k | k in keys && Reportable(flags, k) :: userId in UserIds(flags[k].targeting.value)
  }

  /** The query after one more key: that key is added exactly when it is reportable. */
  lemma FlagStatesPrefix(keys: seq<string>, i: nat, flags: map<string, Flag>, userId: string)
    requires i < |keys|
    ensures FlagStates(keys[..i + 1], flags, userId)
            == if Reportable(flags, keys[i]) then FlagStates(keys[..i], flags, userId)[keys[i] := userId in UserIds(flags[keys[i]].targeting.value)]
               else FlagStates(keys[..i], flags, userId)
  {
    assert keys[..i + 1] == keys[..i] + [keys[i]];
    FlagStatesSnoc(keys[..i], keys[i], flags, userId);
  }

  lemma FlagStatesSnoc(keys: seq<string>, k: string, flags: map<string, Flag>, userId: string)
    ensures FlagStates(keys + [k], flags, userId)
            == if Reportable(flags, k) then FlagStates(keys, flags, userId)[k := userId in UserIds(flags[k].targeting.value)]
               else FlagStates(keys, flags, userId)
  {
    assert forall x :: x in keys + [k] <==> x in keys || x == k;
  }

  // ---------------------------------------------------------------------------------------
  // The allow-list update
  // ---------------------------------------------------------------------------------------

  /** What a POST answers and what the document is afterwards. */
  datatype UpdateOutcome = UpdateOutcome(response: UpdateResponse, flags: map<string, Flag>)

  /** The update decision: the checks in the handler's order, then the membership change and the write. */
  function Update(allowed: seq<string>, body: Option<TargetingRequest>, flags: map<string, Flag>): (o: UpdateOutcome)
    ensures o.flags.Keys == flags.Keys
  {
    if |allowed| == 0 then UpdateOutcome(UpdateRejected(StatusForbidden, UpdatesDisabled), flags)
    else if body.None? then UpdateOutcome(UpdateRejected(StatusBadRequest, "Invalid request body"), flags)
    else
      var req := body.value;
      if req.userId == "" then UpdateOutcome(UpdateRejected(StatusBadRequest, "userId is required"), flags)
      else if req.flagKey == "" then UpdateOutcome(UpdateRejected(StatusBadRequest, "flagKey is required"), flags)
      else if req.flagKey !in allowed then UpdateOutcome(UpdateRejected(StatusForbidden, "Flag is not allowed for updates"), flags)
      else if req.flagKey !in flags then UpdateOutcome(UpdateRejected(StatusNotFound, "Flag not found"), flags)
      else
        if !WellShaped(TargetingOf(flags[req.flagKey])) then
          UpdateOutcome(UpdateRejected(StatusInternalServerError, "Failed to parse targeting"), flags)
        else Apply(req, flags)
  }

  /** The write of an accepted request: the new membership stored in the flag's allow-list. */
  function Apply(req: TargetingRequest, flags: map<string, Flag>): (o: UpdateOutcome)
    requires req.flagKey in flags && WellShaped(TargetingOf(flags[req.flagKey]))
    ensures o.response.UpdateApplied? && o.response.userId == req.userId && o.response.enabled == req.enabled
    ensures o.flags.Keys == flags.Keys
  {
    var flag := flags[req.flagKey];
    var t := TargetingOf(flag);
    var ids := SetMembership(UserIds(t), req.userId, req.enabled);
    UpdateOutcome(
      UpdateApplied(req.userId, req.enabled, ids),
      flags[req.flagKey := flag.(targeting := Some(WithAllowList(t, ids)))])
  }

  /** The decoded document of one request; the handlers read it and the update rewrites its flags. */
  class FlagFile {
    var schema: string
    var flags: map<string, Flag>

    constructor (schema: string, flags: map<string, Flag>)
      ensures this.schema == schema && this.flags == flags
    {
      this.schema := schema;
      this.flags := flags;
    }

    /** handleGetFlags: reject an empty user id, otherwise report every editable, well-shaped flag. */
    method HandleGetFlags(userId: string, previewValue: string) returns (resp: GetResponse)
      ensures userId == "" ==> resp == GetRejected(StatusBadRequest, "userId query parameter is required")
      ensures userId != "" ==> resp == GetStates(FlagStates(EditableFlags(previewValue), flags, userId))
    {
      if userId == "" {
        return GetRejected(StatusBadRequest, "userId query parameter is required");
      }
      var flagList := GetPreviewModeFlags(previewValue);
      var document := flags;
      var flagStates: map<string, bool> := map[];
      for i := 0 to |flagList|
        invariant flagStates == FlagStates(flagList[..i], document, userId)
      {
        var flagKey := flagList[i];
        if flagKey in document && document[flagKey].targeting.Some? {
          var userIds := GetUserIDsFromTargeting(document[flagKey].targeting.value);
          if userIds.Success? {
            flagStates := flagStates[flagKey := userId in userIds.value];
          }
        }
        FlagStatesPrefix(flagList, i, document, userId);
      }
      assert flagList[..|flagList|] == flagList;
      return GetStates(flagStates);
    }

    /** handleUpdateFlagTargeting: the checks in order, then the new allow-list written into this document. */
    method HandleUpdateFlagTargeting(previewValue: string, body: Option<TargetingRequest>) returns (resp: UpdateResponse)
      modifies this
      ensures resp == Update(EditableFlags(previewValue), body, old(flags)).response
      ensures flags == Update(EditableFlags(previewValue), body, old(flags)).flags
      ensures schema == old(schema)
    {
      var allowedFlags := GetPreviewModeFlags(previewValue);
      if |allowedFlags| == 0 {
        return UpdateRejected(StatusForbidden, UpdatesDisabled);
      }
      if body.None? {
        return UpdateRejected(StatusBadRequest, "Invalid request body");
      }
      var req := body.value;
      if req.userId == "" {
        return UpdateRejected(StatusBadRequest, "userId is required");
      }
      if req.flagKey == "" {
        return UpdateRejected(StatusBadRequest, "flagKey is required");
      }
      if req.flagKey !in allowedFlags {
        return UpdateRejected(StatusForbidden, "Flag is not allowed for updates");
      }
      if req.flagKey !in flags {
        return UpdateRejected(StatusNotFound, "Flag not found");
      }
      var flag := flags[req.flagKey];
      var got := GetUserIDsFromTargeting(TargetingOf(flag));
      if got.Failure? {
        return UpdateRejected(StatusInternalServerError, "Failed to parse targeting");
      }
      var userIds := got.value;
      if req.enabled {
        var found := req.userId in userIds;
        if !found {
          userIds := userIds + [req.userId];
        }
      } else {
        userIds := RemoveUser(userIds, req.userId);
      }
      var written := SetUserIDsInTargeting(TargetingOf(flag), userIds);
      if written.Failure? {
        return UpdateRejected(StatusInternalServerError, "Failed to update targeting");
      }
      flag := flag.(targeting := Some(written.value));
      flags := flags[req.flagKey := flag];
      return UpdateApplied(req.userId, req.enabled, userIds);
    }
  }

  // ---------------------------------------------------------------------------------------
  // Properties of the update and the query
  // ---------------------------------------------------------------------------------------

  /** No rejected request changes the document. */
  lemma RejectedKeepsDocument(allowed: seq<string>, body: Option<TargetingRequest>, flags: map<string, Flag>)
    ensures Update(allowed, body, flags).response.UpdateRejected? ==> Update(allowed, body, flags).flags == flags
  {
  }

  /** The checks run in the handler's order. */
  lemma UpdateDecisionOrder(allowed: seq<string>, body: Option<TargetingRequest>, flags: map<string, Flag>)
    ensures var r := Update(allowed, body, flags);
      && (allowed == [] ==> r.response == UpdateRejected(StatusForbidden, UpdatesDisabled))
      && (allowed != [] && body.None? ==> r.response.Status() == StatusBadRequest)
      && (allowed != [] && body.Some? ==>
           var req := body.value;
           && (req.userId == "" ==> r.response.Status() == StatusBadRequest)
           && (req.userId != "" && req.flagKey == "" ==> r.response.Status() == StatusBadRequest)
           && (req.userId != "" && req.flagKey != "" && req.flagKey !in allowed ==>
                r.response.Status() == StatusForbidden)
           && (req.userId != "" && req.flagKey != "" && req.flagKey in allowed && req.flagKey !in flags ==>
                r.response.Status() == StatusNotFound)
           && (req.userId != "" && req.flagKey != "" && req.flagKey in allowed && req.flagKey in flags
               && !WellShaped(TargetingOf(flags[req.flagKey])) ==>
                r.response.Status() == StatusInternalServerError)
           && (req.userId != "" && req.flagKey != "" && req.flagKey in allowed && req.flagKey in flags
               && WellShaped(TargetingOf(flags[req.flagKey])) ==>
                r.response.UpdateApplied?))
  {
  }

  /** A successful update passed every check and is the write of its request. */
  lemma UpdateSuccess(allowed: seq<string>, body: Option<TargetingRequest>, flags: map<string, Flag>)
    requires Update(allowed, body, flags).response.UpdateApplied?
    ensures body.Some? && body.value.userId != "" && body.value.flagKey != ""
    ensures body.value.flagKey in allowed && body.value.flagKey in flags
    ensures WellShaped(TargetingOf(flags[body.value.flagKey]))
    ensures Update(allowed, body, flags) == Apply(body.value, flags)
  {
  }

  /**
   * The write replaces only the requested flag's allow-list and answers with exactly the
   * allow-list now stored: the user is in it iff enabled, every other user is in it iff
   * before, and a duplicate-free list stays duplicate-free.
   */
  lemma ApplyEffect(req: TargetingRequest, flags: map<string, Flag>)
    requires req.flagKey in flags && WellShaped(TargetingOf(flags[req.flagKey]))
    ensures var r := Apply(req, flags);
      var key := req.flagKey;
      var u := req.userId;
      var before := flags[key];
      var old_ids := UserIds(TargetingOf(before));
      var ids := r.response.userIds;
      && r.response.UpdateApplied?
      && r.response.userId == u && r.response.enabled == req.enabled
      && r.flags.Keys == flags.Keys
      && (forall k :: k in flags && k != key ==> r.flags[k] == flags[k])
      && r.flags[key].state == before.state
      && r.flags[key].variants == before.variants
      && r.flags[key].defaultVariant == before.defaultVariant
      && r.flags[key].targeting.Some?
      && SameOutsideAllowList(TargetingOf(before), r.flags[key].targeting.value)
      && WellShaped(r.flags[key].targeting.value)
      && UserIds(r.flags[key].targeting.value) == ids
      && (u in ids <==> req.enabled)
      && (forall x :: x != u ==> (x in ids <==> x in old_ids))
      && (NoDuplicates(old_ids) ==> NoDuplicates(ids))
  {
    var t := TargetingOf(flags[req.flagKey]);
    var ids := SetMembership(UserIds(t), req.userId, req.enabled);
    GetAfterSet(t, ids);
    if NoDuplicates(UserIds(t)) {
      if req.enabled {
        EnableNoDuplicates(UserIds(t), req.userId);
      } else {
        DisableNoDuplicates(UserIds(t), req.userId);
      }
    }
  }

  /**
   * Fail closed: when the oracle value names no flag (it is empty, unavailable, or only blanks
   * and commas), every update is refused with 403 and the query reports nothing.
   */
  lemma FailClosed(preview: string, body: Option<TargetingRequest>, flags: map<string, Flag>, userId: string)
    requires forall p :: p in SplitOn(preview, ",") ==> TrimSpace(p) == ""
    ensures Update(EditableFlags(preview), body, flags) == UpdateOutcome(UpdateRejected(StatusForbidden, UpdatesDisabled), flags)
    ensures FlagStates(EditableFlags(preview), flags, userId) == map[]
  {
    if EditableFlags(preview) != [] {
      var k := EditableFlags(preview)[0];
      assert k in EditableFlags(preview);
      NonBlankTrimmedMembership(SplitOn(preview, ","), k);
    }
  }

  /** Fail closed in scope: a valid request for a flag the oracle does not list is refused with 403, whatever the document. */
  lemma FailClosedScope(allowed: seq<string>, req: TargetingRequest, flags: map<string, Flag>)
    requires allowed != []
    requires req.userId != "" && req.flagKey != "" && req.flagKey !in allowed
    ensures Update(allowed, Some(req), flags).response.Status() == StatusForbidden
    ensures Update(allowed, Some(req), flags).flags == flags
  {
  }

  /**
   * Durability of an update for the query: afterwards the query reports the requested
   * membership for the updated flag and, for any user, exactly what it reported before on
   * every other flag.
   */
  lemma QueryAfterUpdate(allowed: seq<string>, body: Option<TargetingRequest>, flags: map<string, Flag>, userId: string)
    requires Update(allowed, body, flags).response.UpdateApplied?
    ensures var r := Update(allowed, body, flags);
      var key := body.value.flagKey;
      && key in FlagStates(allowed, r.flags, body.value.userId)
      && FlagStates(allowed, r.flags, body.value.userId)[key] == body.value.enabled
      && FlagStates(allowed, r.flags, userId)
         == FlagStates(allowed, flags, userId)[key := userId in r.response.userIds]
  {
    UpdateSuccess(allowed, body, flags);
    var req := body.value;
    ApplyEffect(req, flags);
    var key := req.flagKey;
    var r := Apply(req, flags);
    var t2 := r.flags[key].targeting.value;
    assert Reportable(r.flags, key);
    StatesAfterWrite(allowed, flags, r.flags, key, userId);
    StatesAfterWrite(allowed, flags, r.flags, key, req.userId);
  }

  /** Rewriting one flag so that it is reportable changes the query at that key only. */
  lemma StatesAfterWrite(keys: seq<string>, flags: map<string, Flag>, flags2: map<string, Flag>, key: string, userId: string)
    requires key in keys && key in flags && Reportable(flags2, key)
    requires flags2 == flags[key := flags2[key]]
    ensures FlagStates(keys, flags2, userId)
            == FlagStates(keys, flags, userId)[key := userId in UserIds(flags2[key].targeting.value)]
  {
    forall k | k != key
      ensures Reportable(flags2, k) == Reportable(flags, k)
    {
      if k in flags {
        assert flags2[k] == flags[k];
      }
    }
  }

  /** Every check passes: the update is the write. */
  lemma UpdateAccepted(allowed: seq<string>, req: TargetingRequest, flags: map<string, Flag>)
    requires req.userId != "" && req.flagKey != "" && req.flagKey in allowed
    requires req.flagKey in flags && WellShaped(TargetingOf(flags[req.flagKey]))
    ensures Update(allowed, Some(req), flags) == Apply(req, flags)
  {
  }

  /** Repeating a successful request changes nothing more and gives the same answer. */
  lemma RepeatedUpdate(allowed: seq<string>, body: Option<TargetingRequest>, flags: map<string, Flag>)
    requires Update(allowed, body, flags).response.UpdateApplied?
    ensures Update(allowed, body, Update(allowed, body, flags).flags) == Update(allowed, body, flags)
  {
    UpdateSuccess(allowed, body, flags);
    var req := body.value;
    var key := req.flagKey;
    var flag := flags[key];
    var t := TargetingOf(flag);
    var ids1 := SetMembership(UserIds(t), req.userId, req.enabled);
    var flags1 := flags[key := flag.(targeting := Some(WithAllowList(t, ids1)))];
    assert Update(allowed, body, flags).flags == flags1;
    GetAfterSet(t, ids1);
    UpdateAccepted(allowed, req, flags1);
    if req.enabled {
      EnableIdempotent(UserIds(t), req.userId);
    } else {
      DisableIdempotent(UserIds(t), req.userId);
    }
    ApplyOverRewrite(req, flags, ids1);
  }

  /** Applying a request over a document whose allow-list was rewritten before gives what applying
      it to the original gives, when the request's membership change maps both lists to the same one. */
  lemma ApplyOverRewrite(req: TargetingRequest, flags: map<string, Flag>, ids1: seq<string>)
    requires req.flagKey in flags && WellShaped(TargetingOf(flags[req.flagKey]))
    requires SetMembership(ids1, req.userId, req.enabled) == SetMembership(UserIds(TargetingOf(flags[req.flagKey])), req.userId, req.enabled)
    ensures var flag := flags[req.flagKey];
      var flags1 := flags[req.flagKey := flag.(targeting := Some(WithAllowList(TargetingOf(flag), ids1)))];
      Apply(req, flags1) == Apply(req, flags)
  {
    var key := req.flagKey;
    var flag := flags[key];
    var t := TargetingOf(flag);
    var t1 := WithAllowList(t, ids1);
    var flags1 := flags[key := flag.(targeting := Some(t1))];
    GetAfterSet(t, ids1);
    assert TargetingOf(flags1[key]) == t1;
    var ids2 := SetMembership(ids1, req.userId, req.enabled);
    SetTwice(t, ids1, ids2);
    assert flags1[key].(targeting := Some(WithAllowList(t1, ids2))) == flag.(targeting := Some(WithAllowList(t, ids2)));
    assert flags1[key := flag.(targeting := Some(WithAllowList(t, ids2)))] == flags[key := flag.(targeting := Some(WithAllowList(t, ids2)))];
  }

  /** Disabling a user right after enabling them ends where disabling alone would have. */
  lemma DisableAfterEnable(allowed: seq<string>, req: TargetingRequest, flags: map<string, Flag>)
    requires Update(allowed, Some(req.(enabled := true)), flags).response.UpdateApplied?
    ensures var enabled := Update(allowed, Some(req.(enabled := true)), flags);
      Update(allowed, Some(req.(enabled := false)), enabled.flags) == Update(allowed, Some(req.(enabled := false)), flags)
  {
    var on := req.(enabled := true);
    var off := req.(enabled := false);
    UpdateSuccess(allowed, Some(on), flags);
    var key := req.flagKey;
    var u := req.userId;
    var flag := flags[key];
    var t := TargetingOf(flag);
    var ids := UserIds(t);
    var ids1 := WithUser(ids, u);
    var flags1 := flags[key := flag.(targeting := Some(WithAllowList(t, ids1)))];
    assert Update(allowed, Some(on), flags).flags == flags1;
    GetAfterSet(t, ids1);
    UpdateAccepted(allowed, off, flags1);
    UpdateAccepted(allowed, off, flags);
    assert WithoutUser(ids1, u) == WithoutUser(ids, u) by {
      if u !in ids {
        DisableUndoesEnable(ids, u);
      }
    }
    ApplyOverRewrite(off, flags, ids1);
  }

  // ---------------------------------------------------------------------------------------
  // A worked example: one demo flag whose allow-list starts empty
  // ---------------------------------------------------------------------------------------

  const DemoKey: string := "enable-demo"

  const DemoRule: Rule :=
    map["if" := JArray([JObject(map["in" := JArray([JString("targetingKey"), JArray([])])]), JString("on"), JString("off")])]

  const DemoFlags: map<string, Flag> :=
    map[DemoKey := Flag("ENABLED", map["on" := JBool(true), "off" := JBool(false)], "off", Some(DemoRule))]

  /** The oracle value naming only the demo flag makes exactly that flag editable. */
  lemma DemoEditable()
    ensures EditableFlags(DemoKey) == [DemoKey]
  {
    SplitWithoutSeparator(DemoKey, ',');
    assert Trimmed(DemoKey);
    TrimSpaceOfTrimmed(DemoKey);
  }

  /** Enabling user 42 stores and answers ["42"]; the query then reports the flag as on for 42. */
  lemma DemoEnable()
    ensures var r := Update([DemoKey], Some(TargetingRequest("42", true, DemoKey)), DemoFlags);
      && r.response == UpdateApplied("42", true, ["42"])
      && UserIds(TargetingOf(r.flags[DemoKey])) == ["42"]
      && FlagStates([DemoKey], r.flags, "42") == map[DemoKey := true]
  {
    var req := TargetingRequest("42", true, DemoKey);
    assert WellShaped(DemoRule) && UserIds(DemoRule) == [];
    UpdateAccepted([DemoKey], req, DemoFlags);
    ApplyEffect(req, DemoFlags);
    var r := Apply(req, DemoFlags);
    SingleKeyStates(r.flags, DemoKey, "42");
  }

  /** The query over one reportable key reports just that key. */
  lemma SingleKeyStates(flags: map<string, Flag>, k: string, userId: string)
    requires Reportable(flags, k)
    ensures FlagStates([k], flags, userId) == map[k := userId in UserIds(flags[k].targeting.value)]
  {
    assert forall j :: j in [k] <==> j == k;
  }

  /** Disabling user 42 afterwards answers with an empty allow-list. */
  lemma DemoDisable()
    ensures var enabled := Update([DemoKey], Some(TargetingRequest("42", true, DemoKey)), DemoFlags).flags;
      Update([DemoKey], Some(TargetingRequest("42", false, DemoKey)), enabled).response == UpdateApplied("42", false, [])
  {
    DemoEnable();
    var enabled := Update([DemoKey], Some(TargetingRequest("42", true, DemoKey)), DemoFlags).flags;
    var req := TargetingRequest("42", false, DemoKey);
    ApplyEffect(TargetingRequest("42", true, DemoKey), DemoFlags);
    UpdateAccepted([DemoKey], req, enabled);
    assert WithoutUser(["42"], "42") == [];
  }

  /** A request for a flag the oracle does not list is refused with 403 before the document is consulted. */
  lemma DemoUnlisted(flags: map<string, Flag>)
    ensures Update([DemoKey], Some(TargetingRequest("7", true, "missing-flag")), flags).response.Status() == StatusForbidden
  {
  }
}
