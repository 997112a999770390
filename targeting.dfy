/**
 * The allow-list targeting rule of the flags service (src/Garage.FeatureFlags/main.go):
 * the one rule shape it understands, reading and writing the allow-list inside it, and
 * enabling or disabling one user in that list.
 */
module Targeting {
  import opened Wrappers
  import opened Json

  /** A flag's decoded `targeting` member (Go's `map[string]any`; a nil map reads as empty). */
  type Rule = map<string, Value>

  // ---------------------------------------------------------------------------------------
  // The rule shape {"if": [{"in": [<key ref>, [<user id>, ...]]}, <then>, ...]}
  // ---------------------------------------------------------------------------------------

  /** The checks that reading and writing share: `if` is an array of at least two entries,
      `if[0]` is an object, and its `in` is an array of at least two entries. */
  predicate HasInRule(t: Rule) {
    && "if" in t && t["if"].JArray? && |t["if"].items| >= 2
    && t["if"].items[0].JObject?
    && "in" in t["if"].items[0].fields
    && t["if"].items[0].fields["in"].JArray?
    && |t["if"].items[0].fields["in"].items| >= 2
  }

  /** The shape reading demands: in addition, `in[1]` is an array (the allow-list). */
  predicate WellShaped(t: Rule) {
    HasInRule(t) && InArray(t)[1].JArray?
  }

  function IfArray(t: Rule): seq<Value>
    requires HasInRule(t)
  {
    t["if"].items
  }

  function InRule(t: Rule): map<string, Value>
    requires HasInRule(t)
  {
    t["if"].items[0].fields
  }

  function InArray(t: Rule): seq<Value>
    requires HasInRule(t)
  {
    InRule(t)["in"].items
  }

  /** The raw entries of the allow-list `in[1]`. */
  function AllowList(t: Rule): seq<Value>
    requires WellShaped(t)
  {
    InArray(t)[1].items
  }

  /** The string entries of a decoded array, in order; entries of any other kind are dropped. */
  function Strings(xs: seq<Value>): seq<string> {
    if xs == [] then []
    else Strings(xs[..|xs| - 1]) + (if xs[|xs| - 1].JString? then [xs[|xs| - 1].s] else [])
  }

  /** The user ids a well-shaped rule allows. */
  function UserIds(t: Rule): seq<string>
    requires WellShaped(t)
  {
    Strings(AllowList(t))
  }

  /** User ids as decoded JSON strings (Go's conversion of `[]string` to `[]any`). */
  function JStrings(ids: seq<string>): seq<Value> {
    seq(|ids|, i requires 0 <= i < |ids| => JString(ids[i]))
  }

  /** `t2` agrees with `t` everywhere except, possibly, at `in[1]`. */
  predicate SameOutsideAllowList(t: Rule, t2: Rule) {
    && HasInRule(t) && HasInRule(t2)
    && t2.Keys == t.Keys
    && (forall k :: k in t && k != "if" ==> t2[k] == t[k])
    && |IfArray(t2)| == |IfArray(t)|
    && (forall j :: 1 <= j < |IfArray(t)| ==> IfArray(t2)[j] == IfArray(t)[j])
    && InRule(t2).Keys == InRule(t).Keys
    && (forall k :: k in InRule(t) && k != "in" ==> InRule(t2)[k] == InRule(t)[k])
    && |InArray(t2)| == |InArray(t)|
    && (forall j :: 0 <= j < |InArray(t)| && j != 1 ==> InArray(t2)[j] == InArray(t)[j])
  }

  /** The rule after `in[1]` is overwritten with `ids`: nothing else in it changes. */
  function WithAllowList(t: Rule, ids: seq<string>): (t2: Rule)
    requires HasInRule(t)
    ensures WellShaped(t2) && AllowList(t2) == JStrings(ids)
    ensures SameOutsideAllowList(t, t2)
  {
    var ifRule := IfArray(t);
    var inRule := InRule(t);
    var inArray := InArray(t);
    t["if" := JArray(ifRule[0 := JObject(inRule["in" := JArray(inArray[1 := JArray(JStrings(ids))])])])]
  }

  // ---------------------------------------------------------------------------------------
  // getUserIDsFromTargeting and setUserIDsInTargeting
  // ---------------------------------------------------------------------------------------

  /** Reads the allow-list: fails exactly on a malformed rule, otherwise yields its string entries. */
  method GetUserIDsFromTargeting(t: Rule) returns (r: Result<seq<string>, string>)
    ensures r.Failure? <==> !WellShaped(t)
    ensures r.Success? ==> r.value == UserIds(t)
  {
    if !("if" in t && t["if"].JArray? && |t["if"].items| >= 2) {
      return Failure("invalid targeting structure: missing 'if' rule");
    }
    var ifRule := t["if"].items;
    if !ifRule[0].JObject? {
      return Failure("invalid targeting structure: missing condition");
    }
    var inRule := ifRule[0].fields;
    if !("in" in inRule && inRule["in"].JArray? && |inRule["in"].items| >= 2) {
      return Failure("invalid targeting structure: missing 'in' rule");
    }
    var inArray := inRule["in"].items;
    if !inArray[1].JArray? {
      return Failure("invalid targeting structure: userIds is not an array");
    }
    var userIdsRaw := inArray[1].items;
    var userIds: seq<string> := [];
    for i := 0 to |userIdsRaw|
      invariant userIds == Strings(userIdsRaw[..i])
    {
      assert userIdsRaw[..i + 1][..i] == userIdsRaw[..i];
      if userIdsRaw[i].JString? {
        userIds := userIds + [userIdsRaw[i].s];
      }
    }
    assert userIdsRaw[..|userIdsRaw|] == userIdsRaw;
    return Success(userIds);
  }

  /** Overwrites the allow-list: fails under the three shared shape checks, otherwise only `in[1]` changes. */
  method SetUserIDsInTargeting(t: Rule, userIds: seq<string>) returns (r: Result<Rule, string>)
    ensures r.Success? <==> HasInRule(t)
    ensures r.Success? ==> r.value == WithAllowList(t, userIds)
  {
    if !("if" in t && t["if"].JArray? && |t["if"].items| >= 2) {
      return Failure("invalid targeting structure");
    }
    var ifRule := t["if"].items;
    if !ifRule[0].JObject? {
      return Failure("invalid targeting structure");
    }
    var inRule := ifRule[0].fields;
    if !("in" in inRule && inRule["in"].JArray? && |inRule["in"].items| >= 2) {
      return Failure("invalid targeting structure");
    }
    var inArray := inRule["in"].items;
    var userIdsAny := new Value[|userIds|](_ => JNull);
    for i := 0 to |userIds|
      invariant forall j :: 0 <= j < i ==> userIdsAny[j] == JString(userIds[j])
    {
      userIdsAny[i] := JString(userIds[i]);
    }
    assert userIdsAny[..] == JStrings(userIds);
    return Success(t["if" := JArray(ifRule[0 := JObject(inRule["in" := JArray(inArray[1 := JArray(userIdsAny[..])])])])]);
  }

  // ---------------------------------------------------------------------------------------
  // Properties of reading and writing
  // ---------------------------------------------------------------------------------------

  /** Reading keeps exactly the string entries. */
  lemma {:induction false} StringsMembership(xs: seq<Value>, x: string)
    ensures x in Strings(xs) <==> JString(x) in xs
    decreases |xs|
  {
    if xs != [] {
      StringsMembership(xs[..|xs| - 1], x);
      assert xs == xs[..|xs| - 1] + [xs[|xs| - 1]];
    }
  }

  /** Reading keeps the order of the entries: it distributes over concatenation. */
  lemma {:induction false} StringsConcat(xs: seq<Value>, ys: seq<Value>)
    ensures Strings(xs + ys) == Strings(xs) + Strings(ys)
    decreases |ys|
  {
    if ys == [] {
      assert xs + ys == xs;
    } else {
      StringsConcat(xs, ys[..|ys| - 1]);
      assert (xs + ys)[..|xs + ys| - 1] == xs + ys[..|ys| - 1];
    }
  }

  /** Reading back a list of strings gives that list. */
  lemma {:induction false} StringsOfJStrings(ids: seq<string>)
    ensures Strings(JStrings(ids)) == ids
    decreases |ids|
  {
    if ids != [] {
      StringsOfJStrings(ids[..|ids| - 1]);
      assert JStrings(ids)[..|ids| - 1] == JStrings(ids[..|ids| - 1]);
    }
  }

  /** Round trip: after the allow-list is set to `ids`, reading it yields exactly `ids`. */
  lemma GetAfterSet(t: Rule, ids: seq<string>)
    requires HasInRule(t)
    ensures WellShaped(WithAllowList(t, ids)) && UserIds(WithAllowList(t, ids)) == ids
  {
    StringsOfJStrings(ids);
  }

  /** The frame is complete: two rules that agree outside `in[1]` and at `in[1]` are equal. */
  lemma RuleDeterminedByAllowList(t: Rule, t2: Rule)
    requires SameOutsideAllowList(t, t2) && InArray(t)[1] == InArray(t2)[1]
    ensures t == t2
  {
    assert InArray(t) == InArray(t2);
    assert InRule(t) == InRule(t2);
    assert IfArray(t)[0] == IfArray(t2)[0];
    assert IfArray(t) == IfArray(t2);
    assert t["if"] == t2["if"];
  }

  /** Setting twice is setting once with the second list. */
  lemma SetTwice(t: Rule, ids1: seq<string>, ids2: seq<string>)
    requires HasInRule(t)
    ensures WithAllowList(WithAllowList(t, ids1), ids2) == WithAllowList(t, ids2)
  {
    var a := WithAllowList(WithAllowList(t, ids1), ids2);
    var b := WithAllowList(t, ids2);
    assert SameOutsideAllowList(a, b);
    RuleDeterminedByAllowList(a, b);
  }

  // ---------------------------------------------------------------------------------------
  // Enabling and disabling one user
  // ---------------------------------------------------------------------------------------

  predicate NoDuplicates(ids: seq<string>) {
    forall i, j :: 0 <= i < j < |ids| ==> ids[i] != ids[j]
  }

  /** Enable: the user is appended unless already present; the existing list is a prefix of the result. */
  function WithUser(ids: seq<string>, u: string): (r: seq<string>)
    ensures u in r
    ensures forall x :: x in r <==> x in ids || x == u
    ensures ids <= r && |r| <= |ids| + 1
    ensures u in ids ==> r == ids
    ensures u !in ids ==> r == ids + [u]
  {
    if u in ids then ids else ids + [u]
  }

  /** Disable: every occurrence of the user is dropped and nothing else. */
  function WithoutUser(ids: seq<string>, u: string): (r: seq<string>)
    ensures u !in r
    ensures |r| <= |ids|
    decreases |ids|
  {
    if ids == [] then []
    else
      assert ids == ids[..|ids| - 1] + [ids[|ids| - 1]];
      WithoutUser(ids[..|ids| - 1], u) + (if ids[|ids| - 1] == u then [] else [ids[|ids| - 1]])
  }

  /** The update handler's filtering loop. */
  method RemoveUser(ids: seq<string>, u: string) returns (r: seq<string>)
    ensures r == WithoutUser(ids, u)
  {
    r := [];
    for i := 0 to |ids|
      invariant r == WithoutUser(ids[..i], u)
    {
      assert ids[..i + 1][..i] == ids[..i];
      if ids[i] != u {
        r := r + [ids[i]];
      }
    }
    assert ids[..|ids|] == ids;
  }

  /** The requested membership: present exactly when enabled, every other user as before. */
  function SetMembership(ids: seq<string>, u: string, enabled: bool): (r: seq<string>)
    ensures u in r <==> enabled
    ensures forall x :: x != u ==> (x in r <==> x in ids)
  {
    WithoutUserMembership(ids, u);
    if enabled then WithUser(ids, u) else WithoutUser(ids, u)
  }

  /** Disabling a user who is not in the list leaves it unchanged. */
  lemma {:induction false} WithoutUserOfAbsent(ids: seq<string>, u: string)
    requires u !in ids
    ensures WithoutUser(ids, u) == ids
    decreases |ids|
  {
    if ids != [] {
      var init := ids[..|ids| - 1];
      assert ids == init + [ids[|ids| - 1]];
      WithoutUserOfAbsent(init, u);
    }
  }

  /** Disabling keeps every other user. */
  lemma {:induction false} WithoutUserMembership(ids: seq<string>, u: string)
    ensures forall x :: x in WithoutUser(ids, u) <==> x in ids && x != u
    decreases |ids|
  {
    if ids != [] {
      var init := ids[..|ids| - 1];
      WithoutUserMembership(init, u);
      assert ids == init + [ids[|ids| - 1]];
    }
  }

  /** Enabling twice is enabling once. */
  lemma EnableIdempotent(ids: seq<string>, u: string)
    ensures WithUser(WithUser(ids, u), u) == WithUser(ids, u)
  {
  }

  /** Enabling never introduces a duplicate. */
  lemma EnableNoDuplicates(ids: seq<string>, u: string)
    requires NoDuplicates(ids)
    ensures NoDuplicates(WithUser(ids, u))
  {
  }

  /** Disabling twice is disabling once. */
  lemma DisableIdempotent(ids: seq<string>, u: string)
    ensures WithoutUser(WithoutUser(ids, u), u) == WithoutUser(ids, u)
  {
    WithoutUserOfAbsent(WithoutUser(ids, u), u);
  }

  /** Disabling over one more user: that user survives unless it is the one disabled. */
  lemma WithoutUserSnoc(init: seq<string>, x: string, u: string)
    ensures WithoutUser(init + [x], u) == WithoutUser(init, u) + (if x == u then [] else [x])
  {
    assert (init + [x])[..|init|] == init;
  }

  /** Disabling keeps the survivors in their relative order: it distributes over concatenation. */
  lemma {:induction false} DisableKeepsOrder(a: seq<string>, b: seq<string>, u: string)
    ensures WithoutUser(a + b, u) == WithoutUser(a, u) + WithoutUser(b, u)
    decreases |b|
  {
    if b == [] {
      assert a + b == a;
    } else {
      var init := b[..|b| - 1];
      var last := b[|b| - 1];
      var kept := if last == u then [] else [last];
      calc {
        WithoutUser(a + b, u);
      ==  { assert a + b == (a + init) + [last]; WithoutUserSnoc(a + init, last, u); }
        WithoutUser(a + init, u) + kept;
      ==  { DisableKeepsOrder(a, init, u); }
        (WithoutUser(a, u) + WithoutUser(init, u)) + kept;
      ==
        WithoutUser(a, u) + (WithoutUser(init, u) + kept);
      ==  { assert b == init + [last]; WithoutUserSnoc(init, last, u); }
        WithoutUser(a, u) + WithoutUser(b, u);
      }
    }
  }

  /** Disabling never introduces a duplicate. */
  lemma {:induction false} DisableNoDuplicates(ids: seq<string>, u: string)
    requires NoDuplicates(ids)
    ensures NoDuplicates(WithoutUser(ids, u))
    decreases |ids|
  {
    if ids != [] {
      var init := ids[..|ids| - 1];
      var last := ids[|ids| - 1];
      assert NoDuplicates(init);
      DisableNoDuplicates(init, u);
      assert last !in init;
      WithoutUserMembership(init, u);
      assert last !in WithoutUser(init, u);
    }
  }

  /** Disabling a user that was absent before enabling restores the list exactly. */
  lemma DisableUndoesEnable(ids: seq<string>, u: string)
    requires u !in ids
    ensures WithoutUser(WithUser(ids, u), u) == ids
  {
    assert (ids + [u])[..|ids + [u]| - 1] == ids;
    WithoutUserOfAbsent(ids, u);
  }
}
