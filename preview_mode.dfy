/**
 * The permission value of the flags service (src/Garage.FeatureFlags/main.go): the string the
 * oracle returns for the `enable-preview-mode` flag, read as a comma-separated list of the flag
 * keys that may currently be edited.
 */
module PreviewMode {
  import opened StringOps

  /** The non-blank trimmed pieces, in their original order. */
  function NonBlankTrimmed(pieces: seq<string>): (keys: seq<string>)
    ensures forall k :: k in keys ==> k != [] && Trimmed(k)
    ensures |keys| <= |pieces|
    decreases |pieces|
  {
    if pieces == [] then []
    else
      var trimmed := TrimSpace(pieces[|pieces| - 1]);
      NonBlankTrimmed(pieces[..|pieces| - 1]) + (if trimmed != [] then [trimmed] else [])
  }

  /**
   * The editable flag keys for an oracle value. An oracle that is not initialised or fails to
   * evaluate the flag yields the empty string, so it leaves nothing editable (fail closed).
   */
  function EditableFlags(value: string): (keys: seq<string>)
    ensures value == "" ==> keys == []
    ensures forall k :: k in keys ==> k != [] && Trimmed(k)
  {
    if value == "" then [] else NonBlankTrimmed(SplitOn(value, ","))
  }

  /** getPreviewModeFlags after the oracle call: split on commas, trim, keep the non-empty pieces. */
  method GetPreviewModeFlags(value: string) returns (result: seq<string>)
    ensures result == EditableFlags(value)
  {
    if value == "" {
      return [];
    }
    var flags := SplitOn(value, ",");
    result := [];
    for i := 0 to |flags|
      invariant result == NonBlankTrimmed(flags[..i])
    {
      assert flags[..i + 1][..i] == flags[..i];
      var trimmed := TrimSpace(flags[i]);
      if trimmed != "" {
        result := result + [trimmed];
      }
    }
    assert flags[..|flags|] == flags;
  }

  /** One more piece adds its trim at the end, unless that trim is empty. */
  lemma NonBlankTrimmedSnoc(init: seq<string>, p: string)
    ensures NonBlankTrimmed(init + [p]) == NonBlankTrimmed(init) + (if TrimSpace(p) != [] then [TrimSpace(p)] else [])
  {
    assert (init + [p])[..|init|] == init;
  }

  /** A key is listed exactly when it is the non-empty trim of some comma-separated piece. */
  lemma {:induction false} NonBlankTrimmedMembership(pieces: seq<string>, k: string)
    ensures k in NonBlankTrimmed(pieces) <==> k != [] && exists p :: p in pieces && TrimSpace(p) == k
    decreases |pieces|
  {
    if pieces != [] {
      var init := pieces[..|pieces| - 1];
      var last := pieces[|pieces| - 1];
      assert pieces == init + [last];
      NonBlankTrimmedMembership(init, k);
      NonBlankTrimmedSnoc(init, last);
      assert forall p :: p in pieces <==> p in init || p == last;
    }
  }

  /** Every editable key is non-empty, contains no comma and carries no surrounding white space. */
  lemma EditableFlagsElements(value: string)
    ensures forall k :: k in EditableFlags(value) ==> k != [] && ',' !in k && Trimmed(k)
  {
    if value != "" {
      SplitPartsAvoidSeparator(value, ",");
      forall k | k in EditableFlags(value)
        ensures ',' !in k
      {
        NonBlankTrimmedMembership(SplitOn(value, ","), k);
        var p :| p in SplitOn(value, ",") && TrimSpace(p) == k;
        OccursChar(p, ',');
      }
    }
  }

  /** Non-empty keys without surrounding white space are kept as they are. */
  lemma {:induction false} NonBlankTrimmedOfKeys(keys: seq<string>)
    requires forall k :: k in keys ==> k != [] && Trimmed(k)
    ensures NonBlankTrimmed(keys) == keys
    decreases |keys|
  {
    if keys != [] {
      var init := keys[..|keys| - 1];
      var last := keys[|keys| - 1];
      assert keys == init + [last];
      assert last in keys;
      TrimSpaceOfTrimmed(last);
      assert forall k :: k in init ==> k in keys;
      NonBlankTrimmedOfKeys(init);
      NonBlankTrimmedSnoc(init, last);
    }
  }

  /** Round trip: writing valid keys as a comma-separated value and parsing it gives the keys back. */
  lemma EditableFlagsOfJoin(keys: seq<string>)
    requires forall k :: k in keys ==> k != [] && ',' !in k && Trimmed(k)
    ensures EditableFlags(Join(keys, ",")) == keys
  {
    if keys != [] {
      assert keys[0] in keys;
      assert Join(keys, ",") != "";
      SplitJoin(keys, ',');
      NonBlankTrimmedOfKeys(keys);
    }
  }
}
