/**
 * The library string operations the core relies on, written out: Go's `strings.TrimSpace` and
 * `strings.Split`, and Python's `str.replace` (with `str.join` as its reference definition).
 */
module StringOps {

  /**
   * Go's `unicode.IsSpace`: the ASCII white space characters, NEL, NO-BREAK SPACE and the
   * characters of Unicode's White_Space property above Latin-1.
   */
  predicate IsSpace(c: char) {
    || c == ' ' || c == '\t' || c == '\n' || c == '\U{000B}' || c == '\U{000C}' || c == '\r'
    || c == '\U{0085}' || c == '\U{00A0}' || c == '\U{1680}'
    || ('\U{2000}' <= c <= '\U{200A}')
    || c == '\U{2028}' || c == '\U{2029}' || c == '\U{202F}' || c == '\U{205F}' || c == '\U{3000}'
  }

  /** Drops the leading white space: what is left is a suffix of `s` that does not start with white space. */
  function TrimLeft(s: string): (r: string)
    ensures |r| <= |s| && r == s[|s| - |r|..]
    ensures forall k :: 0 <= k < |s| - |r| ==> IsSpace(s[k])
    ensures r == [] || !IsSpace(r[0])
    decreases |s|
  {
    if |s| > 0 && IsSpace(s[0]) then TrimLeft(s[1..]) else s
  }

  /** Drops the trailing white space: what is left is a prefix of `s` that does not end with white space. */
  function TrimRight(s: string): (r: string)
    ensures |r| <= |s| && r == s[..|r|]
    ensures forall k :: |r| <= k < |s| ==> IsSpace(s[k])
    ensures r == [] || !IsSpace(r[|r| - 1])
    decreases |s|
  {
    if |s| > 0 && IsSpace(s[|s| - 1]) then TrimRight(s[..|s| - 1]) else s
  }

  /**
   * Go's `strings.TrimSpace`: the infix of `s` left after removing white space at both ends.
   * Only white space is removed, and the result neither starts nor ends with it.
   */
  function TrimSpace(s: string): (r: string)
    ensures forall c :: c in r ==> c in s
    ensures Trimmed(r)
  {
    TrimRight(TrimLeft(s))
  }

  /** What trimming removes is white space at both ends, and what it keeps is an infix of `s`. */
  lemma TrimSpaceIsInfix(s: string)
    ensures exists i | 0 <= i <= |s| :: TrimmedAt(s, TrimSpace(s), i)
  {
    var l := TrimLeft(s);
    var r := TrimRight(l);
    assert TrimSpace(s) == r;
    SpaceAroundPrefixOfSuffix(s, l, r);
    assert TrimmedAt(s, r, |s| - |l|);
  }

  /** A prefix `r` of a suffix `l` of `s`, with white space around each cut, is an infix of `s` with white space around it. */
  lemma SpaceAroundPrefixOfSuffix(s: string, l: string, r: string)
    requires |l| <= |s| && l == s[|s| - |l|..]
    requires forall k :: 0 <= k < |s| - |l| ==> IsSpace(s[k])
    requires |r| <= |l| && r == l[..|r|]
    requires forall k :: |r| <= k < |l| ==> IsSpace(l[k])
    ensures TrimmedAt(s, r, |s| - |l|)
  {
    var i := |s| - |l|;
    assert r == s[i..i + |r|];
    forall k | i + |r| <= k < |s|
      ensures IsSpace(s[k])
    {
      assert s[k] == l[k - i];
    }
  }

  /** `r` is the infix of `s` starting at `i`, and everything of `s` around it is white space. */
  predicate TrimmedAt(s: string, r: string, i: int) {
    && 0 <= i <= |s| - |r|
    && r == s[i..i + |r|]
    && (forall k :: 0 <= k < i ==> IsSpace(s[k]))
    && (forall k :: i + |r| <= k < |s| ==> IsSpace(s[k]))
  }

  /** `s` neither starts nor ends with white space. */
  predicate Trimmed(s: string) {
    s == [] || (!IsSpace(s[0]) && !IsSpace(s[|s| - 1]))
  }

  /** A string that neither starts nor ends with white space is its own trim. */
  lemma TrimSpaceOfTrimmed(s: string)
    requires Trimmed(s)
    ensures TrimSpace(s) == s
  {
  }

  /** Trimming twice is trimming once. */
  lemma TrimSpaceIdempotent(s: string)
    ensures TrimSpace(TrimSpace(s)) == TrimSpace(s)
  {
    TrimSpaceOfTrimmed(TrimSpace(s));
  }

  /**
   * Go's `strings.Split` and Python's `str.split` with a non-empty separator: the pieces
   * between the non-overlapping occurrences of `sep`, found from left to right.
   */
  function SplitOn(s: string, sep: string): (parts: seq<string>)
    requires |sep| > 0
    ensures |parts| >= 1
    decreases |s|
  {
    if |s| < |sep| then [s]
    else if s[..|sep|] == sep then [[]] + SplitOn(s[|sep|..], sep)
    else
      var rest := SplitOn(s[1..], sep);
      [[s[0]] + rest[0]] + rest[1..]
  }

  /** Python's `sep.join(parts)`: the pieces with `sep` between neighbours. */
  function Join(parts: seq<string>, sep: string): string {
    if |parts| == 0 then []
    else if |parts| == 1 then parts[0]
    else parts[0] + sep + Join(parts[1..], sep)
  }

  /** Python's `s.replace(pat, rep)`: every non-overlapping occurrence of `pat`, left to right, becomes `rep`. */
  function ReplaceAll(s: string, pat: string, rep: string): (r: string)
    requires |pat| > 0
    ensures |s| < |pat| ==> r == s
    ensures pat <= s ==> rep <= r
    decreases |s|
  {
    if |s| < |pat| then s
    else if s[..|pat|] == pat then rep + ReplaceAll(s[|pat|..], pat, rep)
    else [s[0]] + ReplaceAll(s[1..], pat, rep)
  }

  /** `pat` occurs somewhere in `s`. */
  predicate Occurs(s: string, pat: string) {
    exists i | 0 <= i <= |s| - |pat| :: OccursAt(s, pat, i)
  }

  /** `pat` occurs in `s` at position `i`. */
  predicate OccursAt(s: string, pat: string, i: int) {
    0 <= i <= |s| - |pat| && s[i..i + |pat|] == pat
  }

  /** Prefixing a character to the first piece prefixes it to the joined string. */
  lemma {:induction false} JoinConsFirst(c: char, parts: seq<string>, sep: string)
    requires |parts| >= 1
    ensures Join([[c] + parts[0]] + parts[1..], sep) == [c] + Join(parts, sep)
  {
    var ps := [[c] + parts[0]] + parts[1..];
    if |parts| > 1 {
      assert ps[1..] == parts[1..];
    }
  }

  /** Joining the pieces of a split with the same separator gives the string back. */
  lemma {:induction false} JoinSplit(s: string, sep: string)
    requires |sep| > 0
    ensures Join(SplitOn(s, sep), sep) == s
    decreases |s|
  {
    if |s| < |sep| {
    } else if s[..|sep|] == sep {
      var rest := SplitOn(s[|sep|..], sep);
      JoinSplit(s[|sep|..], sep);
      assert ([[]] + rest)[1..] == rest;
      assert s == sep + s[|sep|..];
    } else {
      var rest := SplitOn(s[1..], sep);
      JoinSplit(s[1..], sep);
      JoinConsFirst(s[0], rest, sep);
      assert s == [s[0]] + s[1..];
    }
  }

  /** `s.replace(pat, rep)` is `rep.join(s.split(pat))`. */
  lemma {:induction false} ReplaceIsJoinOfSplit(s: string, pat: string, rep: string)
    requires |pat| > 0
    ensures ReplaceAll(s, pat, rep) == Join(SplitOn(s, pat), rep)
    decreases |s|
  {
    if |s| < |pat| {
    } else if s[..|pat|] == pat {
      var rest := SplitOn(s[|pat|..], pat);
      ReplaceIsJoinOfSplit(s[|pat|..], pat, rep);
      assert ([[]] + rest)[1..] == rest;
    } else {
      var rest := SplitOn(s[1..], pat);
      ReplaceIsJoinOfSplit(s[1..], pat, rep);
      JoinConsFirst(s[0], rest, rep);
    }
  }

  /** Replacing a pattern by itself changes nothing. */
  lemma ReplaceWithItself(s: string, pat: string)
    requires |pat| > 0
    ensures ReplaceAll(s, pat, pat) == s
  {
    ReplaceIsJoinOfSplit(s, pat, pat);
    JoinSplit(s, pat);
  }

  /** A string in which the pattern does not occur is left unchanged. */
  lemma {:induction false} ReplaceAbsent(s: string, pat: string, rep: string)
    requires |pat| > 0 && !Occurs(s, pat)
    ensures ReplaceAll(s, pat, rep) == s
    decreases |s|
  {
    if |s| >= |pat| {
      assert !OccursAt(s, pat, 0);
      assert !Occurs(s[1..], pat) by {
        forall i | OccursAt(s[1..], pat, i)
          ensures false
        {
          assert s[1..][i..i + |pat|] == s[i + 1..i + 1 + |pat|];
          assert OccursAt(s, pat, i + 1);
        }
      }
      ReplaceAbsent(s[1..], pat, rep);
      assert s == [s[0]] + s[1..];
    }
  }

  /** The first piece of a split is a prefix of the string. */
  lemma {:induction false} SplitFirstIsPrefix(s: string, sep: string)
    requires |sep| > 0
    ensures SplitOn(s, sep)[0] <= s
    decreases |s|
  {
    if |s| >= |sep| && s[..|sep|] != sep {
      SplitFirstIsPrefix(s[1..], sep);
    }
  }

  /** An occurrence past the first character is an occurrence in the rest of the string. */
  lemma OccursAfterFirst(s: string, pat: string, i: int)
    requires 0 < i <= |s|
    ensures OccursAt(s, pat, i) <==> OccursAt(s[1..], pat, i - 1)
  {
    if 0 <= i <= |s| - |pat| {
      assert s[i..i + |pat|] == s[1..][i - 1..i - 1 + |pat|];
    }
  }

  /** No occurrence of the separator starts inside the first piece: the split cuts at the leftmost one. */
  lemma {:induction false} SplitFirstLeftmost(s: string, sep: string)
    requires |sep| > 0
    ensures forall i :: 0 <= i < |SplitOn(s, sep)[0]| ==> !OccursAt(s, sep, i)
    decreases |s|
  {
    if |s| >= |sep| && s[..|sep|] != sep {
      var t := s[1..];
      SplitFirstLeftmost(t, sep);
      SplitFirstIsPrefix(s, sep);
      var p := SplitOn(s, sep)[0];
      assert p == [s[0]] + SplitOn(t, sep)[0];
      forall i | 0 <= i < |p|
        ensures !OccursAt(s, sep, i)
      {
        if i > 0 {
          OccursAfterFirst(s, sep, i);
        }
      }
    }
  }

  /** A split into a single piece leaves the string whole. */
  lemma {:induction false} SplitSingle(s: string, sep: string)
    requires |sep| > 0 && |SplitOn(s, sep)| == 1
    ensures SplitOn(s, sep)[0] == s
    decreases |s|
  {
    if |s| >= |sep| && s[..|sep|] != sep {
      SplitSingle(s[1..], sep);
      assert s == [s[0]] + s[1..];
    }
  }

  /**
   * A split into several pieces cuts at the occurrence that follows the first piece, and the
   * other pieces are the split of what comes after that occurrence.
   */
  lemma {:induction false} SplitCut(s: string, sep: string)
    requires |sep| > 0 && |SplitOn(s, sep)| > 1
    ensures var p := SplitOn(s, sep)[0];
      && OccursAt(s, sep, |p|)
      && SplitOn(s, sep)[1..] == SplitOn(s[|p| + |sep|..], sep)
    decreases |s|
  {
    if s[..|sep|] == sep {
      var rest := SplitOn(s[|sep|..], sep);
      assert ([[]] + rest)[1..] == rest;
    } else {
      var t := s[1..];
      var rest := SplitOn(t, sep);
      var q := rest[0];
      var p := [s[0]] + q;
      assert SplitOn(s, sep) == [p] + rest[1..];
      SplitCut(t, sep);
      assert OccursAt(s, sep, |p|) by {
        assert s[|p|..|p| + |sep|] == t[|q|..|q| + |sep|];
      }
      assert SplitOn(s, sep)[1..] == rest[1..];
      assert s[|p| + |sep|..] == t[|q| + |sep|..];
    }
  }

  /**
   * `s.replace(pat, rep)` replaces the leftmost occurrence and carries on after it. With
   * `ReplaceAbsent` this fixes the result for every input.
   */
  lemma ReplaceLeftmost(s: string, pat: string, rep: string, i: int)
    requires |pat| > 0 && OccursAt(s, pat, i)
    requires forall j :: 0 <= j < i ==> !OccursAt(s, pat, j)
    ensures ReplaceAll(s, pat, rep) == s[..i] + rep + ReplaceAll(s[i + |pat|..], pat, rep)
  {
    var parts := SplitOn(s, pat);
    var tail := s[i + |pat|..];
    assert ReplaceAll(s, pat, rep) == Join(parts, rep) by {
      ReplaceIsJoinOfSplit(s, pat, rep);
    }
    assert Join(parts, rep) == s[..i] + rep + Join(parts[1..], rep) by {
      LeftmostIsFirstPiece(s, pat, i);
    }
    assert parts[1..] == SplitOn(tail, pat) by {
      SplitAfterLeftmost(s, pat, i);
    }
    assert Join(SplitOn(tail, pat), rep) == ReplaceAll(tail, pat, rep) by {
      ReplaceIsJoinOfSplit(tail, pat, rep);
    }
  }

  /** The first piece of a split ends where the leftmost occurrence starts. */
  lemma LeftmostIsFirstPiece(s: string, pat: string, i: int)
    requires |pat| > 0 && OccursAt(s, pat, i)
    requires forall j :: 0 <= j < i ==> !OccursAt(s, pat, j)
    ensures |SplitOn(s, pat)| > 1 && SplitOn(s, pat)[0] == s[..i]
  {
    var parts := SplitOn(s, pat);
    var p := parts[0];
    SplitFirstIsPrefix(s, pat);
    SplitFirstLeftmost(s, pat);
    if |parts| == 1 {
      SplitSingle(s, pat);
      assert false;
    }
    SplitCut(s, pat);
    if |p| < i {
      assert false;
    }
  }

  /** The pieces after the first are the split of what follows the leftmost occurrence. */
  lemma SplitAfterLeftmost(s: string, pat: string, i: int)
    requires |pat| > 0 && OccursAt(s, pat, i)
    requires forall j :: 0 <= j < i ==> !OccursAt(s, pat, j)
    ensures |SplitOn(s, pat)| > 1 && SplitOn(s, pat)[1..] == SplitOn(s[i + |pat|..], pat)
  {
    LeftmostIsFirstPiece(s, pat, i);
    SplitCutAt(s, pat, i);
  }

  /** `SplitCut` with the length of the first piece given by name. */
  lemma SplitCutAt(s: string, sep: string, k: int)
    requires |sep| > 0 && |SplitOn(s, sep)| > 1 && k == |SplitOn(s, sep)[0]|
    ensures OccursAt(s, sep, k)
    ensures SplitOn(s, sep)[1..] == SplitOn(s[k + |sep|..], sep)
  {
    SplitCut(s, sep);
  }

  /** No piece of a split contains the separator, whatever its length. */
  lemma {:induction false} SplitPartsAvoidSeparator(s: string, sep: string)
    requires |sep| > 0
    ensures forall p :: p in SplitOn(s, sep) ==> !Occurs(p, sep)
    decreases |s|
  {
    if |s| < |sep| {
    } else if s[..|sep|] == sep {
      var rest := SplitOn(s[|sep|..], sep);
      SplitPartsAvoidSeparator(s[|sep|..], sep);
      assert forall p :: p in [[]] + rest ==> p == [] || p in rest;
    } else {
      var rest := SplitOn(s[1..], sep);
      SplitPartsAvoidSeparator(s[1..], sep);
      SplitFirstIsPrefix(s[1..], sep);
      var first := [s[0]] + rest[0];
      assert rest[0] in rest;
      assert first <= s;
      forall i | OccursAt(first, sep, i)
        ensures false
      {
        if i > 0 {
          assert first[i..i + |sep|] == rest[0][i - 1..i - 1 + |sep|];
          assert OccursAt(rest[0], sep, i - 1);
        }
      }
      assert forall p :: p in [first] + rest[1..] ==> p == first || p in rest;
    }
  }

  /** A character occurs in a string exactly when the one-character pattern does. */
  lemma OccursChar(p: string, c: char)
    ensures Occurs(p, [c]) <==> c in p
  {
    if c in p {
      var j :| 0 <= j < |p| && p[j] == c;
      assert OccursAt(p, [c], j);
    }
    if Occurs(p, [c]) {
      var j :| 0 <= j <= |p| - 1 && OccursAt(p, [c], j);
      assert p[j..j + 1] == [c];
      assert p[j] == p[j..j + 1][0];
    }
  }

  /**
   * What `s.replace(pat, rep)` does: `s` is the pieces between the occurrences of `pat`
   * joined by `pat`, no piece contains `pat`, and the result joins the same pieces by `rep`.
   */
  lemma ReplaceAllPieces(s: string, pat: string, rep: string)
    requires |pat| > 0
    ensures var parts := SplitOn(s, pat);
      && Join(parts, pat) == s
      && (forall p :: p in parts ==> !Occurs(p, pat))
      && ReplaceAll(s, pat, rep) == Join(parts, rep)
  {
    JoinSplit(s, pat);
    SplitPartsAvoidSeparator(s, pat);
    ReplaceIsJoinOfSplit(s, pat, rep);
  }

  /** A string without the separator splits into itself. */
  lemma {:induction false} SplitWithoutSeparator(p: string, c: char)
    requires c !in p
    ensures SplitOn(p, [c]) == [p]
    decreases |p|
  {
    if |p| >= 1 {
      assert p[0] in p;
      assert p[..1] != [c];
      SplitWithoutSeparator(p[1..], c);
      assert p == [p[0]] + p[1..];
    }
  }

  /** Splitting `p + [c] + t`, where `p` does not contain `c`, yields `p` and then the pieces of `t`. */
  lemma {:induction false} SplitAfterPiece(p: string, c: char, t: string)
    requires c !in p
    ensures SplitOn(p + [c] + t, [c]) == [p] + SplitOn(t, [c])
    decreases |p|
  {
    var s := p + [c] + t;
    if p == [] {
      assert s[..1] == [c];
      assert s[1..] == t;
    } else {
      assert p[0] in p && s[0] == p[0];
      assert s[..1] != [c];
      assert s[1..] == p[1..] + [c] + t;
      SplitAfterPiece(p[1..], c, t);
      assert p == [p[0]] + p[1..];
    }
  }

  /** Splitting on a one-character separator undoes joining with it, when no piece contains it. */
  lemma {:induction false} SplitJoin(parts: seq<string>, c: char)
    requires |parts| >= 1
    requires forall p :: p in parts ==> c !in p
    ensures SplitOn(Join(parts, [c]), [c]) == parts
    decreases |parts|
  {
    if |parts| == 1 {
      assert parts[0] in parts;
      SplitWithoutSeparator(parts[0], c);
    } else {
      assert parts[0] in parts;
      SplitAfterPiece(parts[0], c, Join(parts[1..], [c]));
      assert forall p :: p in parts[1..] ==> p in parts;
      SplitJoin(parts[1..], c);
      assert parts == [parts[0]] + parts[1..];
    }
  }
}
