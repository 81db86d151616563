/** JavaScript's `String.prototype.includes`, on which the admin check rests. */
module Substrings {

  /** True when `t` occurs in `s` at some offset; the empty string occurs everywhere. */
  predicate Includes(s: string, t: string)
    decreases |s|
  {
    |t| <= |s| && (s[..|t|] == t || (0 < |s| && Includes(s[1..], t)))
  }

  /** `t` sits in `s` starting at offset `i`. */
  predicate OccursAt(s: string, t: string, i: int)
  {
    0 <= i && i + |t| <= |s| && s[i..i + |t|] == t
  }

  /** `Includes` agrees with the offset-based definition of "t is a substring of s". */
  lemma {:induction false} IncludesIff(s: string, t: string)
    ensures Includes(s, t) <==> exists i :: OccursAt(s, t, i)
    decreases |s|
  {
    if Includes(s, t) {
      if s[..|t|] != t {
        IncludesIff(s[1..], t);
        var i :| OccursAt(s[1..], t, i);
        assert s[i + 1..i + 1 + |t|] == s[1..][i..i + |t|];
        assert OccursAt(s, t, i + 1);
      } else {
        assert OccursAt(s, t, 0);
      }
    }
    if exists i :: OccursAt(s, t, i) {
      var i :| OccursAt(s, t, i);
      if i > 0 {
        assert s[1..][i - 1..i - 1 + |t|] == s[i..i + |t|];
        assert OccursAt(s[1..], t, i - 1);
        IncludesIff(s[1..], t);
      } else {
        assert s[..|t|] == t;
      }
    }
  }

  /** A string in which the first character of `t` never appears cannot contain `t`. */
  lemma ExcludedByFirstChar(s: string, t: string)
    requires 0 < |t|
    requires forall k :: 0 <= k < |s| ==> s[k] != t[0]
    ensures !Includes(s, t)
  {
    IncludesIff(s, t);
  }

  /** A string that holds `t` at offset `i` contains `t`. */
  lemma IncludedAt(s: string, t: string, i: nat)
    requires OccursAt(s, t, i)
    ensures Includes(s, t)
  {
    IncludesIff(s, t);
  }

  /** A string that ends with `t` contains `t`. */
  lemma IncludedAsSuffix(p: string, t: string)
    ensures Includes(p + t, t)
  {
    assert (p + t)[|p|..|p| + |t|] == t;
    IncludedAt(p + t, t, |p|);
  }
}
