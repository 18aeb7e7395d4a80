/** Character-level helpers shared by the objective selector, the transport
    classifier and the id translator: ASCII case folding, prefixes, and
    Python's `s.replace(token, "")`. */
module Text {

  /** ASCII lower-casing of one character; every other character is kept. */
  function LowerChar(c: char): char {
    if 'A' <= c <= 'Z' then (c as int + 32) as char else c
  }

  function Lower(s: string): string {
    seq(|s|, i requires 0 <= i < |s| => LowerChar(s[i]))
  }

  predicate StartsWith(s: string, prefix: string) {
    |prefix| <= |s| && s[..|prefix|] == prefix
  }

  /** `p` occurs in `s` starting at position `k`. */
  predicate OccursAt(s: string, p: string, k: int) {
    0 <= k && k + |p| <= |s| && s[k..k + |p|] == p
  }

  /** Python's `s.replace(token, "")`: deletes the non-overlapping occurrences
      of `token` found while scanning left to right. An empty token leaves `s`
      as it is. */
  function RemoveAll(s: string, token: string): (r: string)
    ensures |r| <= |s|
    decreases |s|
  {
    if |token| == 0 || |s| == 0 then s
    else if StartsWith(s, token) then RemoveAll(s[|token|..], token)
    else [s[0]] + RemoveAll(s[1..], token)
  }

  /** A string in which the token never occurs is left unchanged. */
  lemma {:induction false} RemoveAllAbsent(s: string, token: string)
    requires forall k :: !OccursAt(s, token, k)
    ensures RemoveAll(s, token) == s
    decreases |s|
  {
    if |token| > 0 && |s| > 0 {
      assert !OccursAt(s, token, 0);
      forall k | OccursAt(s[1..], token, k)
        ensures false
      {
        assert s[1..][k..k + |token|] == s[k + 1..k + 1 + |token|];
        assert OccursAt(s, token, k + 1);
      }
      RemoveAllAbsent(s[1..], token);
      assert s == [s[0]] + s[1..];
    }
  }

  /** Stripping a compartment token from `x + token` gives back `x`, as long as
      the token does not start anywhere inside `x`. */
  lemma {:induction false} RemoveAllTrailing(x: string, token: string)
    requires |token| > 0
    requires forall k :: 0 <= k < |x| ==> !OccursAt(x + token, token, k)
    ensures RemoveAll(x + token, token) == x
    decreases |x|
  {
    if |x| == 0 {
      assert x + token == token;
      assert StartsWith(token, token);
      assert token[|token|..] == [];
    } else {
      var s := x + token;
      assert !OccursAt(s, token, 0);
      assert s[1..] == x[1..] + token;
      forall k | 0 <= k < |x[1..]| && OccursAt(x[1..] + token, token, k)
        ensures false
      {
        assert s[1..][k..k + |token|] == s[k + 1..k + 1 + |token|];
        assert OccursAt(s, token, k + 1);
      }
      RemoveAllTrailing(x[1..], token);
      assert x == [x[0]] + x[1..];
    }
  }
}
