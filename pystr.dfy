/**
 The two pieces of Python's `str` that the scheduler's rule test relies on:
 `s.count(sub)` and the substring relation it is used to decide.
 */
module PyStr {

  /** `sub` occurs in `s` starting at offset `i`. */
  predicate OccursAt(s: string, sub: string, i: nat)
  {
    i + |sub| <= |s| && s[i..i + |sub|] == sub
  }

  /** `sub` is a substring of `s` (Python's `sub in s`). */
  ghost predicate Occurs(s: string, sub: string)
  {
    exists i: nat :: OccursAt(s, sub, i)
  }

  /**
   Python's `s.count(sub)`: the number of non-overlapping occurrences of `sub`
   found scanning `s` from the left; an empty `sub` is counted once at each of
   the |s| + 1 positions.
   */
  function Count(s: string, sub: string): (n: nat)
    ensures |sub| > 0 ==> n <= |s|
    ensures |sub| > 0 && n > 0 ==> |sub| <= |s|
    decreases |s|
  {
    if |sub| == 0 then |s| + 1
    else if |s| < |sub| then 0
    else if s[..|sub|] == sub then 1 + Count(s[|sub|..], sub)
    else Count(s[1..], sub)
  }

  /** The truth value of `s.count(sub)` is exactly "sub is a substring of s". */
  lemma {:induction false} CountPositiveIff(s: string, sub: string)
    ensures Count(s, sub) > 0 <==> Occurs(s, sub)
    decreases |s|
  {
    if |sub| == 0 {
      assert OccursAt(s, sub, 0);
    } else if |s| < |sub| {
    } else if s[..|sub|] == sub {
      assert OccursAt(s, sub, 0);
    } else {
      CountPositiveIff(s[1..], sub);
      if Occurs(s[1..], sub) {
        var i: nat :| OccursAt(s[1..], sub, i);
        assert s[1..][i..i + |sub|] == s[i + 1..i + 1 + |sub|];
        assert OccursAt(s, sub, i + 1);
      }
      if Occurs(s, sub) {
        var i: nat :| OccursAt(s, sub, i);
        assert i != 0;
        assert s[1..][i - 1..i - 1 + |sub|] == s[i..i + |sub|];
        assert OccursAt(s[1..], sub, i - 1);
      }
    }
  }
}
