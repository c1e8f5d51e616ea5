/**
 * Substring search on text, with the same result as Rust's `str::contains`
 * with a `&str` pattern (which searches by another algorithm). `Contains`
 * is the executable search; `Occurs` is the independent definition ("the
 * pattern sits at some index") that the contracts elsewhere are stated in.
 */
module Substring {

  /** `sub` sits in `s` starting at index `i`. */
  predicate OccursAt(s: string, sub: string, i: int)
  {
    0 <= i <= |s| - |sub| && s[i..i + |sub|] == sub
  }

  /** `sub` sits somewhere in `s`. */
  ghost predicate Occurs(s: string, sub: string)
  {
    exists i :: OccursAt(s, sub, i)
  }

  /** Left-to-right search: is `sub` a prefix of `s` or of one of its suffixes? */
  function Contains(s: string, sub: string): bool
    decreases |s|
  {
    if |s| < |sub| then false
    else if s[..|sub|] == sub then true
    else Contains(s[1..], sub)
  }

  /** The search finds the pattern exactly when it occurs. */
  lemma {:induction false} ContainsOccurs(s: string, sub: string)
    ensures Contains(s, sub) <==> Occurs(s, sub)
    decreases |s|
  {
    if |s| < |sub| {
    } else if s[..|sub|] == sub {
      assert OccursAt(s, sub, 0);
    } else {
      ContainsOccurs(s[1..], sub);
      if Occurs(s, sub) {
        var i :| OccursAt(s, sub, i);
        assert i != 0;
        assert s[1..][i - 1..i - 1 + |sub|] == s[i..i + |sub|];
        assert OccursAt(s[1..], sub, i - 1);
      }
      if Occurs(s[1..], sub) {
        var i :| OccursAt(s[1..], sub, i);
        assert s[1..][i..i + |sub|] == s[i + 1..i + 1 + |sub|];
        assert OccursAt(s, sub, i + 1);
      }
    }
  }

  /** No character of `s` is a character of `sub`. */
  predicate Avoids(s: string, sub: string)
  {
    forall k :: 0 <= k < |s| ==> s[k] !in sub
  }

  /** Text made only of characters foreign to a non-empty pattern never holds it. */
  lemma AvoidingNeverOccurs(s: string, sub: string)
    requires |sub| > 0 && Avoids(s, sub)
    ensures !Occurs(s, sub)
  {
    forall i | 0 <= i <= |s| - |sub|
      ensures !OccursAt(s, sub, i)
    {
      assert s[i..i + |sub|][0] == s[i];
    }
  }

  /**
   * When the characters on either side of the seam of `a + b` are foreign to
   * the pattern, no occurrence can straddle the seam: the pattern occurs in
   * the concatenation exactly when it occurs in one of the parts.
   */
  lemma OccursConcat(a: string, b: string, sub: string)
    requires (|a| > 0 && a[|a| - 1] !in sub) || (|b| > 0 && b[0] !in sub)
    ensures Occurs(a + b, sub) <==> Occurs(a, sub) || Occurs(b, sub)
  {
    if Occurs(a, sub) {
      var i :| OccursAt(a, sub, i);
      assert (a + b)[i..i + |sub|] == a[i..i + |sub|];
      assert OccursAt(a + b, sub, i);
    }
    if Occurs(b, sub) {
      var i :| OccursAt(b, sub, i);
      assert (a + b)[|a| + i..|a| + i + |sub|] == b[i..i + |sub|];
      assert OccursAt(a + b, sub, |a| + i);
    }
    // No occurrence straddles the seam: it would cover a's last character and b's first.
    forall i | 0 <= i < |a| < i + |sub| <= |a| + |b|
      ensures !OccursAt(a + b, sub, i)
    {
      if |a| > 0 && a[|a| - 1] !in sub {
        assert (a + b)[i..i + |sub|][|a| - 1 - i] == a[|a| - 1];
      } else {
        assert (a + b)[i..i + |sub|][|a| - i] == b[0];
      }
    }
    if Occurs(a + b, sub) {
      var i :| OccursAt(a + b, sub, i);
      if i + |sub| <= |a| {
        assert (a + b)[i..i + |sub|] == a[i..i + |sub|];
        assert OccursAt(a, sub, i);
      } else if i >= |a| {
        assert (a + b)[|a|..] == b;
        assert (a + b)[i..i + |sub|] == (a + b)[|a|..][i - |a|..i - |a| + |sub|];
        assert (a + b)[i..i + |sub|] == b[i - |a|..i - |a| + |sub|];
        assert OccursAt(b, sub, i - |a|);
      }
    }
  }

  /** `ts` written one after another with `sep` between neighbours. */
  function Join(ts: seq<string>, sep: string): string
    decreases |ts|
  {
    if |ts| == 0 then ""
    else if |ts| == 1 then ts[0]
    else ts[0] + sep + Join(ts[1..], sep)
  }

  /**
   * A non-empty separator foreign to the pattern cuts every occurrence off:
   * the pattern occurs in the joined text exactly when it occurs in one of
   * the pieces.
   */
  lemma {:induction false} OccursJoin(ts: seq<string>, sep: string, sub: string)
    requires |sub| > 0 && |sep| > 0 && Avoids(sep, sub)
    ensures Occurs(Join(ts, sep), sub) <==> exists k :: 0 <= k < |ts| && Occurs(ts[k], sub)
    decreases |ts|
  {
    if |ts| == 0 {
      AvoidingNeverOccurs("", sub);
    } else if |ts| >= 2 {
      var rest := Join(ts[1..], sep);
      OccursJoin(ts[1..], sep, sub);
      AvoidingNeverOccurs(sep, sub);
      OccursConcat(sep, rest, sub);
      assert (sep + rest)[0] == sep[0];
      OccursConcat(ts[0], sep + rest, sub);
      assert ts[0] + sep + rest == ts[0] + (sep + rest);
      if exists k :: 0 <= k < |ts[1..]| && Occurs(ts[1..][k], sub) {
        var k :| 0 <= k < |ts[1..]| && Occurs(ts[1..][k], sub);
        assert Occurs(ts[k + 1], sub);
      }
      if exists k :: 0 <= k < |ts| && Occurs(ts[k], sub) {
        var k :| 0 <= k < |ts| && Occurs(ts[k], sub);
        if k > 0 {
          assert Occurs(ts[1..][k - 1], sub);
        }
      }
    }
  }

  /** Reordering the pieces of a joined text does not change whether a pattern occurs in it. */
  lemma OccursJoinReordered(ts: seq<string>, us: seq<string>, sep: string, sub: string)
    requires |sub| > 0 && |sep| > 0 && Avoids(sep, sub)
    requires multiset(ts) == multiset(us)
    ensures Occurs(Join(ts, sep), sub) <==> Occurs(Join(us, sep), sub)
  {
    OccursJoin(ts, sep, sub);
    OccursJoin(us, sep, sub);
    if exists k :: 0 <= k < |ts| && Occurs(ts[k], sub) {
      var k :| 0 <= k < |ts| && Occurs(ts[k], sub);
      assert ts[k] in multiset(us);
      var j :| 0 <= j < |us| && us[j] == ts[k];
      assert Occurs(us[j], sub);
    }
    if exists k :: 0 <= k < |us| && Occurs(us[k], sub) {
      var k :| 0 <= k < |us| && Occurs(us[k], sub);
      assert us[k] in multiset(ts);
      var j :| 0 <= j < |ts| && ts[j] == us[k];
      assert Occurs(ts[j], sub);
    }
  }
}
