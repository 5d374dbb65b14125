/**
 * The text matching behind the feed search: `contains` with `mode: "insensitive"`.
 * Case folding is modelled on ASCII letters only.
 */
module Text {

  /** ASCII lower case of one character; every other character is left as it is. */
  function LowerChar(c: char): char
  {
    if 'A' <= c <= 'Z' then (c as int - 'A' as int + 'a' as int) as char else c
  }

  /** The string lower-cased character by character. */
  function Lower(s: string): string
  {
    seq(|s|, i requires 0 <= i < |s| => LowerChar(s[i]))
  }

  /** `sub` occurs in `s` starting at position `i`. */
  predicate OccursAt(s: string, sub: string, i: int)
  {
    0 <= i && i + |sub| <= |s| && s[i..i + |sub|] == sub
  }

  /** `s` contains `sub` as a contiguous piece: a prefix of `s` or of one of its suffixes. */
  predicate Contains(s: string, sub: string)
    decreases |s|
  {
    (|sub| <= |s| && s[..|sub|] == sub) || (|s| > 0 && Contains(s[1..], sub))
  }

  /** Case-insensitive containment, as the store's `mode: "insensitive"` evaluates it. */
  predicate ContainsInsensitive(s: string, sub: string)
  {
    Contains(Lower(s), Lower(sub))
  }

  /** The recursive `Contains` holds exactly when `sub` occurs at some position of `s`. */
  lemma {:induction false} ContainsIffOccurs(s: string, sub: string)
    ensures Contains(s, sub) <==> exists i :: OccursAt(s, sub, i)
  {
    if |s| == 0 {
      if |sub| == 0 {
        assert OccursAt(s, sub, 0);
      }
      if exists i :: OccursAt(s, sub, i) {
        var i :| OccursAt(s, sub, i);
        assert |sub| == 0;
      }
    } else {
      ContainsIffOccurs(s[1..], sub);
      if |sub| <= |s| && s[..|sub|] == sub {
        assert s[0..|sub|] == s[..|sub|];
        assert OccursAt(s, sub, 0);
      }
      if exists i :: OccursAt(s[1..], sub, i) {
        var i :| OccursAt(s[1..], sub, i);
        assert s[1..][i..i + |sub|] == s[i + 1..i + 1 + |sub|];
        assert OccursAt(s, sub, i + 1);
      }
      if exists i :: OccursAt(s, sub, i) {
        var i :| OccursAt(s, sub, i);
        if i > 0 {
          assert s[1..][i - 1..i - 1 + |sub|] == s[i..i + |sub|];
          assert OccursAt(s[1..], sub, i - 1);
        } else {
          assert s[..|sub|] == s[0..|sub|];
        }
      }
    }
  }

  /** Lower-casing commutes with taking a slice. */
  lemma LowerSlice(s: string, i: int, j: int)
    requires 0 <= i <= j <= |s|
    ensures Lower(s)[i..j] == Lower(s[i..j])
  {
  }

  /** Lower-casing twice is lower-casing once. */
  lemma LowerIdempotent(s: string)
    ensures Lower(Lower(s)) == Lower(s)
  {
  }

  /** A verbatim occurrence is also a case-insensitive one: a search for the exact text always matches. */
  lemma ExactMatchIsInsensitiveMatch(s: string, sub: string)
    ensures Contains(s, sub) ==> ContainsInsensitive(s, sub)
  {
    if Contains(s, sub) {
      ContainsIffOccurs(s, sub);
      var i :| OccursAt(s, sub, i);
      LowerSlice(s, i, i + |sub|);
      assert OccursAt(Lower(s), Lower(sub), i);
      ContainsIffOccurs(Lower(s), Lower(sub));
    }
  }

  /** Case-insensitive matching does not depend on the case of either the text or the search term. */
  lemma InsensitiveMatchIgnoresCase(s: string, sub: string)
    ensures ContainsInsensitive(Lower(s), sub) == ContainsInsensitive(s, sub)
    ensures ContainsInsensitive(s, Lower(sub)) == ContainsInsensitive(s, sub)
  {
    LowerIdempotent(s);
    LowerIdempotent(sub);
  }
}
