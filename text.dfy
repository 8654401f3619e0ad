/**
 ASCII text operations that the pages use on strings: `toLowerCase`,
 `includes`, and the badge capitalisation `charAt(0).toUpperCase() + slice(1)`.
 Only the ASCII letters change case; every other character is left alone.
 */
module AsciiText {

  predicate IsUpper(c: char) { 'A' <= c <= 'Z' }

  predicate IsLower(c: char) { 'a' <= c <= 'z' }

  function LowerChar(c: char): char
  {
    if IsUpper(c) then (c as int + 32) as char else c
  }

  function UpperChar(c: char): char
  {
    if IsLower(c) then (c as int - 32) as char else c
  }

  /** `s.toLowerCase()`: every character is mapped by LowerChar, the length is kept. */
  function Lower(s: string): (r: string)
    ensures |r| == |s|
    ensures forall i :: 0 <= i < |s| ==> r[i] == LowerChar(s[i])
  {
    if s == [] then [] else [LowerChar(s[0])] + Lower(s[1..])
  }

  /** `t` occurs in `s` starting at position `i`. */
  predicate OccursAt(s: string, t: string, i: int)
  {
    0 <= i && i + |t| <= |s| && s[i..i + |t|] == t
  }

  /** `s.includes(t)`, searching from the left; the empty string is included in every string. */
  function Includes(s: string, t: string): (b: bool)
    ensures b <==> exists i :: OccursAt(s, t, i)
    decreases |s|
  {
    if |t| > |s| then false
    else if s[..|t|] == t then (assert OccursAt(s, t, 0); true)
    else
      var rest := s[1..];
      var b := Includes(rest, t);
      if b then
        var i :| OccursAt(rest, t, i);
        assert OccursAt(s, t, i + 1) by { assert s[i + 1..i + 1 + |t|] == rest[i..i + |t|]; }
        b
      else
        assert !OccursAt(s, t, 0);
        assert forall i :: OccursAt(s, t, i) ==> OccursAt(rest, t, i - 1) by {
          forall i | OccursAt(s, t, i) ensures OccursAt(rest, t, i - 1) {
            assert rest[i - 1..i - 1 + |t|] == s[i..i + |t|];
          }
        }
        b
  }

  /** `str.charAt(0).toUpperCase() + str.slice(1)`; the empty string stays empty. */
  function Capitalize(s: string): (r: string)
    ensures |r| == |s|
    ensures s != [] ==> r[0] == UpperChar(s[0]) && r[1..] == s[1..]
  {
    if s == [] then [] else [UpperChar(s[0])] + s[1..]
  }

  lemma LowerCharIdempotent(c: char)
    ensures LowerChar(LowerChar(c)) == LowerChar(c)
  {
  }

  lemma LowerUpperChar(c: char)
    ensures LowerChar(UpperChar(c)) == LowerChar(c)
  {
  }

  /** Lower-casing twice is lower-casing once. */
  lemma LowerIdempotent(s: string)
    ensures Lower(Lower(s)) == Lower(s)
  {
    forall i | 0 <= i < |s| ensures Lower(Lower(s))[i] == Lower(s)[i] {
      LowerCharIdempotent(s[i]);
    }
  }

  /** Lower-casing commutes with taking a slice. */
  lemma LowerSlice(s: string, i: int, j: int)
    requires 0 <= i <= j <= |s|
    ensures Lower(s)[i..j] == Lower(s[i..j])
  {
    forall k | 0 <= k < j - i ensures Lower(s)[i..j][k] == Lower(s[i..j])[k] {
      assert s[i..j][k] == s[i + k];
    }
  }

  /** An occurrence survives lower-casing both strings. */
  lemma {:induction false} IncludesLower(s: string, t: string)
    requires Includes(s, t)
    ensures Includes(Lower(s), Lower(t))
  {
    var i :| OccursAt(s, t, i);
    LowerSlice(s, i, i + |t|);
    assert OccursAt(Lower(s), Lower(t), i);
  }

  /** Inclusion is transitive: a substring of a substring is a substring. */
  lemma {:induction false} IncludesTransitive(s: string, t: string, u: string)
    requires Includes(s, t) && Includes(t, u)
    ensures Includes(s, u)
  {
    var i :| OccursAt(s, t, i);
    var k :| OccursAt(t, u, k);
    forall m | 0 <= m < |u| ensures s[i + k..i + k + |u|][m] == u[m] {
      assert u[m] == t[k + m] == s[i..i + |t|][k + m];
    }
    assert OccursAt(s, u, i + k);
  }

  /** Every string includes the empty string. */
  lemma IncludesEmpty(s: string)
    ensures Includes(s, "")
  {
    assert OccursAt(s, "", 0);
  }

  /** Capitalisation agrees with the value up to ASCII case at every position. */
  lemma {:induction false} CapitalizeKeepsLower(s: string)
    ensures Lower(Capitalize(s)) == Lower(s)
  {
    if s != [] {
      LowerUpperChar(s[0]);
      assert Lower(Capitalize(s))[0] == Lower(s)[0];
      assert forall i :: 1 <= i < |s| ==> Capitalize(s)[i] == s[i];
    }
  }
}
