/** Substring tests on strings, used by the XPath `contains()` call and the tag reader. */
module Text {

  predicate IsPrefix(w: string, s: string) {
    |w| <= |s| && s[..|w|] == w
  }

  /** XPath `contains(s, w)`: `w` occurs somewhere in `s`. */
  predicate Contains(s: string, w: string)
    decreases |s|
  {
    IsPrefix(w, s) || (s != [] && Contains(s[1..], w))
  }

  lemma {:induction false} ContainsFits(s: string, w: string)
    requires Contains(s, w)
    ensures |w| <= |s|
    decreases |s|
  {
    if !IsPrefix(w, s) {
      ContainsFits(s[1..], w);
    }
  }

  /** `w` occurs in `s` starting at index `p`. */
  predicate OccursAt(s: string, w: string, p: int) {
    0 <= p <= |s| - |w| && s[p..p + |w|] == w
  }

  lemma {:induction false} OccursThenContains(s: string, w: string, p: int)
    requires OccursAt(s, w, p)
    ensures Contains(s, w)
    decreases p
  {
    if p == 0 {
      assert IsPrefix(w, s);
    } else {
      assert s[1..][p - 1..p - 1 + |w|] == s[p..p + |w|];
      OccursThenContains(s[1..], w, p - 1);
    }
  }

  lemma {:induction false} ContainsThenOccurs(s: string, w: string) returns (p: int)
    requires Contains(s, w)
    ensures OccursAt(s, w, p)
    decreases |s|
  {
    if IsPrefix(w, s) {
      p := 0;
    } else {
      var q := ContainsThenOccurs(s[1..], w);
      assert s[q + 1..q + 1 + |w|] == s[1..][q..q + |w|];
      p := q + 1;
    }
  }
}
