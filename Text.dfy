/** Case folding of question text: the model of Python's `str.lower()` used
    to normalise a question before it is looked up in the session cache. */
module Text {

  /** Folds one ASCII capital letter to its small letter; every other
      character is left as it is. */
  function LowerChar(c: char): char
  {
    if 'A' <= c <= 'Z' then (c as int - 'A' as int + 'a' as int) as char else c
  }

  /** `s.lower()`, character by character. */
  function Lower(s: string): (r: string)
    ensures |r| == |s|
    ensures forall i :: 0 <= i < |r| ==> !('A' <= r[i] <= 'Z')
    ensures forall i :: 0 <= i < |s| && !('A' <= s[i] <= 'Z') ==> r[i] == s[i]
  {
    seq(|s|, i requires 0 <= i < |s| => LowerChar(s[i]))
  }

  /** Two characters are the same letter written in either case. */
  predicate CaseVariants(a: char, b: char)
  {
    || a == b
    || ('A' <= a <= 'Z' && b as int == a as int + 32)
    || ('A' <= b <= 'Z' && a as int == b as int + 32)
  }

  /** Two questions normalise to the same key exactly when they differ at
      most in the case of their letters. */
  lemma LowerEqualIff(p: string, q: string)
    ensures Lower(p) == Lower(q) <==>
              |p| == |q| && forall i :: 0 <= i < |p| ==> CaseVariants(p[i], q[i])
  {
    if Lower(p) == Lower(q) {
      forall i | 0 <= i < |p|
        ensures CaseVariants(p[i], q[i])
      {
        assert Lower(p)[i] == Lower(q)[i];
      }
    }
    if |p| == |q| && forall i :: 0 <= i < |p| ==> CaseVariants(p[i], q[i]) {
      forall i | 0 <= i < |p|
        ensures Lower(p)[i] == Lower(q)[i]
      {
        assert CaseVariants(p[i], q[i]);
      }
    }
  }

  /** Folding a folded string changes nothing, so a stored key is its own
      normal form. */
  lemma LowerIdempotent(s: string)
    ensures Lower(Lower(s)) == Lower(s)
  {
    forall i | 0 <= i < |s|
      ensures Lower(Lower(s))[i] == Lower(s)[i]
    {
      assert Lower(s)[i] == LowerChar(s[i]);
    }
  }
}
