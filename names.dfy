/** Identity keys are lower-cased before any comparison (`String.prototype.toLowerCase`,
    lib/plugins/environments.js:12, 15, 43, 62). Only the ASCII letters are mapped. */
module Names {

  predicate IsUpper(c: char)
  {
    'A' <= c <= 'Z'
  }

  function LowerChar(c: char): char
  {
    if IsUpper(c) then (c as int + 32) as char else c
  }

  /** `c` and `d` are the same character, or the same letter in the other case. */
  predicate SameLetter(c: char, d: char)
  {
    c == d
    || (IsUpper(c) && d as int == c as int + 32)
    || (IsUpper(d) && c as int == d as int + 32)
  }

  /** `s` and `t` differ at most in the case of their letters. */
  predicate EqualIgnoringCase(s: string, t: string)
  {
    |s| == |t| && forall i :: 0 <= i < |s| ==> SameLetter(s[i], t[i])
  }

  /** `s` holds no upper-case letter. */
  predicate NoUpper(s: string)
  {
    forall i :: 0 <= i < |s| ==> !IsUpper(s[i])
  }

  /** `toLowerCase`: a lower-case spelling of the same name. */
  function Lower(s: string): (r: string)
    ensures NoUpper(r)
    ensures EqualIgnoringCase(s, r)
  {
    seq(|s|, i requires 0 <= i < |s| => LowerChar(s[i]))
  }

  /** Lower-casing a name that is already lower-case changes nothing, so re-normalizing
      a normalized key is harmless. */
  lemma LowerFixesLowerCase(s: string)
    requires NoUpper(s)
    ensures Lower(s) == s
  {
  }

  /** Two names have the same lower-case spelling exactly when they differ only by case. */
  lemma LowerEqualIff(s: string, t: string)
    ensures Lower(s) == Lower(t) <==> EqualIgnoringCase(s, t)
  {
    if Lower(s) == Lower(t) {
      assert |s| == |t|;
      forall i | 0 <= i < |s| ensures SameLetter(s[i], t[i]) {
        assert Lower(s)[i] == LowerChar(s[i]) && Lower(t)[i] == LowerChar(t[i]);
      }
    }
  }

  /** Two lower-case names that differ only by case are the same name. */
  lemma LowerCaseVariantsEqual(s: string, t: string)
    requires NoUpper(s) && NoUpper(t) && EqualIgnoringCase(s, t)
    ensures s == t
  {
    LowerEqualIff(s, t);
    LowerFixesLowerCase(s);
    LowerFixesLowerCase(t);
  }
}
