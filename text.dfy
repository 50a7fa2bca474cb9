/** String operations the catalog relies on: the case-insensitive substring
    match of the `q` search parameter and the suffix test of the loader's
    connection-URI normalisation. Case folding covers ASCII letters only. */
module Text {

  /** Maps 'A'..'Z' to 'a'..'z' and leaves every other character alone. */
  function LowerChar(c: char): char {
    if 'A' <= c <= 'Z' then (c as int + 32) as char else c
  }

  function Lower(s: string): (r: string)
    ensures |r| == |s|
    ensures forall i :: 0 <= i < |s| ==> r[i] == LowerChar(s[i])
  {
    if s == [] then [] else [LowerChar(s[0])] + Lower(s[1..])
  }

  predicate IsPrefix(p: string, s: string) {
    |p| <= |s| && s[..|p|] == p
  }

  /** Whether `pat` occurs in `s` as a contiguous substring. */
  function Contains(s: string, pat: string): bool
    decreases |s|
  {
    IsPrefix(pat, s) || (s != [] && Contains(s[1..], pat))
  }

  /** Occurrence as a position: `pat` is the slice of `s` starting at some `i`. */
  ghost predicate OccursAt(s: string, pat: string, i: int) {
    0 <= i && i + |pat| <= |s| && s[i..i + |pat|] == pat
  }

  /** An occurrence at position `i` is found by `Contains`. */
  lemma {:induction false} OccursAtContains(s: string, pat: string, i: int)
    requires OccursAt(s, pat, i)
    ensures Contains(s, pat)
    decreases i
  {
    if i == 0 {
      assert IsPrefix(pat, s);
    } else {
      assert s[1..][i - 1..i - 1 + |pat|] == s[i..i + |pat|];
      OccursAtContains(s[1..], pat, i - 1);
    }
  }

  /** `Contains` finds exactly the positional occurrences. */
  lemma {:induction false} ContainsIff(s: string, pat: string)
    ensures Contains(s, pat) <==> exists i :: OccursAt(s, pat, i)
    decreases |s|
  {
    if IsPrefix(pat, s) {
      assert OccursAt(s, pat, 0);
    } else if s != [] {
      ContainsIff(s[1..], pat);
      if Contains(s[1..], pat) {
        var i :| OccursAt(s[1..], pat, i);
        assert s[i + 1..i + 1 + |pat|] == s[1..][i..i + |pat|];
        assert OccursAt(s, pat, i + 1);
      }
    }
    forall i | OccursAt(s, pat, i) ensures Contains(s, pat) {
      OccursAtContains(s, pat, i);
    }
  }

  /** The `{"$regex": q, "$options": "i"}` test with `q` read literally. */
  function ContainsIgnoringCase(s: string, pat: string): bool {
    Contains(Lower(s), Lower(pat))
  }

  /** Each character of `pat` equals the character of `s` at offset `i`, ASCII case aside. */
  ghost predicate OccursIgnoringCaseAt(s: string, pat: string, i: int) {
    0 <= i && i + |pat| <= |s| && forall k :: 0 <= k < |pat| ==> LowerChar(s[i + k]) == LowerChar(pat[k])
  }

  /** A positional occurrence in the lower-cased strings is a case-insensitive one. */
  lemma OccursLowered(s: string, pat: string, i: int)
    ensures OccursAt(Lower(s), Lower(pat), i) <==> OccursIgnoringCaseAt(s, pat, i)
  {
    var ls, lp := Lower(s), Lower(pat);
    if 0 <= i && i + |pat| <= |s| {
      var w := ls[i..i + |pat|];
      if w == lp {
        forall k | 0 <= k < |pat| ensures LowerChar(s[i + k]) == LowerChar(pat[k]) {
          assert w[k] == ls[i + k];
        }
      }
      if OccursIgnoringCaseAt(s, pat, i) {
        forall k | 0 <= k < |pat| ensures w[k] == lp[k] {
          assert w[k] == ls[i + k];
        }
      }
    }
  }

  lemma ContainsIgnoringCaseIff(s: string, pat: string)
    ensures ContainsIgnoringCase(s, pat) <==> exists i :: OccursIgnoringCaseAt(s, pat, i)
  {
    ContainsIff(Lower(s), Lower(pat));
    if ContainsIgnoringCase(s, pat) {
      var i :| OccursAt(Lower(s), Lower(pat), i);
      OccursLowered(s, pat, i);
    }
    forall i | OccursIgnoringCaseAt(s, pat, i) ensures ContainsIgnoringCase(s, pat) {
      OccursLowered(s, pat, i);
    }
  }

  /** Every text matches the empty pattern. */
  lemma EmptyPatternMatches(s: string)
    ensures ContainsIgnoringCase(s, "")
  {
    assert IsPrefix(Lower(""), Lower(s));
  }

  /** Python's `str.endswith`. */
  predicate EndsWith(s: string, suffix: string) {
    |suffix| <= |s| && s[|s| - |suffix|..] == suffix
  }

  lemma EndsWithAppended(s: string, suffix: string)
    ensures EndsWith(s + suffix, suffix)
  {
    assert (s + suffix)[|s|..] == suffix;
  }
}
