/**
 * Plain substring search and replace-all over strings, with the semantics of
 * Python's `pat in s` and `s.replace(pat, rep)` for a non-empty pattern:
 * occurrences are found left to right and never overlap.
 */
module StringOps {

  /** `pat` occurs in `s` starting at index `i`. */
  predicate OccursAt(s: string, pat: string, i: int) {
    0 <= i && i + |pat| <= |s| && s[i..i + |pat|] == pat
  }

  /** Python's `pat in s`: does `pat` occur anywhere in `s`? */
  predicate Contains(s: string, pat: string)
    decreases |s|
  {
    if pat <= s then true
    else if s == [] then false
    else Contains(s[1..], pat)
  }

  /**
   * Python's `s.replace(pat, rep)` for a non-empty `pat`: scan `s` from the left;
   * where `pat` starts, emit `rep` and skip past the whole occurrence, otherwise
   * copy one character.
   */
  function ReplaceAll(s: string, pat: string, rep: string): string
    requires |pat| > 0
    decreases |s|
  {
    if s == [] then []
    else if pat <= s then rep + ReplaceAll(s[|pat|..], pat, rep)
    else [s[0]] + ReplaceAll(s[1..], pat, rep)
  }

  lemma OccursAtTail(s: string, pat: string, j: int)
    requires s != [] && j >= 0
    ensures OccursAt(s[1..], pat, j) <==> OccursAt(s, pat, j + 1)
  {
    if 0 <= j && j + 1 + |pat| <= |s| {
      assert s[1..][j..j + |pat|] == s[j + 1..j + 1 + |pat|];
    }
  }

  lemma OccursAtZero(s: string, pat: string)
    ensures OccursAt(s, pat, 0) <==> pat <= s
  {
    if |pat| <= |s| {
      assert s[0..|pat|] == s[..|pat|];
    }
  }

  /** `Contains` holds exactly when there is an index at which `pat` occurs. */
  lemma {:induction false} ContainsIff(s: string, pat: string)
    ensures Contains(s, pat) <==> exists i :: OccursAt(s, pat, i)
    decreases |s|
  {
    OccursAtZero(s, pat);
    if pat <= s {
      assert OccursAt(s, pat, 0);
    } else if s == [] {
      forall i ensures !OccursAt(s, pat, i) {
        assert pat != [];
      }
    } else {
      ContainsIff(s[1..], pat);
      if Contains(s[1..], pat) {
        var j :| OccursAt(s[1..], pat, j);
        OccursAtTail(s, pat, j);
      } else {
        forall i | OccursAt(s, pat, i) ensures false {
          assert i != 0;
          OccursAtTail(s, pat, i - 1);
        }
      }
    }
  }

  /** Where `pat` occurs nowhere, replacing it changes nothing. */
  lemma {:induction false} ReplaceAllNoOccurrence(s: string, pat: string, rep: string)
    requires |pat| > 0
    requires !Contains(s, pat)
    ensures ReplaceAll(s, pat, rep) == s
    decreases |s|
  {
    if s != [] {
      assert !(pat <= s);
      ReplaceAllNoOccurrence(s[1..], pat, rep);
    }
  }

  /**
   * Left-to-right, non-overlapping replacement: at the FIRST occurrence `i`,
   * the characters before it are copied unchanged, the occurrence becomes `rep`,
   * and the scan resumes after the whole occurrence.
   */
  lemma {:induction false} ReplaceAllAtFirstOccurrence(s: string, pat: string, rep: string, i: nat)
    requires |pat| > 0
    requires OccursAt(s, pat, i)
    requires forall j :: 0 <= j < i ==> !OccursAt(s, pat, j)
    ensures ReplaceAll(s, pat, rep) == s[..i] + rep + ReplaceAll(s[i + |pat|..], pat, rep)
    decreases i
  {
    OccursAtZero(s, pat);
    if i > 0 {
      var t := s[1..];
      var rest := ReplaceAll(s[i + |pat|..], pat, rep);
      NoEarlierOccurrenceInTail(s, pat, i);
      ReplaceAllAtFirstOccurrence(t, pat, rep, i - 1);
      assert t[i - 1 + |pat|..] == s[i + |pat|..];
      calc {
        ReplaceAll(s, pat, rep);
        [s[0]] + ReplaceAll(t, pat, rep);
        [s[0]] + (t[..i - 1] + rep + rest);
        { AssocHelper([s[0]], t[..i - 1], rep, rest); }
        ([s[0]] + t[..i - 1]) + rep + rest;
        { assert [s[0]] + t[..i - 1] == s[..i]; }
        s[..i] + rep + rest;
      }
    }
  }

  /** An occurrence at `i > 0` with none before it moves to `i - 1` in the tail. */
  lemma NoEarlierOccurrenceInTail(s: string, pat: string, i: nat)
    requires i > 0 && OccursAt(s, pat, i)
    requires forall j :: 0 <= j < i ==> !OccursAt(s, pat, j)
    ensures s != [] && !(pat <= s)
    ensures OccursAt(s[1..], pat, i - 1)
    ensures forall j :: 0 <= j < i - 1 ==> !OccursAt(s[1..], pat, j)
  {
    OccursAtZero(s, pat);
    assert !OccursAt(s, pat, 0);
    OccursAtTail(s, pat, i - 1);
    forall j | 0 <= j < i - 1 ensures !OccursAt(s[1..], pat, j) {
      OccursAtTail(s, pat, j);
    }
  }

  lemma AssocHelper(a: string, b: string, c: string, d: string)
    ensures a + (b + c + d) == (a + b) + c + d
  {
  }

  /** Replacing the pattern by itself is the identity. */
  lemma {:induction false} ReplaceAllWithItself(s: string, pat: string)
    requires |pat| > 0
    ensures ReplaceAll(s, pat, pat) == s
    decreases |s|
  {
    if s != [] {
      if pat <= s {
        ReplaceAllWithItself(s[|pat|..], pat);
        assert s == pat + s[|pat|..];
      } else {
        ReplaceAllWithItself(s[1..], pat);
        assert s == [s[0]] + s[1..];
      }
    }
  }

  /**
   * A replacement at least as long as the pattern never shortens the string,
   * one at most as long never lengthens it.
   */
  lemma {:induction false} ReplaceAllLength(s: string, pat: string, rep: string)
    requires |pat| > 0
    ensures |rep| >= |pat| ==> |ReplaceAll(s, pat, rep)| >= |s|
    ensures |rep| <= |pat| ==> |ReplaceAll(s, pat, rep)| <= |s|
    decreases |s|
  {
    if s != [] {
      if pat <= s {
        ReplaceAllLength(s[|pat|..], pat, rep);
      } else {
        ReplaceAllLength(s[1..], pat, rep);
      }
    }
  }

  /**
   * Replacing by anything other than the pattern itself changes every string in
   * which the pattern occurs.
   */
  lemma ReplaceAllChanges(s: string, pat: string, rep: string)
    requires |pat| > 0 && rep != pat
    requires Contains(s, pat)
    ensures ReplaceAll(s, pat, rep) != s
  {
    ContainsIff(s, pat);
    var i := FirstOccurrence(s, pat);
    ReplaceAllAtFirstOccurrence(s, pat, rep, i);
    var tail := s[i + |pat|..];
    ReplaceAllLength(tail, pat, rep);
    var out := ReplaceAll(s, pat, rep);
    assert |out| == i + |rep| + |ReplaceAll(tail, pat, rep)|;
    if |rep| == |pat| {
      assert out[i..i + |pat|] == rep;
      assert s[i..i + |pat|] == pat;
    }
  }

  /** A replacement that contains the pattern leaves an occurrence in every string that had one. */
  lemma ReplaceAllKeepsPatternInReplacement(s: string, pat: string, rep: string)
    requires |pat| > 0
    requires Contains(rep, pat) && Contains(s, pat)
    ensures Contains(ReplaceAll(s, pat, rep), pat)
  {
    ContainsIff(s, pat);
    ContainsIff(rep, pat);
    var i := FirstOccurrence(s, pat);
    var j :| OccursAt(rep, pat, j);
    ReplaceAllAtFirstOccurrence(s, pat, rep, i);
    var rest := ReplaceAll(s[i + |pat|..], pat, rep);
    OccursInMiddle(s[..i], rep, rest, pat, j);
    ContainsIff(ReplaceAll(s, pat, rep), pat);
  }

  /** An occurrence in `b` is an occurrence in `a + b + c`, shifted by `|a|`. */
  lemma OccursInMiddle(a: string, b: string, c: string, pat: string, j: nat)
    requires OccursAt(b, pat, j)
    ensures OccursAt(a + b + c, pat, |a| + j)
  {
    assert (a + b + c)[|a| + j..|a| + j + |pat|] == b[j..j + |pat|];
  }

  /** No occurrence starts at `j` when the character at `j + k` differs from the pattern's. */
  lemma NoOccurrenceAtMismatch(s: string, pat: string, j: nat, k: nat)
    requires k < |pat| && j + k < |s| && s[j + k] != pat[k]
    ensures !OccursAt(s, pat, j)
  {
    assert j + |pat| <= |s| ==> s[j..j + |pat|][k] == s[j + k];
  }

  /**
   * A string with one occurrence of the pattern, none starting inside the prefix and
   * none in the suffix, gets the replacement exactly where the occurrence was.
   */
  lemma ReplaceAllSingle(prefix: string, pat: string, suffix: string, rep: string)
    requires |pat| > 0
    requires forall j :: 0 <= j < |prefix| ==> !OccursAt(prefix + pat + suffix, pat, j)
    requires !Contains(suffix, pat)
    ensures Contains(prefix + pat + suffix, pat)
    ensures ReplaceAll(prefix + pat + suffix, pat, rep) == prefix + rep + suffix
  {
    var s := prefix + pat + suffix;
    var i := |prefix|;
    assert s[i..i + |pat|] == pat;
    assert OccursAt(s, pat, i);
    ContainsIff(s, pat);
    ReplaceAllAtFirstOccurrence(s, pat, rep, i);
    assert s[..i] == prefix;
    assert s[i + |pat|..] == suffix;
    ReplaceAllNoOccurrence(suffix, pat, rep);
  }

  /** The smallest index at which `pat` occurs in `s`. */
  function FirstOccurrence(s: string, pat: string): (i: nat)
    requires exists j :: OccursAt(s, pat, j)
    ensures OccursAt(s, pat, i)
    ensures forall j :: 0 <= j < i ==> !OccursAt(s, pat, j)
    decreases |s|
  {
    if OccursAt(s, pat, 0) then 0
    else
      var j :| OccursAt(s, pat, j);
      assert s != [] && j >= 1;
      OccursAtTail(s, pat, j - 1);
      var k := FirstOccurrence(s[1..], pat);
      OccursAtTail(s, pat, k);
      forall m | 1 <= m <= k ensures !OccursAt(s, pat, m) {
        OccursAtTail(s, pat, m - 1);
      }
      k + 1
  }
}
