/** The `mip` variant of `IdiomsLoader`: no correction step, and a single
    excluded phrase, `EXCEPTIONS = ("if needs be")`. The parentheses do not make
    a tuple, so `EXCEPTIONS` is a plain string and `idiom not in EXCEPTIONS` is
    Python's substring test. `IsNotException`, `IsTarget` and `Load` model that
    as written; `IsTargetIntended` and `LoadIntended` model the one-phrase
    exclusion the comment beside the constant asks for. */
module Mip {
  import PyStr
  import Seqs
  import opened TsvRows

  /** The value of `EXCEPTIONS`: one string, not a collection of phrases. */
  const Exceptions: string := "if needs be"
  const Separator: char := ' '
  const IdiomMinWc: nat := 3
  const IdiomMinLength: nat := 14

  predicate IsAboveMinLen(idiom: string)
  {
    |idiom| >= IdiomMinLength
  }

  /** `is_above_min_wc`: three or more pieces by `split(" ")`, that is, two or
      more spaces. */
  predicate IsAboveMinWc(idiom: string)
    ensures IsAboveMinWc(idiom) <==> PyStr.Occurrences(idiom, ' ') >= 2
  {
    |PyStr.Split(idiom, Separator)| >= IdiomMinWc
  }

  /** `is_hyphenated`: `find("-")` finds a hyphen. */
  predicate IsHyphenated(idiom: string)
    ensures IsHyphenated(idiom) <==> '-' in idiom
  {
    PyStr.Find(idiom, '-') != -1
  }

  /** `is_not_exception` as written: `idiom` is not a substring of "if needs be". */
  predicate IsNotException(idiom: string)
    ensures IsNotException(idiom) <==> !exists i :: PyStr.OccursAt(Exceptions, idiom, i)
  {
    !PyStr.Contains(Exceptions, idiom)
  }

  /** `is_target` as written. */
  predicate IsTarget(idiom: string)
  {
    IsNotException(idiom) && (IsAboveMinWc(idiom) || IsAboveMinLen(idiom) || IsHyphenated(idiom))
  }

  /** `is_target` in plain terms: not a substring of "if needs be", and two or
      more spaces, fourteen or more characters, or a hyphen. */
  lemma TargetCharacterization(idiom: string)
    ensures IsAboveMinLen(idiom) <==> |idiom| >= 14
    ensures IsTarget(idiom) <==>
              !PyStr.Contains(Exceptions, idiom)
              && (PyStr.Occurrences(idiom, ' ') >= 2 || |idiom| >= 14 || '-' in idiom)
  {
  }

  /** Substrings of "if needs be" are exceptions, the empty string among them. */
  lemma SubstringExceptions()
    ensures !IsNotException("if needs be")
    ensures !IsNotException("") && !IsNotException("needs") && !IsNotException("be")
  {
    assert PyStr.OccursAt(Exceptions, "if needs be", 0);
    assert PyStr.OccursAt(Exceptions, "", 0);
    assert PyStr.OccursAt(Exceptions, "needs", 3);
    assert PyStr.OccursAt(Exceptions, "be", 9);
  }

  /** "if need be", which the comment beside `EXCEPTIONS` names as the form to
      keep, is not an exception. */
  lemma IfNeedBeKept(keep: string)
    requires keep == "if need be"
    ensures IsNotException(keep)
  {
    forall i | 0 <= i
      ensures !PyStr.OccursAt(Exceptions, keep, i)
    {
      if i == 0 {
        assert Exceptions[i..i + 10][7] != keep[7];
      } else if i == 1 {
        assert Exceptions[i..i + 10][0] != keep[0];
      }
    }
  }

  /** "if needs be" has three words, yet the exclusion comes first. */
  lemma IfNeedsBeNeverTarget(idiom: string)
    requires idiom == Exceptions
    ensures IsAboveMinWc(idiom)
    ensures !IsTarget(idiom)
  {
    assert PyStr.Occurrences(idiom, ' ') >= 2 by {
      PyStr.TwoOccurrencesAt(idiom, ' ', 2, 8);
    }
    assert PyStr.Contains(Exceptions, idiom) by {
      assert PyStr.OccursAt(Exceptions, idiom, 0);
    }
    TargetCharacterization(idiom);
  }

  /** `load(target_only)`: the idioms, filtered by `is_target` when `targetOnly`
      holds; no correction. Reading fails exactly as `idioms()` does. */
  function Load(rows: seq<Row>, targetOnly: bool): (r: Result<seq<string>>)
    ensures r.Err? <==> Idioms(rows).Err?
    ensures r.Err? ==> r.error == Idioms(rows).error
    ensures r.Ok? && !targetOnly ==>
              |r.value| == |rows| - 1 && forall i :: 0 <= i < |r.value| ==> r.value[i] == rows[i + 1][0]
    ensures r.Ok? && targetOnly ==>
              forall x :: x in r.value <==> IsTarget(x) && exists i :: 1 <= i < |rows| && x == rows[i][0]
  {
    match Idioms(rows)
    case Ok(idioms) =>
      if targetOnly then
        Seqs.FilterCounts(IsTarget, idioms);
        IdiomsMembers(rows);
        Ok(Seqs.Filter(IsTarget, idioms))
      else Ok(idioms)
    case Err(e) => Err(e)
  }

  /** `load(True)` keeps, in order and with their multiplicity, exactly the
      idioms of `load(False)` that are targets. */
  lemma {:induction false} TargetsFilterAll(rows: seq<Row>)
    requires Idioms(rows).Ok?
    ensures Load(rows, true).Ok? && Load(rows, false).Ok?
    ensures Seqs.Subsequence(Load(rows, true).value, Load(rows, false).value)
    ensures forall x :: multiset(Load(rows, true).value)[x] ==
              if IsTarget(x) then multiset(Load(rows, false).value)[x] else 0
  {
    Seqs.FilterIsSubsequence(IsTarget, Idioms(rows).value);
    Seqs.FilterCounts(IsTarget, Idioms(rows).value);
  }

  // ---------------------------------------------------------------------
  // The exclusion as intended: a collection holding the one phrase.

  const IntendedExceptions: set<string> := {"if needs be"}

  /** `is_target` with `EXCEPTIONS` read as the one-phrase tuple `("if needs be",)`. */
  predicate IsTargetIntended(idiom: string)
  {
    idiom !in IntendedExceptions && (IsAboveMinWc(idiom) || IsAboveMinLen(idiom) || IsHyphenated(idiom))
  }

  /** The intended exclusion rejects the one phrase and nothing else. */
  lemma IntendedExcludesOnlyPhrase(idiom: string)
    ensures IsTargetIntended(idiom) <==>
              idiom != Exceptions
              && (PyStr.Occurrences(idiom, ' ') >= 2 || |idiom| >= 14 || '-' in idiom)
  {
    assert idiom in IntendedExceptions <==> idiom == Exceptions;
  }

  /** An idiom on which the substring test wrongly excludes: a proper part of
      "if needs be" that still has three words by the space count. */
  predicate Misjudged(idiom: string)
  {
    PyStr.Contains(Exceptions, idiom) && idiom != Exceptions && PyStr.Occurrences(idiom, ' ') >= 2
  }

  /** A part of "if needs be" is short and has no hyphen. */
  lemma ExceptionPartShape(idiom: string)
    requires PyStr.Contains(Exceptions, idiom)
    ensures |idiom| < 14 && '-' !in idiom
  {
    PyStr.ContainedIsPart(Exceptions, idiom, '-');
    assert '-' !in Exceptions;
  }

  /** The two exclusions give different verdicts exactly on the misjudged idioms,
      and there the as-written predicate is the one that says no. */
  lemma IntendedDiffersExactlyOnMisjudged(idiom: string)
    ensures IsTarget(idiom) != IsTargetIntended(idiom) <==> Misjudged(idiom)
    ensures Misjudged(idiom) ==> IsTargetIntended(idiom) && !IsTarget(idiom)
  {
    TargetCharacterization(idiom);
    IntendedExcludesOnlyPhrase(idiom);
    if PyStr.Contains(Exceptions, idiom) {
      ExceptionPartShape(idiom);
    }
    if idiom == Exceptions {
      assert PyStr.OccursAt(Exceptions, idiom, 0);
    }
  }

  /** "f needs b" (three pieces, no hyphen, short) is a target under the
      intended exclusion and is rejected as written. */
  lemma MisjudgedExample(idiom: string)
    requires idiom == "f needs b"
    ensures Misjudged(idiom)
    ensures IsTargetIntended(idiom) && !IsTarget(idiom)
  {
    assert PyStr.Occurrences(idiom, ' ') >= 2 by {
      PyStr.TwoOccurrencesAt(idiom, ' ', 1, 7);
    }
    assert PyStr.Contains(Exceptions, idiom) by {
      assert PyStr.OccursAt(Exceptions, idiom, 1);
    }
    IntendedDiffersExactlyOnMisjudged(idiom);
  }

  /** `load(target_only)` with the intended exclusion. */
  function LoadIntended(rows: seq<Row>, targetOnly: bool): (r: Result<seq<string>>)
    ensures r.Err? <==> Idioms(rows).Err?
    ensures r.Err? ==> r.error == Idioms(rows).error
    ensures r.Ok? && !targetOnly ==> r == Load(rows, false)
    ensures r.Ok? && targetOnly ==>
              forall x :: x in r.value <==> IsTargetIntended(x) && exists i :: 1 <= i < |rows| && x == rows[i][0]
  {
    match Load(rows, false)
    case Ok(idioms) =>
      if targetOnly then
        Seqs.FilterCounts(IsTargetIntended, idioms);
        IdiomsMembers(rows);
        Ok(Seqs.Filter(IsTargetIntended, idioms))
      else Ok(idioms)
    case Err(e) => Err(e)
  }

  /** The intended `load(True)` keeps, in order and with their multiplicity,
      exactly the idioms of `load(False)` that are intended targets. */
  lemma {:induction false} TargetsFilterAllIntended(rows: seq<Row>)
    requires Idioms(rows).Ok?
    ensures LoadIntended(rows, true).Ok? && LoadIntended(rows, false).Ok?
    ensures Seqs.Subsequence(LoadIntended(rows, true).value, LoadIntended(rows, false).value)
    ensures forall x :: multiset(LoadIntended(rows, true).value)[x] ==
              if IsTargetIntended(x) then multiset(LoadIntended(rows, false).value)[x] else 0
  {
    Seqs.FilterIsSubsequence(IsTargetIntended, Idioms(rows).value);
    Seqs.FilterCounts(IsTargetIntended, Idioms(rows).value);
  }

  /** On a dictionary holding no misjudged idiom, the loader as written and the
      intended one yield the same idioms. */
  lemma LoadsAgreeWithoutMisjudged(rows: seq<Row>, targetOnly: bool)
    requires forall i :: 1 <= i < |rows| && rows[i] != [] ==> !Misjudged(rows[i][0])
    ensures Load(rows, targetOnly) == LoadIntended(rows, targetOnly)
  {
    if Idioms(rows).Ok? && targetOnly {
      var idioms := Idioms(rows).value;
      forall x | x in idioms
        ensures IsTarget(x) == IsTargetIntended(x)
      {
        var k :| 0 <= k < |idioms| && idioms[k] == x;
        assert x == rows[k + 1][0];
        IntendedDiffersExactlyOnMisjudged(x);
      }
      Seqs.FilterCongruent(IsTarget, IsTargetIntended, idioms);
    }
  }
}
