/** The `merge_idioms` variant of `IdiomsLoader`: every idiom is first passed
    through a correction table, then (when only targets are wanted) kept if it
    is not on the ignore list and is long or distinctive enough.
    The tables `IGNORED_CASES` and `CORRECTION_CASES` come from a `cases`
    module that is not part of this model; they are parameters here. */
module MergeIdioms {
  import PyStr
  import Seqs
  import opened TsvRows

  const Separator: char := ' '
  /** An idiom of at least this many words is a target. */
  const MinWc: nat := 3
  /** An idiom of at least this many characters is a target. */
  const MinLength: nat := 14

  /** `correct_idiom`: the corrected form of `idiom` when the table has one. */
  function CorrectIdiom(corrections: map<string, string>, idiom: string): (r: string)
    ensures idiom in corrections ==> r == corrections[idiom]
    ensures idiom !in corrections ==> r == idiom
  {
    if idiom in corrections.Keys then corrections[idiom] else idiom
  }

  /** When no corrected form is itself a key of the table, a corrected idiom
      is never a key, so correcting twice is correcting once. */
  lemma CorrectIdempotent(corrections: map<string, string>, idiom: string)
    requires forall k :: k in corrections ==> corrections[k] !in corrections
    ensures CorrectIdiom(corrections, CorrectIdiom(corrections, idiom)) == CorrectIdiom(corrections, idiom)
    ensures CorrectIdiom(corrections, idiom) !in corrections
  {
  }

  predicate IsAboveMinLen(idiom: string)
  {
    |idiom| >= MinLength
  }

  /** `is_above_min_wc`: three or more pieces by `split(" ")`. Splitting on
      one space yields one piece more than there are spaces, so this is two
      or more spaces. */
  predicate IsAboveMinWc(idiom: string)
    ensures IsAboveMinWc(idiom) <==> PyStr.Occurrences(idiom, ' ') >= 2
  {
    |PyStr.Split(idiom, Separator)| >= MinWc
  }

  /** `is_hyphenated`: `find("-")` finds a hyphen. */
  predicate IsHyphenated(idiom: string)
    ensures IsHyphenated(idiom) <==> '-' in idiom
  {
    PyStr.Find(idiom, '-') != -1
  }

  predicate IsNotIgnored(ignored: set<string>, idiom: string)
  {
    idiom !in ignored
  }

  /** `is_target`: not ignored, and at least one of the three shape tests. */
  predicate IsTarget(ignored: set<string>, idiom: string)
  {
    IsNotIgnored(ignored, idiom) && (IsAboveMinWc(idiom) || IsAboveMinLen(idiom) || IsHyphenated(idiom))
  }

  /** The word-count test holds exactly when two distinct positions of the
      idiom hold a space. */
  lemma WordCountIsTwoSpaces(idiom: string)
    ensures IsAboveMinWc(idiom) <==>
              exists i, j :: 0 <= i < j < |idiom| && idiom[i] == ' ' && idiom[j] == ' '
  {
    PyStr.TwoOccurrences(idiom, ' ');
  }

  /** `is_target` in plain terms: the three shape tests are the space count,
      the length and the presence of a hyphen, behind the ignore list. */
  lemma TargetCharacterization(ignored: set<string>, idiom: string)
    ensures IsAboveMinLen(idiom) <==> |idiom| >= 14
    ensures IsTarget(ignored, idiom) <==>
              idiom !in ignored
              && (PyStr.Occurrences(idiom, ' ') >= 2 || |idiom| >= 14 || '-' in idiom)
  {
  }

  /** An ignored idiom is never a target, whatever its shape. */
  lemma IgnoredNeverTarget(ignored: set<string>, idiom: string)
    requires idiom in ignored
    ensures !IsTarget(ignored, idiom)
  {
  }

  /** Three words make a target. */
  lemma ThreeWordExample(ignored: set<string>, idiom: string)
    requires idiom == "kick the bucket" && idiom !in ignored
    ensures IsTarget(ignored, idiom)
  {
    TargetCharacterization(ignored, idiom);
    PyStr.TwoOccurrencesAt(idiom, ' ', 4, 8);
  }

  /** A hyphen makes a target, however short the idiom. */
  lemma HyphenExample(ignored: set<string>, idiom: string)
    requires idiom == "well-known" && idiom !in ignored
    ensures IsTarget(ignored, idiom)
  {
    TargetCharacterization(ignored, idiom);
    assert idiom[4] == '-';
  }

  /** A short two-word idiom without a hyphen is never a target. */
  lemma ShortExample(ignored: set<string>, idiom: string)
    requires idiom == "be off"
    ensures !IsTarget(ignored, idiom)
  {
    TargetCharacterization(ignored, idiom);
    assert PyStr.Occurrences("be off", ' ') == 1 && '-' !in "be off";
  }


  /** Every idiom of the dictionary, corrected (the `corrected_idioms` generator). */
  function CorrectedIdioms(corrections: map<string, string>, rows: seq<Row>): (r: Result<seq<string>>)
    ensures r.Err? <==> Idioms(rows).Err?
    ensures r.Err? ==> r.error == Idioms(rows).error
    ensures r.Ok? ==>
              |r.value| == |rows| - 1
              && (forall i :: 0 <= i < |r.value| ==> r.value[i] == CorrectIdiom(corrections, rows[i + 1][0]))
              && forall x :: x in r.value <==> exists i :: 1 <= i < |rows| && x == CorrectIdiom(corrections, rows[i][0])
  {
    match Idioms(rows)
    case Ok(raw) =>
      var corrected := seq(|raw|, i requires 0 <= i < |raw| => CorrectIdiom(corrections, raw[i]));
      forall x | x in corrected
        ensures exists i :: 1 <= i < |rows| && x == CorrectIdiom(corrections, rows[i][0])
      {
        var k :| 0 <= k < |corrected| && corrected[k] == x;
        assert x == CorrectIdiom(corrections, rows[k + 1][0]);
      }
      forall x, i | 1 <= i < |rows| && x == CorrectIdiom(corrections, rows[i][0])
        ensures x in corrected
      {
        assert corrected[i - 1] == x;
      }
      Ok(corrected)
    case Err(e) => Err(e)
  }

  /** `load(target_only)`: the corrected idioms, filtered by `is_target` when
      `targetOnly` holds. Reading fails exactly as `idioms()` does. */
  function Load(rows: seq<Row>, corrections: map<string, string>, ignored: set<string>,
                targetOnly: bool): (r: Result<seq<string>>)
    ensures r.Err? <==> Idioms(rows).Err?
    ensures r.Err? ==> r.error == Idioms(rows).error
    ensures r.Ok? && !targetOnly ==>
              |r.value| == |rows| - 1
              && forall i :: 0 <= i < |r.value| ==> r.value[i] == CorrectIdiom(corrections, rows[i + 1][0])
    ensures r.Ok? && targetOnly ==>
              forall x :: x in r.value <==>
                IsTarget(ignored, x) && exists i :: 1 <= i < |rows| && x == CorrectIdiom(corrections, rows[i][0])
  {
    match CorrectedIdioms(corrections, rows)
    case Ok(corrected) =>
      if targetOnly then
        var kept := Seqs.Filter(x => IsTarget(ignored, x), corrected);
        Seqs.FilterCounts(x => IsTarget(ignored, x), corrected);
        Ok(kept)
      else Ok(corrected)
    case Err(e) => Err(e)
  }

  /** `load(True)` keeps, in order and with their multiplicity, exactly the
      idioms of `load(False)` that are targets: correction happens before the
      filter, so the filter judges the corrected idiom. */
  lemma {:induction false} TargetsFilterAll(rows: seq<Row>, corrections: map<string, string>,
                                            ignored: set<string>)
    requires Idioms(rows).Ok?
    ensures Load(rows, corrections, ignored, true).Ok? && Load(rows, corrections, ignored, false).Ok?
    ensures Seqs.Subsequence(Load(rows, corrections, ignored, true).value,
                             Load(rows, corrections, ignored, false).value)
    ensures forall x :: multiset(Load(rows, corrections, ignored, true).value)[x] ==
              if IsTarget(ignored, x) then multiset(Load(rows, corrections, ignored, false).value)[x] else 0
  {
    var all := Load(rows, corrections, ignored, false).value;
    assert Load(rows, corrections, ignored, true).value == Seqs.Filter(x => IsTarget(ignored, x), all);
    Seqs.FilterIsSubsequence(x => IsTarget(ignored, x), all);
    Seqs.FilterCounts(x => IsTarget(ignored, x), all);
  }

  /** When every corrected idiom is a target, `load(True)` and `load(False)` agree. */
  lemma AllTargetsKept(rows: seq<Row>, corrections: map<string, string>, ignored: set<string>)
    requires Idioms(rows).Ok?
    requires forall i :: 1 <= i < |rows| ==> IsTarget(ignored, CorrectIdiom(corrections, rows[i][0]))
    ensures Load(rows, corrections, ignored, true) == Load(rows, corrections, ignored, false)
  {
    var all := Load(rows, corrections, ignored, false).value;
    assert forall x :: x in all ==> IsTarget(ignored, x);
    Seqs.FilterKeepsAll(x => IsTarget(ignored, x), all);
  }

  /** A long idiom is a target whatever its words. */
  lemma LongIsTarget(ignored: set<string>, idiom: string)
    requires idiom !in ignored && |idiom| >= MinLength
    ensures IsTarget(ignored, idiom)
  {
  }

  /** The rows of a dictionary whose three idioms are targets hold only targets. */
  lemma EveryRowTarget(kick: string, spill: string, known: string, rows: seq<Row>)
    requires IsTarget({}, kick) && IsTarget({}, spill) && IsTarget({}, known)
    requires rows == [["IDIOM"], [kick], [spill], [known]]
    ensures forall i :: 1 <= i < |rows| ==> IsTarget({}, CorrectIdiom(map[], rows[i][0]))
  {
  }

  /** With no corrections, `load(False)` on a header and three one-cell rows
      yields the three cells in file order. */
  lemma ThreeRowColumn(kick: string, spill: string, known: string, rows: seq<Row>)
    requires rows == [["IDIOM"], [kick], [spill], [known]]
    ensures Load(rows, map[], {}, false) == Ok([kick, spill, known])
  {
    var all := Load(rows, map[], {}, false);
    assert all.Ok?;
    assert all.value == [kick, spill, known];
  }

  /** A three-row dictionary with no corrections and nothing ignored: every
      idiom is a target (three words, fourteen or more characters, a hyphen),
      so both modes yield all three, in file order, and never the header. */
  lemma ExampleDictionary(kick: string, spill: string, known: string, rows: seq<Row>)
    requires kick == "kick the bucket" && known == "well-known"
    requires spill == "spill the beans and then some extra words here"
    requires rows == [["IDIOM"], [kick], [spill], [known]]
    ensures Load(rows, map[], {}, false) == Ok([kick, spill, known])
    ensures Load(rows, map[], {}, true) == Ok([kick, spill, known])
  {
    ThreeRowColumn(kick, spill, known, rows);
    ThreeWordExample({}, kick);
    HyphenExample({}, known);
    LongIsTarget({}, spill);
    EveryRowTarget(kick, spill, known, rows);
    AllTargetsKept(rows, map[], {});
  }
}
