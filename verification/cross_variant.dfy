/** How the two `IdiomsLoader` variants relate: they share the shape tests and
    their thresholds, and differ only in what they exclude and in the
    correction step of `merge_idioms`. */
module CrossVariant {
  import MergeIdioms
  import Mip
  import Seqs
  import opened TsvRows

  /** Outside both exclusions the two `is_target` predicates agree; in general,
      each one, with the other's exclusion added, is the other. */
  lemma TargetsAgree(ignored: set<string>, idiom: string)
    ensures (MergeIdioms.IsTarget(ignored, idiom) && Mip.IsNotException(idiom))
            == (Mip.IsTarget(idiom) && idiom !in ignored)
    ensures idiom !in ignored && Mip.IsNotException(idiom) ==>
              MergeIdioms.IsTarget(ignored, idiom) == Mip.IsTarget(idiom)
  {
  }

  /** With an empty correction table, `load(False)` of `merge_idioms` yields
      what `load(False)` of `mip` yields on every dictionary; `load(True)` does
      too on a dictionary none of whose idioms either variant excludes. */
  lemma LoadsAgree(rows: seq<Row>, ignored: set<string>, targetOnly: bool)
    requires targetOnly ==>
               forall i :: 1 <= i < |rows| && rows[i] != [] ==>
                 rows[i][0] !in ignored && Mip.IsNotException(rows[i][0])
    ensures MergeIdioms.Load(rows, map[], ignored, targetOnly) == Mip.Load(rows, targetOnly)
  {
    if Idioms(rows).Ok? {
      var idioms := Idioms(rows).value;
      var corrected := MergeIdioms.CorrectedIdioms(map[], rows).value;
      assert corrected == idioms;
      if targetOnly {
        forall x | x in idioms
          ensures MergeIdioms.IsTarget(ignored, x) == Mip.IsTarget(x)
        {
          var k :| 0 <= k < |idioms| && idioms[k] == x;
          assert x == rows[k + 1][0];
        }
        Seqs.FilterCongruent(x => MergeIdioms.IsTarget(ignored, x), Mip.IsTarget, idioms);
      }
    }
  }
}
