# Idiom filtering policy of the idiom loaders

This project models, in Dafny, how the two `IdiomsLoader` classes of the
identify-idioms repository pick their working vocabulary out of a
tab-separated idiom dictionary:

- `idioms()` skips the header row and yields cell 0 of every later row
  (module `TsvRows`; the code is the same in both variants);
- the `merge_idioms` variant (module `MergeIdioms`) first rewrites each idiom
  through the correction table `CORRECTION_CASES` and then, for
  `load(target_only=True)`, keeps the idioms that are not in `IGNORED_CASES`
  and have at least three words, at least fourteen characters, or a hyphen;
- the `mip` variant (module `Mip`) has no correction and excludes against
  `EXCEPTIONS = ("if needs be")`, which is a string, so its exclusion is a
  substring test;
- module `CrossVariant` proves where the two variants agree.

The Python string operations the predicates use are modelled with Python's
semantics in module `PyStr`: `split(" ")` keeps empty pieces (so the word
count is the number of spaces plus one), `find` returns the lowest index or
-1, and `a in b` on strings is the substring test. The order-preserving
filter that a generator expression `(x for x in xs if p(x))` performs is
`Seqs.Filter`.

The dictionary file is given as its already-parsed rows (`seq<seq<string>>`).
A file with no row at all fails with `MissingHeader` (the `next` that skips the
header fails); a data row without cells fails with `EmptyRow(row)`, where `row`
counts the header as row 0 (the `row[0]` access fails). `IGNORED_CASES` and
`CORRECTION_CASES` live in a `cases` module that is not part of this model; they
are parameters (`ignored: set<string>`, `corrections: map<string, string>`).

The code of the `mip` variant is modelled as written: its exclusion rejects
every substring of "if needs be", not just that phrase. The source itself
points to a collection of phrases: the constant has the plural name
`EXCEPTIONS` (mip/loaders.py:19), and the comment beside its one entry
(mip/loaders.py:20) says that this phrase duplicates "if need be", so it is
one phrase to drop, not a string whose every part is unwanted. The model
follows the code (`Mip.IsTarget`, `Mip.Load`). The one-phrase exclusion is
modelled beside it (`Mip.IsTargetIntended`, `Mip.LoadIntended`) and the
difference is stated exactly (see Findings).

In both variants `load`'s parameter `target_only` defaults to `True`
(merge_idioms/loaders.py:29, mip/loaders.py:28), so a bare `load()` is
`MergeIdioms.Load(rows, corrections, ignored, true)` and `Mip.Load(rows, true)`.

## Model

| member | source | states |
|---|---|---|
| `PyStr.Split` | merge_idioms/loaders.py:69-71 | `split` on one separator character gives one piece more than there are separators, and no piece contains the separator |
| `PyStr.JoinSplit` | mip/loaders.py:56-58 | joining the pieces of `split` with the separator gives back the idiom: no character is lost or added |
| `PyStr.Find` | merge_idioms/loaders.py:73-75 | `find("-")` is -1 exactly when there is no hyphen; otherwise it is the index of the first hyphen |
| `PyStr.Contains` | mip/loaders.py:64-66 | `needle in hay` on strings holds exactly when `needle` occurs at some index of `hay` |
| `Seqs.Filter` | merge_idioms/loaders.py:41-45 | the generator expression `(x for x in xs if p(x))`: it never yields more elements than it reads (what it keeps is stated by `Seqs.FilterIsSubsequence` and `Seqs.FilterCounts`) |
| `Seqs.FilterIsSubsequence` | merge_idioms/loaders.py:41-45 | the filter generator only deletes elements: the survivors keep their order |
| `Seqs.FilterCounts` | mip/loaders.py:34-39 | the filter keeps every occurrence of an element that passes and none of one that fails (nothing duplicated, nothing invented) |
| `TsvRows.DataColumn` | merge_idioms/loaders.py:55-56 | the loop over the data rows yields cell 0 of each row in order, or fails at the first row without cells |
| `TsvRows.Idioms` | merge_idioms/loaders.py:50-56 | no rows: `MissingHeader`; otherwise column 0 of every row after the header, in file order, one per data row, or `EmptyRow` naming the first empty data row; the header is never yielded |
| `TsvRows.IdiomsMembers` | merge_idioms/loaders.py:53-56 | an idiom is read exactly when it is cell 0 of some row after the header |
| `TsvRows.ReadIdioms` | mip/loaders.py:44-50 | the header-skipping loop computes exactly `Idioms`: same idioms, same failure |
| `MergeIdioms.CorrectIdiom` | merge_idioms/loaders.py:58-63 | a key of the correction table is replaced by its mapped value; any other idiom is returned unchanged |
| `MergeIdioms.CorrectIdempotent` | merge_idioms/loaders.py:60-63 | when no corrected form is itself a key, correcting a corrected idiom changes nothing |
| `MergeIdioms.IsAboveMinWc` | merge_idioms/loaders.py:69-71 | the word-count test (`len(idiom.split(" ")) >= 3`) holds exactly when the idiom has two or more spaces |
| `MergeIdioms.WordCountIsTwoSpaces` | merge_idioms/loaders.py:69-71 | the word-count test holds exactly when two distinct positions of the idiom hold a space |
| `MergeIdioms.IsHyphenated` | merge_idioms/loaders.py:73-75 | `find("-") != -1` holds exactly when the idiom contains a hyphen |
| `MergeIdioms.IsAboveMinLen` | merge_idioms/loaders.py:65-67 | fourteen or more characters (`len(idiom) >= 14`); its contract is the `IsAboveMinLen` clause of `MergeIdioms.TargetCharacterization` |
| `MergeIdioms.IsNotIgnored` | merge_idioms/loaders.py:77-79 | the idiom is not in `IGNORED_CASES`; its consequence for `is_target` is `MergeIdioms.IgnoredNeverTarget` |
| `MergeIdioms.IsTarget` | merge_idioms/loaders.py:81-87 | not ignored, and the word-count, length or hyphen test; its contract in plain terms is `MergeIdioms.TargetCharacterization` |
| `MergeIdioms.TargetCharacterization` | merge_idioms/loaders.py:81-87 | `is_target` holds exactly when the idiom is not ignored and has two or more spaces, fourteen or more characters, or a hyphen |
| `MergeIdioms.IgnoredNeverTarget` | merge_idioms/loaders.py:77-79 | an ignored idiom is never a target, whatever its length, words or hyphens |
| `MergeIdioms.ThreeWordExample` | merge_idioms/loaders.py:69-71 | "kick the bucket" is a target unless ignored (three words) |
| `MergeIdioms.HyphenExample` | merge_idioms/loaders.py:73-75 | "well-known" is a target unless ignored (hyphen, though short) |
| `MergeIdioms.ShortExample` | merge_idioms/loaders.py:84-87 | "be off" is never a target (two words, short, no hyphen) |
| `MergeIdioms.LongIsTarget` | merge_idioms/loaders.py:65-67 | an idiom of fourteen or more characters is a target unless ignored |
| `MergeIdioms.CorrectedIdioms` | merge_idioms/loaders.py:35-38 | the corrected generator has one entry per data row, the correction of that row's idiom, in file order, and fails as `idioms()` fails |
| `MergeIdioms.Load` | merge_idioms/loaders.py:29-48 | fails exactly when reading fails; `load(False)` is the corrected idiom of every data row in order; `load(True)` holds exactly the corrected idioms that are targets |
| `MergeIdioms.TargetsFilterAll` | merge_idioms/loaders.py:40-45 | `load(True)` is an order-preserving subsequence of `load(False)` holding every target with its multiplicity and nothing else; the filter judges the corrected idiom |
| `MergeIdioms.AllTargetsKept` | merge_idioms/loaders.py:41-48 | when every corrected idiom is a target, `load(True)` equals `load(False)` |
| `MergeIdioms.ExampleDictionary` | merge_idioms/loaders.py:50-56 | a header plus "kick the bucket", a 46-character sentence and "well-known", with no corrections and nothing ignored, loads as those three idioms in file order in both modes |
| `Mip.IsAboveMinLen` | mip/loaders.py:52-54 | fourteen or more characters (`len(idiom) >= 14`); its contract is the `IsAboveMinLen` clause of `Mip.TargetCharacterization` |
| `Mip.IsAboveMinWc` | mip/loaders.py:56-58 | the word-count test holds exactly when the idiom has two or more spaces |
| `Mip.IsHyphenated` | mip/loaders.py:60-62 | `find("-") != -1` holds exactly when the idiom contains a hyphen |
| `Mip.IsNotException` | mip/loaders.py:64-66 | as written, `idiom not in EXCEPTIONS` holds exactly when the idiom occurs at no index of the string "if needs be" |
| `Mip.IsTarget` | mip/loaders.py:68-74 | not an exception, and the word-count, length or hyphen test; its contract in plain terms is `Mip.TargetCharacterization` |
| `Mip.TargetCharacterization` | mip/loaders.py:52-74 | `is_above_min_len` holds exactly at fourteen or more characters, and `is_target` holds exactly when the idiom is not a substring of "if needs be" and has two or more spaces, fourteen or more characters, or a hyphen |
| `Mip.SubstringExceptions` | mip/loaders.py:19-21 | "if needs be", "", "needs" and "be" are all exceptions under the substring test |
| `Mip.IfNeedBeKept` | mip/loaders.py:20 | "if need be" is not an exception |
| `Mip.IfNeedsBeNeverTarget` | mip/loaders.py:71-74 | "if needs be" passes the word-count test but is never a target: the exclusion comes first |
| `Mip.Load` | mip/loaders.py:28-42 | fails exactly when reading fails; `load(False)` is column 0 of every data row unchanged, in order; `load(True)` holds exactly the idioms that are targets |
| `Mip.TargetsFilterAll` | mip/loaders.py:34-39 | `load(True)` is an order-preserving subsequence of `load(False)` holding every target with its multiplicity and nothing else |
| `Mip.IsTargetIntended` | mip/loaders.py:64-74 | `is_target` with `EXCEPTIONS` read as the one-phrase collection `("if needs be",)`; its contract in plain terms is `Mip.IntendedExcludesOnlyPhrase` |
| `Mip.IntendedExcludesOnlyPhrase` | mip/loaders.py:17-21 | with `EXCEPTIONS` read as a one-phrase collection, only "if needs be" itself is excluded |
| `Mip.IntendedDiffersExactlyOnMisjudged` | mip/loaders.py:65-66 | the as-written and the intended `is_target` differ exactly on proper substrings of "if needs be" with two or more spaces, and there the as-written one rejects |
| `Mip.MisjudgedExample` | mip/loaders.py:66 | "f needs b" is a target under the intended exclusion and rejected as written |
| `Mip.LoadIntended` | mip/loaders.py:34-42 | the loader with the one-phrase exclusion: fails exactly when reading fails, with the same error; `load(False)` as before; `load(True)` holds exactly the idioms that are intended targets |
| `Mip.TargetsFilterAllIntended` | mip/loaders.py:34-39 | with the one-phrase exclusion, `load(True)` is an order-preserving subsequence of `load(False)` holding every intended target with its multiplicity and nothing else |
| `Mip.LoadsAgreeWithoutMisjudged` | mip/loaders.py:36-39 | on a dictionary with no misjudged idiom the as-written and the intended loader yield the same idioms |
| `CrossVariant.TargetsAgree` | merge_idioms/loaders.py:82-87 | on an idiom in neither exclusion table the two `is_target` predicates agree |
| `CrossVariant.LoadsAgree` | mip/loaders.py:28-42 | with an empty correction table, `merge_idioms`'s `load(False)` equals `mip`'s on every dictionary; `load(True)` is equal too on a dictionary none of whose idioms either variant excludes |

## Left out

- File opening, the file handle's lifetime and `csv.reader`'s tab parsing and quoting: the model starts from the parsed rows.
- Generator laziness: Python yields the idioms before a failing row and then raises; the model returns only the failure for the whole load.
- The exact Python exception: skipping the header of an empty file raises `StopIteration` inside a generator, which Python 3.7 and later turn into `RuntimeError`; the model names it `MissingHeader`. An empty data row raises `IndexError`; the model names it `EmptyRow`.
- `IdiomMatcherLoader` and `PklLoader`: `pickle` deserialisation and the spaCy `Matcher` are an opaque format and an external engine.
- The abstract `Loader.load` raising `NotImplementedError`, the configured paths, the unused `DELIM` constant and the `MergeIdiomPipeline` import: plumbing without behaviour to state.
- The contents of `IGNORED_CASES` and `CORRECTION_CASES`, which live in a `cases` module that is not part of this model: they are parameters.
- Python's `len` counts code points and a Python string may hold lone surrogates; Dafny's `char` (Unicode scalar values) has no surrogates, so lengths agree on every string without lone surrogates only.
- `PyStr.Split` models `split` with a one-character separator only, which is the only separator the loaders use (`" "`).
- Calling `load` twice gives the same result: the model's functions are deterministic by construction, so no lemma states it.

## Findings

| source | as written | input that shows it | evidently intended | confidence | as-written member | corrected member |
|---|---|---|---|---|---|---|
| mip/loaders.py:19-21 | `EXCEPTIONS = ("if needs be")` is a string, so `idiom not in EXCEPTIONS` is a substring test that rejects every part of "if needs be" | "f needs b" (three pieces by `split(" ")`) is rejected; "", "be" and "needs" are exceptions too | a one-phrase tuple `("if needs be",)` excluding that phrase only | high; not executed | `Mip.MisjudgedExample` | `Mip.IntendedExcludesOnlyPhrase` |

The loader as written (`Mip.Load`) stays the model of the code; the corrected
loader is `Mip.LoadIntended`, and `Mip.LoadsAgreeWithoutMisjudged` shows that
the two differ only on dictionaries that contain a misjudged idiom.
