/** The three Python `str` operations the idiom loaders rely on, with Python's
    semantics: `s.split(sep)` with a one-character separator, `s.find(c)` for a
    one-character needle, and the substring test `needle in hay`. */
module PyStr {

  /** Number of occurrences of `c` in `s`. */
  function Occurrences(s: string, c: char): (n: nat)
    ensures n <= |s|
    ensures n == 0 <==> c !in s
  {
    if s == [] then 0
    else (if s[0] == c then 1 else 0) + Occurrences(s[1..], c)
  }

  /** Two occurrences at distinct indices make at least two. */
  lemma {:induction false} TwoOccurrencesAt(s: string, c: char, i: int, j: int)
    requires 0 <= i < j < |s| && s[i] == c && s[j] == c
    ensures Occurrences(s, c) >= 2
  {
    if i == 0 {
      assert s[1..][j - 1] == c;
    } else {
      TwoOccurrencesAt(s[1..], c, i - 1, j - 1);
    }
  }

  /** `c` occurs at least twice exactly when two distinct indices hold it. */
  lemma {:induction false} TwoOccurrences(s: string, c: char)
    ensures Occurrences(s, c) >= 2 <==>
              exists i, j :: 0 <= i < j < |s| && s[i] == c && s[j] == c
  {
    if exists i, j :: 0 <= i < j < |s| && s[i] == c && s[j] == c {
      var i, j :| 0 <= i < j < |s| && s[i] == c && s[j] == c;
      TwoOccurrencesAt(s, c, i, j);
    }
    if Occurrences(s, c) >= 2 {
      var t := s[1..];
      if s[0] == c {
        var j :| 0 <= j < |t| && t[j] == c;
        assert s[0] == c && s[j + 1] == c;
      } else {
        TwoOccurrences(t, c);
        var i, j :| 0 <= i < j < |t| && t[i] == c && t[j] == c;
        assert s[i + 1] == c && s[j + 1] == c;
      }
    }
  }

  /** Python's `s.split(sep)` for a one-character `sep`: empty pieces are kept,
      so "" splits into [""] and "a  b" into ["a", "", "b"]. */
  function Split(s: string, sep: char): (pieces: seq<string>)
    ensures |pieces| == Occurrences(s, sep) + 1
    ensures forall i :: 0 <= i < |pieces| ==> sep !in pieces[i]
  {
    if s == [] then [""]
    else
      var rest := Split(s[1..], sep);
      if s[0] == sep then [""] + rest
      else [[s[0]] + rest[0]] + rest[1..]
  }

  /** Python's `sep.join(pieces)`, the inverse of `Split`. */
  function Join(pieces: seq<string>, sep: char): string
    requires |pieces| >= 1
  {
    if |pieces| == 1 then pieces[0]
    else pieces[0] + [sep] + Join(pieces[1..], sep)
  }

  /** Splitting and joining again on the same separator gives back the string. */
  lemma {:induction false} JoinSplit(s: string, sep: char)
    ensures Join(Split(s, sep), sep) == s
  {
    if s != [] {
      var rest := Split(s[1..], sep);
      JoinSplit(s[1..], sep);
      if s[0] == sep {
        assert Split(s, sep)[1..] == rest;
      } else {
        var pieces := Split(s, sep);
        if |rest| == 1 {
          assert pieces == [[s[0]] + rest[0]];
        } else {
          assert pieces[1..] == rest[1..];
          assert Join(rest, sep) == rest[0] + [sep] + Join(rest[1..], sep);
        }
      }
    }
  }

  /** Python's `s.find(c)`: the lowest index holding `c`, or -1 when there is none. */
  function Find(s: string, c: char): (r: int)
    ensures r == -1 <==> c !in s
    ensures r != -1 ==> 0 <= r < |s| && s[r] == c && c !in s[..r]
  {
    if s == [] then -1
    else if s[0] == c then 0
    else
      var k := Find(s[1..], c);
      if k == -1 then -1
      else
        assert s[..k + 1] == [s[0]] + s[1..][..k];
        k + 1
  }

  /** `needle` occurs in `hay` starting at index `i`. */
  predicate OccursAt(hay: string, needle: string, i: int)
  {
    0 <= i && i + |needle| <= |hay| && hay[i..i + |needle|] == needle
  }

  /** Python's substring test `needle in hay` on two strings; the empty string
      is in every string. */
  function Contains(hay: string, needle: string): (b: bool)
    ensures b <==> exists i :: OccursAt(hay, needle, i)
  {
    if needle <= hay then
      assert OccursAt(hay, needle, 0);
      true
    else if hay == [] then
      assert forall i :: !OccursAt(hay, needle, i);
      false
    else
      var b := Contains(hay[1..], needle);
      ContainsShift(hay, needle);
      b
  }

  /** An occurrence in `hay` not at index 0 is an occurrence in `hay[1..]`, one
      index earlier. */
  lemma ContainsShift(hay: string, needle: string)
    requires hay != [] && !(needle <= hay)
    ensures (exists i :: OccursAt(hay, needle, i)) <==> (exists j :: OccursAt(hay[1..], needle, j))
  {
    forall i | OccursAt(hay, needle, i)
      ensures OccursAt(hay[1..], needle, i - 1)
    {
      assert i != 0;
      assert hay[1..][i - 1..i - 1 + |needle|] == hay[i..i + |needle|];
    }
    forall j | OccursAt(hay[1..], needle, j)
      ensures OccursAt(hay, needle, j + 1)
    {
      assert hay[1..][j..j + |needle|] == hay[j + 1..j + 1 + |needle|];
    }
  }

  /** A string that occurs in `hay` is no longer than `hay` and uses only its
      characters. */
  lemma ContainedIsPart(hay: string, needle: string, c: char)
    requires Contains(hay, needle)
    ensures |needle| <= |hay|
    ensures c in needle ==> c in hay
  {
    var i :| OccursAt(hay, needle, i);
    if c in needle {
      var k :| 0 <= k < |needle| && needle[k] == c;
      assert hay[i + k] == needle[k];
    }
  }
}
