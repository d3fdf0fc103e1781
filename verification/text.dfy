/**
 * Text comparisons used by the lookups: `iexact` (equal ignoring case),
 * `icontains` (substring ignoring case) and Python's `str.capitalize`.
 * Case folding is ASCII only, as SQLite's LIKE operator does it.
 */
module Text {

  function Lower(c: char): char {
    if 'A' <= c <= 'Z' then (c as int + 32) as char else c
  }

  function Upper(c: char): char {
    if 'a' <= c <= 'z' then (c as int - 32) as char else c
  }

  function LowerStr(s: string): (r: string)
    ensures |r| == |s|
    ensures forall i :: 0 <= i < |s| ==> r[i] == Lower(s[i])
  {
    if s == [] then [] else [Lower(s[0])] + LowerStr(s[1..])
  }

  /** Django's `iexact`. */
  predicate EqualsIgnoreCase(a: string, b: string) {
    LowerStr(a) == LowerStr(b)
  }

  /** `needle` occurs in `hay`, found by trying every start position from the left. */
  predicate Contains(hay: string, needle: string)
    decreases |hay|
  {
    (|needle| <= |hay| && hay[..|needle|] == needle)
    || (|hay| > 0 && Contains(hay[1..], needle))
  }

  /** Reference definition: `needle` sits at position `i` of `hay`. */
  predicate OccursAt(hay: string, needle: string, i: nat) {
    i + |needle| <= |hay| && hay[i..i + |needle|] == needle
  }

  /** An occurrence in the tail of `hay` is an occurrence one position further on in `hay`. */
  lemma OccursInTail(hay: string, needle: string, i: nat)
    requires |hay| > 0
    ensures OccursAt(hay[1..], needle, i) <==> OccursAt(hay, needle, i + 1)
  {
    if i + 1 + |needle| <= |hay| {
      assert hay[1..][i..i + |needle|] == hay[i + 1..i + 1 + |needle|];
    }
  }

  /** The scan finds `needle` exactly when it occurs at some position. */
  lemma {:induction false} ContainsIffOccurs(hay: string, needle: string)
    ensures Contains(hay, needle) <==> exists i: nat :: OccursAt(hay, needle, i)
    decreases |hay|
  {
    if |needle| <= |hay| && hay[..|needle|] == needle {
      assert OccursAt(hay, needle, 0);
    } else if |hay| > 0 {
      ContainsIffOccurs(hay[1..], needle);
      if Contains(hay[1..], needle) {
        var i: nat :| OccursAt(hay[1..], needle, i);
        OccursInTail(hay, needle, i);
      } else {
        forall i: nat | OccursAt(hay, needle, i)
          ensures false
        {
          if i > 0 {
            OccursInTail(hay, needle, i - 1);
          }
        }
      }
    }
  }

  /** Django's `icontains`. */
  predicate ContainsIgnoreCase(hay: string, needle: string) {
    Contains(LowerStr(hay), LowerStr(needle))
  }

  /** Python's `str.capitalize`: first character upper case, the rest lower case. */
  function Capitalize(s: string): (r: string)
    ensures |r| == |s|
    ensures s != [] ==> r[0] == Upper(s[0]) && r[1..] == LowerStr(s[1..])
  {
    if s == [] then [] else [Upper(s[0])] + LowerStr(s[1..])
  }

  /**
   * `t` is the capitalisation of `s` when it starts with the upper-cased
   * first character of `s` and repeats the rest, which has no upper-case
   * letters.
   */
  lemma CapitalizeLowerTail(s: string, t: string)
    requires |s| == |t| && |s| > 0 && t[0] == Upper(s[0])
    requires forall i :: 1 <= i < |s| ==> !('A' <= s[i] <= 'Z') && t[i] == s[i]
    ensures Capitalize(s) == t
  {
    var c := Capitalize(s);
    assert forall i :: 1 <= i < |s| ==> c[i] == c[1..][i - 1];
  }
}
