/** Case-insensitive substring matching as used by the catalog search. */
module Text {

  /** ASCII lower-casing of one character. */
  function Lower(c: char): char {
    if 'A' <= c <= 'Z' then (c as int + 32) as char else c
  }

  /** ASCII lower-casing of a string, character by character: the length is kept,
      only upper-case letters change, and none is left. */
  function LowerStr(s: string): (r: string)
    ensures |r| == |s|
    ensures forall i :: 0 <= i < |s| ==> !('A' <= r[i] <= 'Z')
    ensures forall i :: 0 <= i < |s| ==> r[i] == s[i] || 'A' <= s[i] <= 'Z'
  {
    seq(|s|, i requires 0 <= i < |s| => Lower(s[i]))
  }

  /** Lower-casing a lower-cased string changes nothing. */
  lemma LowerStrIdempotent(s: string)
    ensures LowerStr(LowerStr(s)) == LowerStr(s)
  {
  }

  /** Two characters are the same letter up to ASCII case. */
  predicate SameUpToCase(a: char, b: char) {
    a == b ||
    ('A' <= a <= 'Z' && b as int == a as int + 32) ||
    ('A' <= b <= 'Z' && a as int == b as int + 32)
  }

  /** Two characters lower-case alike exactly when they agree up to ASCII case. */
  lemma LowerSame(a: char, b: char)
    ensures Lower(a) == Lower(b) <==> SameUpToCase(a, b)
  {
  }

  /** Two strings lower-case alike exactly when they have the same length and agree
      character by character up to ASCII case, so the search ignores case and
      nothing else. */
  lemma {:induction false} LowerStrSameIff(s: string, t: string)
    ensures LowerStr(s) == LowerStr(t) <==>
      |s| == |t| && forall i :: 0 <= i < |s| ==> SameUpToCase(s[i], t[i])
  {
    if LowerStr(s) == LowerStr(t) {
      forall i | 0 <= i < |s|
        ensures SameUpToCase(s[i], t[i])
      {
        assert LowerStr(s)[i] == LowerStr(t)[i];
        LowerSame(s[i], t[i]);
      }
    }
    if |s| == |t| && forall i :: 0 <= i < |s| ==> SameUpToCase(s[i], t[i]) {
      forall i | 0 <= i < |s|
        ensures LowerStr(s)[i] == LowerStr(t)[i]
      {
        LowerSame(s[i], t[i]);
      }
    }
  }

  /** `needle` occurs in `hay` starting at index `i`. */
  ghost predicate OccursAt(needle: string, hay: string, i: int) {
    0 <= i && i + |needle| <= |hay| && hay[i..i + |needle|] == needle
  }

  /** Substring test, scanning `hay` from the front (Python's `needle in hay`). */
  function Contains(needle: string, hay: string): (b: bool)
    ensures needle == [] ==> b
    ensures b ==> |needle| <= |hay|
    decreases |hay|
  {
    if |needle| > |hay| then false
    else if hay[..|needle|] == needle then true
    else Contains(needle, hay[1..])
  }

  /** Occurrences in the tail are occurrences in the whole text, one index later. */
  lemma OccursInTail(needle: string, hay: string, i: int)
    requires hay != [] && i >= 1
    ensures OccursAt(needle, hay, i) <==> OccursAt(needle, hay[1..], i - 1)
  {
    if i + |needle| <= |hay| {
      var a, b := hay[i..i + |needle|], hay[1..][i - 1..i - 1 + |needle|];
      assert |a| == |b|;
      forall k | 0 <= k < |a|
        ensures a[k] == b[k]
      {
        assert a[k] == hay[i + k];
        assert b[k] == hay[1..][i - 1 + k];
      }
      assert a == b;
    }
  }

  /** The scan finds `needle` exactly when it occurs at some index of `hay`. */
  lemma {:induction false} ContainsIff(needle: string, hay: string)
    ensures Contains(needle, hay) <==> exists i :: OccursAt(needle, hay, i)
    decreases |hay|
  {
    if |needle| > |hay| {
      assert forall i :: !OccursAt(needle, hay, i);
    } else if hay[..|needle|] == needle {
      assert OccursAt(needle, hay, 0);
    } else {
      assert hay != [];
      ContainsIff(needle, hay[1..]);
      forall i | i >= 1
        ensures OccursAt(needle, hay, i) <==> OccursAt(needle, hay[1..], i - 1)
      {
        OccursInTail(needle, hay, i);
      }
      assert !OccursAt(needle, hay, 0);
      if Contains(needle, hay[1..]) {
        var i :| OccursAt(needle, hay[1..], i);
        assert OccursAt(needle, hay, i + 1);
      }
    }
  }
}
