/**
 * The citation key that Better BibTeX leaves in an item's `extra` field
 * (main.py:47-53): the script searches `extra` for the pattern
 * `Citation Key: (\S*)` and takes the captured group.
 */
module Citekey {
  import opened Wrappers

  /** The literal part of the pattern, before the captured group. */
  const Marker: string := "Citation Key: "

  /** The characters that `\s` matches in a Python str pattern (those for which `str.isspace` holds). */
  predicate IsSpace(c: char)
  {
    || ('\U{9}' <= c <= '\U{D}')
    || ('\U{1C}' <= c <= '\U{20}')
    || c == '\U{85}' || c == '\U{A0}' || c == '\U{1680}'
    || ('\U{2000}' <= c <= '\U{200A}')
    || c == '\U{2028}' || c == '\U{2029}' || c == '\U{202F}' || c == '\U{205F}' || c == '\U{3000}'
  }

  /** The marker occurs in `s` starting at position `p`. */
  predicate MarkerAt(s: string, p: int)
  {
    0 <= p && p + |Marker| <= |s| && s[p..p + |Marker|] == Marker
  }

  /** `p` is the leftmost occurrence of the marker in `s`. */
  predicate FirstMarkerAt(s: string, p: int)
  {
    MarkerAt(s, p) && forall q :: 0 <= q < p ==> !MarkerAt(s, q)
  }

  /** `t` is a maximal run of non-space characters of `s` beginning at `i`. */
  predicate IsTokenAt(s: string, i: nat, t: string)
  {
    && i + |t| <= |s|
    && s[i..i + |t|] == t
    && (forall k :: 0 <= k < |t| ==> !IsSpace(t[k]))
    && (i + |t| == |s| || IsSpace(s[i + |t|]))
  }

  /** The leftmost occurrence of the marker at or after `from`, if there is one. */
  function FindMarker(s: string, from: nat): (r: Option<nat>)
    decreases |s| - from
    ensures r.Some? ==> from <= r.value && MarkerAt(s, r.value)
    ensures r.Some? ==> forall q :: from <= q < r.value ==> !MarkerAt(s, q)
    ensures r.None? ==> forall q :: from <= q ==> !MarkerAt(s, q)
  {
    if from + |Marker| > |s| then None
    else if MarkerAt(s, from) then Some(from)
    else FindMarker(s, from + 1)
  }

  /** What the greedy group `(\S*)` captures at position `i`: possibly nothing. */
  function TokenFrom(s: string, i: nat): (t: string)
    requires i <= |s|
    decreases |s| - i
    ensures IsTokenAt(s, i, t)
  {
    if i == |s| || IsSpace(s[i]) then ""
    else
      var rest := TokenFrom(s, i + 1);
      assert s[i..i + 1 + |rest|] == [s[i]] + s[i + 1..i + 1 + |rest|];
      [s[i]] + rest
  }

  /**
   * The citation key extracted from `extra`: present iff the marker occurs,
   * and then the maximal non-space run right after its first occurrence.
   */
  function CitationKey(extra: string): (r: Option<string>)
    ensures r.Some? <==> exists p :: MarkerAt(extra, p)
    ensures r.Some? ==> exists p :: FirstMarkerAt(extra, p) && IsTokenAt(extra, p + |Marker|, r.value)
  {
    match FindMarker(extra, 0)
    case None => None
    case Some(p) =>
      assert FirstMarkerAt(extra, p);
      Some(TokenFrom(extra, p + |Marker|))
  }

  /** There is only one maximal non-space run at a position. */
  lemma TokenUnique(s: string, i: nat, t1: string, t2: string)
    requires IsTokenAt(s, i, t1) && IsTokenAt(s, i, t2)
    ensures t1 == t2
  {
    if |t1| < |t2| {
      NoSpaceInToken(s, i, t2, |t1|);
      assert false;
    } else if |t2| < |t1| {
      NoSpaceInToken(s, i, t1, |t2|);
      assert false;
    } else {
      assert t1 == s[i..i + |t1|] == t2;
    }
  }

  lemma NoSpaceInToken(s: string, i: nat, t: string, k: nat)
    requires IsTokenAt(s, i, t) && k < |t|
    ensures !IsSpace(s[i + k])
  {
    assert s[i + k] == t[k];
  }

  /**
   * The converse of `CitationKey`'s contract: any maximal run after the first
   * marker is the key that `CitationKey` returns.
   */
  lemma CitationKeyIs(extra: string, p: nat, t: string)
    requires FirstMarkerAt(extra, p)
    requires IsTokenAt(extra, p + |Marker|, t)
    ensures CitationKey(extra) == Some(t)
  {
    var found := FindMarker(extra, 0);
    assert found == Some(p);
    TokenUnique(extra, p + |Marker|, t, TokenFrom(extra, p + |Marker|));
  }

  /** The key ends at the first whitespace after the marker. */
  lemma CitationKeyExample()
    ensures CitationKey("Citation Key: smith2020 Other: x") == Some("smith2020")
  {
    var s := "Citation Key: smith2020 Other: x";
    assert FirstMarkerAt(s, 0);
    assert IsTokenAt(s, |Marker|, "smith2020");
    CitationKeyIs(s, 0, "smith2020");
  }

  /** A marker followed directly by whitespace yields an empty key, not an absent one. */
  lemma CitationKeyMayBeEmpty()
    ensures CitationKey("Citation Key: \nx") == Some("")
  {
    var s := "Citation Key: \nx";
    assert FirstMarkerAt(s, 0);
    assert IsTokenAt(s, |Marker|, "");
    CitationKeyIs(s, 0, "");
  }
}
