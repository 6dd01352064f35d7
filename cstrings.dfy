/**
 * The one C library string routine the search relies on: `strstr`, as specified
 * in section 7.24.5.7 of ISO/IEC 9899:2011 (C11). It locates the first occurrence
 * of the needle in the haystack and returns NULL when there is none; an empty
 * needle occurs at the start of every haystack.
 */
module CStrings {
  import opened Wrappers

  /** `needle` occurs in `hay` starting at index `i`. */
  ghost predicate OccursAt(hay: string, needle: string, i: int)
  {
    0 <= i && i + |needle| <= |hay| && hay[i..i + |needle|] == needle
  }

  /** `needle` is a substring of `hay`. */
  ghost predicate Contains(hay: string, needle: string)
  {
    exists i :: OccursAt(hay, needle, i)
  }

  /** Scan for the first occurrence of `needle` at or after index `from`. */
  function FindFrom(hay: string, needle: string, from: nat): (r: Option<nat>)
    requires from <= |hay| + 1
    ensures r.Some? ==> from <= r.value && OccursAt(hay, needle, r.value)
    ensures r.Some? ==> forall j :: from <= j < r.value ==> !OccursAt(hay, needle, j)
    ensures r.None? ==> forall j :: from <= j ==> !OccursAt(hay, needle, j)
    decreases |hay| + 1 - from
  {
    if from + |needle| > |hay| then
      None
    else if hay[from..from + |needle|] == needle then
      Some(from)
    else
      FindFrom(hay, needle, from + 1)
  }

  /**
   * `strstr(hay, needle)`: the index of the first occurrence of `needle` in `hay`,
   * or None where C returns NULL.
   */
  function StrStr(hay: string, needle: string): (r: Option<nat>)
    ensures r.Some? ==> OccursAt(hay, needle, r.value)
    ensures r.Some? ==> forall j :: 0 <= j < r.value ==> !OccursAt(hay, needle, j)
    ensures r.None? <==> !Contains(hay, needle)
  {
    FindFrom(hay, needle, 0)
  }

  /** An empty search term is found, at index 0, in every name (the empty name included). */
  lemma EmptyNeedleFoundAtStart(hay: string)
    ensures StrStr(hay, "") == Some(0)
  {
  }
}
