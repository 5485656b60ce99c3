/** `find_subsequence`: the first window of the haystack equal to the needle. */
module Search {
  import opened Basics

  /** The needle `n` sits in `h` at index `i`. */
  predicate OccursAt(h: seq<byte>, n: seq<byte>, i: int)
  {
    0 <= i && i + |n| <= |h| && h[i..i + |n|] == n
  }

  /** `haystack.windows(|needle|).position(|w| w == needle)`. A zero-width
      window makes `windows` panic, so the needle must not be empty. */
  function FindSubsequence(h: seq<byte>, n: seq<byte>): (r: Option<nat>)
    requires |n| > 0
    ensures r.Some? ==> OccursAt(h, n, r.value)
    ensures r.Some? ==> forall j :: 0 <= j < r.value ==> !OccursAt(h, n, j)
    ensures r.None? <==> forall j :: !OccursAt(h, n, j)
  {
    FindFrom(h, n, 0)
  }

  /** The first window at or after `start` equal to the needle. */
  function FindFrom(h: seq<byte>, n: seq<byte>, start: nat): (r: Option<nat>)
    requires |n| > 0
    ensures r.Some? ==> start <= r.value && OccursAt(h, n, r.value)
    ensures r.Some? ==> forall j :: start <= j < r.value ==> !OccursAt(h, n, j)
    ensures r.None? ==> forall j :: start <= j ==> !OccursAt(h, n, j)
    decreases |h| - start
  {
    if start + |n| > |h| then None
    else if h[start..start + |n|] == n then Some(start)
    else FindFrom(h, n, start + 1)
  }

  /** An occurrence of a longer needle is an occurrence of each of its
      prefixes, so the prefix is found no later. */
  lemma PrefixFoundFirst(h: seq<byte>, n: seq<byte>, m: seq<byte>)
    requires 0 < |n| <= |m| && n == m[..|n|]
    requires FindSubsequence(h, m).Some?
    ensures FindSubsequence(h, n).Some?
    ensures FindSubsequence(h, n).value <= FindSubsequence(h, m).value
  {
    var j := FindSubsequence(h, m).value;
    assert h[j..j + |n|] == h[j..j + |m|][..|n|];
    assert OccursAt(h, n, j);
  }
}
