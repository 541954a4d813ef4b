/** The substring search used to find the end of a request head. */
module Utils {
  import opened Prelude

  /** `needle` occurs in `haystack` starting at index `i`. */
  predicate ContainsAt(haystack: Bytes, needle: Bytes, i: int) {
    0 <= i && i + |needle| <= |haystack| && haystack[i..i + |needle|] == needle
  }

  /** `needle` occurs somewhere in `haystack`. */
  ghost predicate Occurs(haystack: Bytes, needle: Bytes) {
    exists i :: ContainsAt(haystack, needle, i)
  }

  /** `i` is the first index at which `needle` occurs in `haystack`. */
  predicate IsFirstOccurrence(haystack: Bytes, needle: Bytes, i: int) {
    ContainsAt(haystack, needle, i) && forall j | 0 <= j < i :: !ContainsAt(haystack, needle, j)
  }

  /** The index of the first window of `haystack` equal to `needle`, as
      `haystack.windows(needle.len()).position(|x| x == needle)`. An empty needle makes
      `windows` panic, so it is excluded. */
  function Memmem(haystack: Bytes, needle: Bytes): (r: Option<nat>)
    requires |needle| > 0
    ensures r.Some? ==> IsFirstOccurrence(haystack, needle, r.value)
    ensures r.None? ==> forall j :: !ContainsAt(haystack, needle, j)
  {
    SearchFrom(haystack, needle, 0)
  }

  /** The windows of `haystack` from index `start` on, tried left to right. */
  function SearchFrom(haystack: Bytes, needle: Bytes, start: nat): (r: Option<nat>)
    ensures r.Some? ==> start <= r.value && ContainsAt(haystack, needle, r.value)
    ensures r.Some? ==> forall j | start <= j < r.value :: !ContainsAt(haystack, needle, j)
    ensures r.None? ==> forall j | start <= j :: !ContainsAt(haystack, needle, j)
    decreases |haystack| - start
  {
    if start + |needle| > |haystack| then None
    else if haystack[start..start + |needle|] == needle then Some(start)
    else SearchFrom(haystack, needle, start + 1)
  }

  /** A needle longer than the haystack is never found. */
  lemma LongNeedleNotFound(haystack: Bytes, needle: Bytes)
    requires |needle| > |haystack|
    ensures Memmem(haystack, needle) == None
  {
  }

  /** A match starts with the needle's first byte: no window starts at a byte that
      differs from it. */
  lemma FirstByteMismatch(haystack: Bytes, needle: Bytes, i: int)
    requires |needle| > 0 && 0 <= i < |haystack| && haystack[i] != needle[0]
    ensures !ContainsAt(haystack, needle, i)
  {
    if i + |needle| <= |haystack| {
      assert haystack[i..i + |needle|][0] == haystack[i];
    }
  }

  /** A match in a suffix is a match in the whole sequence, shifted by where the suffix starts. */
  lemma ContainsAtSuffix(haystack: Bytes, needle: Bytes, s: nat, p: int)
    requires s <= |haystack|
    ensures ContainsAt(haystack[s..], needle, p) <==> p >= 0 && ContainsAt(haystack, needle, s + p)
  {
    if p >= 0 && s + p + |needle| <= |haystack| {
      assert haystack[s..][p..p + |needle|] == haystack[s + p..s + p + |needle|];
    }
  }

  /** Searching a suffix: `Memmem(h[s..], n) == Some(p)` is a match of `n` in `h` at
      absolute offset `s + p`; it is the first one when none starts before `s`. */
  lemma MemmemInSuffix(haystack: Bytes, needle: Bytes, s: nat)
    requires |needle| > 0 && s <= |haystack|
    requires Memmem(haystack[s..], needle).Some?
    ensures ContainsAt(haystack, needle, s + Memmem(haystack[s..], needle).value)
    ensures (forall j | 0 <= j < s :: !ContainsAt(haystack, needle, j)) ==>
              IsFirstOccurrence(haystack, needle, s + Memmem(haystack[s..], needle).value)
  {
    var p := Memmem(haystack[s..], needle).value;
    ContainsAtSuffix(haystack, needle, s, p);
    forall j | s <= j < s + p
      ensures !ContainsAt(haystack, needle, j)
    {
      ContainsAtSuffix(haystack, needle, s, j - s);
    }
  }

  /** Searching a suffix that finds nothing: if `a` has no match and the search of
      `(a + b)[s..]` finds nothing, where `s` leaves out only windows lying wholly inside
      `a`, then `a + b` has no match at all. */
  lemma MemmemNoneInSuffix(a: Bytes, b: Bytes, needle: Bytes, s: nat)
    requires |needle| > 0 && s <= |a|
    requires s == 0 || s + |needle| <= |a| + 1
    requires forall j :: !ContainsAt(a, needle, j)
    requires Memmem((a + b)[s..], needle).None?
    ensures forall j :: !ContainsAt(a + b, needle, j)
  {
    forall j
      ensures !ContainsAt(a + b, needle, j)
    {
      if j >= s {
        ContainsAtSuffix(a + b, needle, s, j - s);
      } else if j >= 0 {
        ContainsAtPrefix(a, a + b, needle, j);
      }
    }
  }

  /** A window lying wholly inside a prefix matches in the prefix exactly when it
      matches in the whole sequence. */
  lemma ContainsAtPrefix(prefix: Bytes, haystack: Bytes, needle: Bytes, i: nat)
    requires prefix <= haystack && i + |needle| <= |prefix|
    ensures ContainsAt(haystack, needle, i) <==> ContainsAt(prefix, needle, i)
  {
    assert haystack[i..i + |needle|] == prefix[i..i + |needle|];
  }
}
