/** Small shared vocabulary: an optional value and string prefixes. */
module Common {

  /** Python's `None` or a value. */
  datatype Option<+T> = None | Some(value: T)

  /** Python's `s.startswith(prefix)`. */
  predicate StartsWith(s: string, prefix: string)
  {
    |prefix| <= |s| && s[..|prefix|] == prefix
  }

  /** A prefix glued in front of a string can be split off again. */
  lemma PrefixSplit(prefix: string, rest: string)
    ensures StartsWith(prefix + rest, prefix)
    ensures (prefix + rest)[|prefix|..] == rest
  {
    assert (prefix + rest)[..|prefix|] == prefix;
  }

  /** A slice of a suffix is a slice of the whole. */
  lemma SliceOfSuffix(s: string, a: nat, i: nat, n: nat)
    requires a + i + n <= |s|
    ensures s[a + i .. a + i + n] == s[a..][i .. i + n]
  {
  }
}
