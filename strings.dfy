/** Small helpers shared by the link builder: an optional value and the
    JavaScript string tests the form relies on. */
module Strings {

  datatype Option<+T> = None | Some(value: T)

  /** `s.startsWith(prefix)` of JavaScript. */
  predicate StartsWith(s: string, prefix: string)
  {
    |prefix| <= |s| && s[..|prefix|] == prefix
  }

  /** A JavaScript string is truthy exactly when it is not empty. */
  predicate Truthy(s: string)
  {
    s != ""
  }

  lemma {:induction false} StartsWithConcat(prefix: string, rest: string)
    ensures StartsWith(prefix + rest, prefix)
  {
    assert (prefix + rest)[..|prefix|] == prefix;
  }

  lemma {:induction false} StartsWithSplits(s: string, prefix: string)
    requires StartsWith(s, prefix)
    ensures s == prefix + s[|prefix|..]
  {
    assert s == s[..|prefix|] + s[|prefix|..];
  }

  /** `s.startsWith(prefix)` holds exactly when `s` is `prefix` followed by
      something. */
  lemma {:induction false} StartsWithIffConcat(s: string, prefix: string)
    ensures StartsWith(s, prefix) <==> exists rest :: s == prefix + rest
  {
    if StartsWith(s, prefix) {
      StartsWithSplits(s, prefix);
    }
    forall rest | s == prefix + rest
      ensures StartsWith(s, prefix)
    {
      StartsWithConcat(prefix, rest);
    }
  }
}
