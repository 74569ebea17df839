/** Prefix and suffix tests on strings, used to read query texts back. */
module Text {
  import opened Nullable

  predicate StartsWith(s: string, p: string) {
    |p| <= |s| && s[..|p|] == p
  }

  predicate EndsWith(s: string, p: string) {
    |p| <= |s| && s[|s| - |p|..] == p
  }

  /** What follows `p` in `s`, if `s` starts with `p`. */
  function StripPrefix(s: string, p: string): (r: Option<string>)
    ensures r.Some? <==> StartsWith(s, p)
    ensures r.Some? ==> s == p + r.value
  {
    if StartsWith(s, p) then Some(s[|p|..]) else None
  }

  /** What precedes `p` in `s`, if `s` ends with `p`. */
  function StripSuffix(s: string, p: string): (r: Option<string>)
    ensures r.Some? <==> EndsWith(s, p)
    ensures r.Some? ==> s == r.value + p
  {
    if EndsWith(s, p) then Some(s[..|s| - |p|]) else None
  }

  /** Regrouping a concatenation, stated for variables so that long
      literals are never unfolded to prove it. */
  lemma Regroup(a: string, b: string, c: string)
    ensures a + b + c == a + (b + c)
  {
  }

  lemma Nest(a: string, b: string, c: string, d: string, e: string, f: string)
    ensures a + b + c + d + e + f == a + (b + (c + (d + (e + f))))
  {
  }

  lemma StripPrefixConcat(p: string, rest: string)
    ensures StripPrefix(p + rest, p) == Some(rest)
  {
    assert (p + rest)[..|p|] == p;
  }

  lemma StripSuffixConcat(rest: string, p: string)
    ensures StripSuffix(rest + p, p) == Some(rest)
  {
    assert (rest + p)[|rest + p| - |p|..] == p;
  }

  /** `rest + p` ends with `p`, and not with a one-character `q` that differs
      from the last character of `p`. */
  lemma EndsWithLast(rest: string, p: string, q: string)
    requires |p| > 0 && |q| == 1 && p[|p| - 1] != q[0]
    ensures EndsWith(rest + p, p)
    ensures !EndsWith(rest + p, q)
  {
    EndsWithConcat(rest, p);
    var s := rest + p;
    assert s[|s| - 1] == p[|p| - 1];
    assert s[|s| - 1..][0] == s[|s| - 1];
  }

  lemma EndsWithConcat(rest: string, p: string)
    ensures EndsWith(rest + p, p)
  {
    StripSuffixConcat(rest, p);
  }

  /** A string that differs from `p` at position `k` does not start with `p`. */
  lemma MismatchAt(s: string, p: string, k: nat)
    requires k < |s| && k < |p| && s[k] != p[k]
    ensures StripPrefix(s, p) == None
  {
    if |p| <= |s| {
      assert s[..|p|][k] == s[k];
    }
  }

  /** A string that starts with `a` and differs from `p` at position `k`,
      within `a`, does not start with `p`. */
  lemma MismatchIn(a: string, rest: string, p: string, k: nat)
    requires k < |a| && k < |p| && a[k] != p[k]
    ensures StripPrefix(a + rest, p) == None
  {
    assert (a + rest)[k] == a[k];
    MismatchAt(a + rest, p, k);
  }

  /** A common prefix does not help `p + a` start with `p + b`. */
  lemma StartsWithDropPrefix(p: string, a: string, b: string)
    ensures StartsWith(p + a, p + b) ==> StartsWith(a, b)
  {
    if StartsWith(p + a, p + b) {
      forall i | 0 <= i < |b|
        ensures a[i] == b[i]
      {
        assert (p + a)[..|p + b|][|p| + i] == (p + b)[|p| + i];
      }
      assert a[..|b|] == b;
    }
  }
}
