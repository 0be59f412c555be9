/** The JavaScript string methods the path mapper uses, on `seq<char>`. */
module Strings {

  /** `s.startsWith(prefix)`: a raw character prefix, with no notion of path segments. */
  predicate StartsWith(s: string, prefix: string) {
    |prefix| <= |s| && s[..|prefix|] == prefix
  }

  /** `s.endsWith(suffix)`. */
  predicate EndsWith(s: string, suffix: string) {
    |suffix| <= |s| && s[|s| - |suffix|..] == suffix
  }

  /** `startsWith` is the sequence-prefix relation: `s` is `prefix` followed by something. */
  lemma StartsWithIsPrefix(s: string, prefix: string)
    ensures StartsWith(s, prefix) <==> prefix <= s
    ensures StartsWith(s, prefix) <==> (|prefix| <= |s| && s == prefix + s[|prefix|..])
  {
  }

  /** `endsWith` holds exactly when `s` is something followed by `suffix`. */
  lemma EndsWithIsSuffix(s: string, suffix: string)
    ensures EndsWith(s, suffix) <==> (|suffix| <= |s| && s == s[..|s| - |suffix|] + suffix)
  {
  }

  /** `s.slice(0, -n)` for a positive `n`: `s` without its last `n` characters,
      or the empty string when `s` is shorter than that. */
  function SliceOffEnd(s: string, n: nat): (r: string)
    requires 0 < n
    ensures StartsWith(s, r)
    ensures n <= |s| ==> |r| + n == |s|
    ensures |s| < n ==> r == ""
  {
    if n <= |s| then s[..|s| - n] else ""
  }

  /** Cutting a suffix off positionally and appending it again gives back the string. */
  lemma SliceOffSuffix(s: string, suffix: string)
    requires 0 < |suffix| && EndsWith(s, suffix)
    ensures SliceOffEnd(s, |suffix|) + suffix == s
  {
    assert s == s[..|s| - |suffix|] + s[|s| - |suffix|..];
  }

  /** Prefixes chain: a string that starts with `p`, where `p` starts with `q`, starts with `q`. */
  lemma StartsWithTrans(s: string, p: string, q: string)
    requires StartsWith(s, p) && StartsWith(p, q)
    ensures StartsWith(s, q)
  {
    assert s[..|q|] == s[..|p|][..|q|];
  }

  /** Suffixes chain: a string that ends with `p`, where `p` ends with `q`, ends with `q`. */
  lemma EndsWithTrans(s: string, p: string, q: string)
    requires EndsWith(s, p) && EndsWith(p, q)
    ensures EndsWith(s, q)
  {
    assert s[|s| - |q|..] == s[|s| - |p|..][|p| - |q|..];
  }

  /** Cutting off as many characters as were appended last gives back the front part. */
  lemma SliceOffAppended(front: string, back: string)
    ensures (front + back)[..|front + back| - |back|] == front
  {
  }

  /** A string ends with whatever was appended to it last. */
  lemma EndsWithAppend(s: string, t: string)
    ensures EndsWith(s + t, t)
  {
    assert (s + t)[|s + t| - |t|..] == t;
  }
}
