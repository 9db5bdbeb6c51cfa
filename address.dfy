/**
 * Cleaning of the API base address given on the command line (main.py:36-38):
 * every trailing '/' is stripped, and "https://" is put in front unless the
 * stripped text already starts with "http".
 */
module Address {

  /** Python's `s.startswith(prefix)`. */
  predicate StartsWith(s: string, prefix: string) {
    |prefix| <= |s| && s[..|prefix|] == prefix
  }

  /** Python's `s.endswith(suffix)`. */
  predicate EndsWith(s: string, suffix: string) {
    |suffix| <= |s| && s[|s| - |suffix|..] == suffix
  }

  /** Python's `s.endswith("/")`. */
  predicate EndsWithSlash(s: string) {
    |s| > 0 && s[|s| - 1] == '/'
  }

  /** True when every character of `s` is a '/' (the empty string included). */
  predicate AllSlashes(s: string) {
    forall i :: 0 <= i < |s| ==> s[i] == '/'
  }

  const Scheme: string := "https://"

  /**
   * Python's `s.rstrip("/")`: the result is a prefix of `s` that does not end
   * with '/', and everything `s` has beyond it is '/'.
   */
  function StripTrailingSlashes(s: string): (r: string)
    ensures |r| <= |s| && r == s[..|r|]
    ensures !EndsWithSlash(r)
    ensures AllSlashes(s[|r|..])
  {
    if EndsWithSlash(s) then StripTrailingSlashes(s[..|s| - 1]) else s
  }

  /**
   * The three properties of StripTrailingSlashes determine its result: any
   * prefix of `s` without a trailing '/' after which only '/' follows is it.
   */
  lemma StripTrailingSlashesUnique(s: string, t: string)
    requires |t| <= |s| && t == s[..|t|]
    requires !EndsWithSlash(t)
    requires AllSlashes(s[|t|..])
    ensures t == StripTrailingSlashes(s)
  {
  }

  /** Stripping leaves nothing exactly when the text is made of slashes only. */
  lemma StripEmptyIffAllSlashes(s: string)
    ensures StripTrailingSlashes(s) == "" <==> AllSlashes(s)
  {
  }

  /** The cleaned address, as main.py:36-38 computes it. */
  function Normalise(arg: string): (r: string)
    ensures StartsWith(r, "http")
    ensures EndsWithSlash(r) <==> AllSlashes(arg)
  {
    StripEmptyIffAllSlashes(arg);
    var t := StripTrailingSlashes(arg);
    if StartsWith(t, "http") then t else Scheme + t
  }

  /**
   * The scheme is added exactly when the stripped address does not start with
   * "http"; otherwise the stripped address is kept as it is. "httpbin.org"
   * therefore counts as already carrying a scheme.
   */
  lemma NormalisePrefixesExactlyWithoutScheme(arg: string)
    ensures var t := StripTrailingSlashes(arg);
      (Normalise(arg) == t <==> StartsWith(t, "http")) &&
      (!StartsWith(t, "http") ==> Normalise(arg) == Scheme + t)
  {
  }

  /** The cleaned address never ends with '/' unless the argument held nothing but slashes. */
  lemma NormaliseNoTrailingSlash(arg: string)
    requires !AllSlashes(arg)
    ensures !EndsWithSlash(Normalise(arg))
  {
  }

  /**
   * Cleaning twice is cleaning once, for every argument that holds a character
   * other than '/'.
   */
  lemma NormaliseIdempotent(arg: string)
    requires !AllSlashes(arg)
    ensures Normalise(Normalise(arg)) == Normalise(arg)
  {
    var r := Normalise(arg);
    assert !EndsWithSlash(r);
    StripTrailingSlashesUnique(r, r);
  }

  /** An argument of slashes only is cleaned to "https://", which itself is not a fixed point. */
  lemma NormaliseOnlySlashes()
    ensures Normalise("/") == "https://"
    ensures Normalise(Normalise("/")) == "https:"
  {
    assert StripTrailingSlashes("/") == "";
    assert StripTrailingSlashes("https://") == StripTrailingSlashes("https:/");
  }
}
