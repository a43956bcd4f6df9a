/** gen/url.go: normalising the site domain and page paths. */
module Url {
  import opened Strs

  const Http := "http://"
  const Https := "https://"

  predicate HasScheme(s: string) {
    HasPrefix(s, Http) || HasPrefix(s, Https)
  }

  /** normalizeDomain: a domain without an http(s) scheme gets "https://". */
  function NormalizeDomain(domain: string): (r: string)
    ensures HasScheme(r)
    ensures HasScheme(domain) ==> r == domain
    ensures !HasScheme(domain) ==> r == Https + domain
  {
    if !HasScheme(domain) then Https + domain else domain
  }

  lemma NormalizeDomainIdempotent(domain: string)
    ensures NormalizeDomain(NormalizeDomain(domain)) == NormalizeDomain(domain)
  {
  }

  /** The stripping loop `for len(s) > 0 && s[0] == '/' { s = s[1:] }`. */
  method StripLeadingSlashes(s: string) returns (r: string)
    ensures r == TrimLeadingSlashes(s)
  {
    r := s;
    while |r| > 0 && r[0] == '/'
      invariant TrimLeadingSlashes(r) == TrimLeadingSlashes(s)
    {
      r := r[1..];
    }
  }

  /**
   * normalizeRelPath: filepath.Clean (a parameter here), then the leading
   * slashes are stripped.
   */
  method NormalizeRelPath(relPath: string, clean: string -> string) returns (r: string)
    ensures r == TrimLeadingSlashes(clean(relPath))
    ensures r == [] || r[0] != '/'
  {
    var p := clean(relPath);
    r := StripLeadingSlashes(p);
  }

  /** Only the leading slashes go: the cleaned path is those slashes followed by the result. */
  lemma {:induction false} TrimOnlyLeading(s: string)
    ensures exists k :: 0 <= k <= |s| && (forall i :: 0 <= i < k ==> s[i] == '/') && TrimLeadingSlashes(s) == s[k..]
  {
    var k := |s| - |TrimLeadingSlashes(s)|;
    assert (forall i :: 0 <= i < k ==> s[i] == '/') && TrimLeadingSlashes(s) == s[k..];
  }

  /** A path with no leading slash is left as it is; stripping twice is stripping once. */
  lemma {:induction false} TrimLeadingSlashesIdempotent(s: string)
    ensures TrimLeadingSlashes(TrimLeadingSlashes(s)) == TrimLeadingSlashes(s)
  {
    var r := TrimLeadingSlashes(s);
    assert r == [] || r[0] != '/';
  }
}
