/**
 * gen/sitemap.go: the sitemap collects page paths and, on Gen, turns them
 * into one URL each. url.JoinPath and xml.Marshal are parameters; the
 * last-modified time is not modelled.
 */
module Sitemaps {
  import opened Ast
  import opened Strs
  import Url

  const Xmlns := "http://www.sitemaps.org/schemas/sitemap/0.9"
  const XmlDeclaration := "<?xml version=\"1.0\" encoding=\"UTF-8\"?>"

  /** The URLs Gen appends for `rels`, in their order. */
  function Locs(joinPath: (string, string) -> string, base: string, rels: seq<string>): (r: seq<string>)
    ensures |r| == |rels|
  {
    if rels == [] then [] else Locs(joinPath, base, rels[..|rels| - 1]) + [joinPath(base, rels[|rels| - 1])]
  }

  lemma {:induction false} LocsAt(joinPath: (string, string) -> string, base: string, rels: seq<string>, i: nat)
    requires i < |rels|
    ensures Locs(joinPath, base, rels)[i] == joinPath(base, rels[i])
    decreases |rels|
  {
    if i < |rels| - 1 {
      LocsAt(joinPath, base, rels[..|rels| - 1], i);
    }
  }

  /** What Gen returns for a marshalled URL set. */
  function GenOutput(marshalled: Result<string>): (r: Result<string>)
    ensures r.Ok? <==> marshalled.Ok?
    ensures r.Ok? ==> HasPrefix(r.value, XmlDeclaration)
    ensures r.Err? ==> r == marshalled
  {
    match marshalled
    case Err(e) => Err(e)
    case Ok(v) => Ok(XmlDeclaration + ReplaceAll(v, "UrlSet", "urlset"))
  }

  class Sitemap {
    var base: string
    var rels: seq<string>
    /** The Loc of every entry of UrlSet.Urls. */
    var urls: seq<string>
    const xmlns: string

    constructor (base: string)
      ensures this.base == Url.NormalizeDomain(base)
      ensures rels == [] && urls == [] && xmlns == Xmlns
    {
      this.base := Url.NormalizeDomain(base);
      rels := [];
      urls := [];
      xmlns := Xmlns;
    }

    /** Add: the path without its leading slashes goes to the end of rels. */
    method Add(rel: string)
      modifies this
      ensures rels == old(rels) + [TrimLeadingSlashes(rel)]
      ensures base == old(base) && urls == old(urls)
    {
      var r := Url.StripLeadingSlashes(rel);
      rels := rels + [r];
    }

    /**
     * Gen: rels are sorted in place and one URL per rel is appended to the
     * URL set, which is never cleared.
     */
    method Gen(joinPath: (string, string) -> string, marshal: (string, seq<string>) -> Result<string>)
      returns (r: Result<string>)
      modifies this
      ensures rels == Sort(old(rels)) && Sorted(rels)
      ensures urls == old(urls) + Locs(joinPath, base, rels)
      ensures base == old(base)
      ensures r == GenOutput(marshal(xmlns, urls))
    {
      SortSorted(rels);
      rels := Sort(rels);
      var rs, us := rels, urls;
      var i := 0;
      while i < |rs|
        invariant 0 <= i <= |rs|
        invariant us == old(urls) + Locs(joinPath, base, rs[..i])
      {
        assert rs[..i + 1][..i] == rs[..i];
        us := us + [joinPath(base, rs[i])];
        i := i + 1;
      }
      assert rs[..i] == rs;
      urls := us;
      var v := marshal(xmlns, us);
      r := GenResult(v);
    }
  }

  /** The tail of Gen: an encoding error is returned as it is, an encoding gets the XML declaration. */
  method GenResult(v: Result<string>) returns (r: Result<string>)
    ensures r == GenOutput(v)
  {
    if v.Err? {
      return Err(v.error);
    }
    r := Ok(XmlDeclaration + ReplaceAll(v.value, "UrlSet", "urlset"));
  }

  /** The order of the Add calls does not matter: the same paths give the same URLs. */
  lemma AddOrderIrrelevant(joinPath: (string, string) -> string, base: string, a: seq<string>, b: seq<string>)
    requires multiset(a) == multiset(b)
    ensures Locs(joinPath, base, Sort(a)) == Locs(joinPath, base, Sort(b))
  {
    SortPermutationInvariant(a, b);
  }

  /**
   * A second Gen on the same sitemap sorts nothing new and appends the same
   * URLs again, so every page is listed twice.
   */
  method GenTwice(m: Sitemap, joinPath: (string, string) -> string, marshal: (string, seq<string>) -> Result<string>)
    modifies m
    ensures var locs := Locs(joinPath, m.base, m.rels);
      m.urls == old(m.urls) + locs + locs
  {
    var _ := m.Gen(joinPath, marshal);
    var _ := m.Gen(joinPath, marshal);
    SortSorted(m.rels);
    SortIdempotent(old(m.rels));
  }

  lemma SortIdempotent(s: seq<string>)
    ensures Sort(Sort(s)) == Sort(s)
  {
    SortSorted(s);
    SortSorted(Sort(s));
    SortedUnique(Sort(Sort(s)), Sort(s));
  }
}
