/**
 * parseStyle and encodeStyle, which gen/markdown/html.go and
 * gen/renderer.go both define, with the same text: a CSS declaration list
 * read into a map, and a map written back as a declaration list in
 * ascending key order.
 */
module Style {
  import opened Ast
  import opened Strs

  /** One `;`-separated part: a declaration `k:v` (both trimmed), or nothing. */
  function ParsePart(part: string): Option<(string, string)>
  {
    var p := TrimSpace(part);
    if p == [] then None
    else
      var kv := Split(p, ':');
      if |kv| != 2 then None else Some((TrimSpace(kv[0]), TrimSpace(kv[1])))
  }

  /** The map the parsing loop has built after reading `parts`, in order. */
  function ParseParts(parts: seq<string>): map<string, string>
  {
    if parts == [] then map[] else Apply(ParseParts(parts[..|parts| - 1]), parts[|parts| - 1])
  }

  /** One step of the loop: a declaration sets its key, anything else is skipped. */
  function Apply(m: map<string, string>, part: string): map<string, string> {
    match ParsePart(part)
    case None => m
    case Some(kv) => m[kv.0 := kv.1]
  }

  function ParseStyleOf(style: string): map<string, string> {
    ParseParts(Split(style, ';'))
  }

  method ParseStyle(style: string) returns (m: map<string, string>)
    ensures m == ParseStyleOf(style)
  {
    m := map[];
    var parts := Split(style, ';');
    var i := 0;
    while i < |parts|
      invariant 0 <= i <= |parts|
      invariant m == ParseParts(parts[..i])
    {
      ParsePartsSnoc(parts, i);
      var part := TrimSpace(parts[i]);
      if part == [] {
        i := i + 1;
        continue;
      }
      var kv := Split(part, ':');
      if |kv| != 2 {
        i := i + 1;
        continue;
      }
      m := m[TrimSpace(kv[0]) := TrimSpace(kv[1])];
      i := i + 1;
    }
    assert parts[..i] == parts;
  }

  lemma ParsePartsSnoc(parts: seq<string>, i: nat)
    requires i < |parts|
    ensures ParseParts(parts[..i + 1]) == Apply(ParseParts(parts[..i]), parts[i])
  {
    assert parts[..i + 1][..i] == parts[..i];
  }

  /** A part becomes a declaration exactly when, trimmed, it is non-empty and holds exactly one `:`. */
  lemma ParsePartColons(part: string)
    ensures ParsePart(part).Some? <==> TrimSpace(part) != [] && multiset(TrimSpace(part))[':'] == 1
  {
    SplitCount(TrimSpace(part), ':');
  }

  /** Split gives one more piece than there are separators. */
  lemma SplitCount(s: string, c: char)
    ensures |Split(s, c)| == multiset(s)[c] + 1
  {
    SplitFromCount(s, c, []);
  }

  lemma {:induction false} SplitFromCount(s: string, c: char, acc: string)
    requires c !in acc
    ensures |SplitFrom(s, c, acc)| == multiset(s)[c] + 1
    decreases |s|
  {
    if s != [] {
      assert s == [s[0]] + s[1..];
      assert multiset(s) == multiset{s[0]} + multiset(s[1..]);
      if s[0] == c {
        SplitFromCount(s[1..], c, []);
      } else {
        SplitFromCount(s[1..], c, acc + [s[0]]);
      }
    }
  }

  predicate Declares(part: string, k: string) {
    ParsePart(part).Some? && ParsePart(part).value.0 == k
  }

  /** The parts, each already read as a declaration or nothing. */
  function Parsed(parts: seq<string>): (ds: seq<Option<(string, string)>>)
    ensures |ds| == |parts|
  {
    seq(|parts|, i requires 0 <= i < |parts| => ParsePart(parts[i]))
  }

  /** The parsing loop over already-read parts. */
  function Fold(ds: seq<Option<(string, string)>>): map<string, string> {
    if ds == [] then map[] else Step(Fold(ds[..|ds| - 1]), ds[|ds| - 1])
  }

  function Step(m: map<string, string>, d: Option<(string, string)>): map<string, string> {
    match d
    case None => m
    case Some(kv) => m[kv.0 := kv.1]
  }

  lemma {:induction false} ParseFold(parts: seq<string>)
    ensures ParseParts(parts) == Fold(Parsed(parts))
  {
    if parts != [] {
      var init := parts[..|parts| - 1];
      ParseFold(init);
      assert Parsed(parts)[..|parts| - 1] == Parsed(init);
    }
  }

  /** A key is in the parsed map exactly when some part declares it. */
  lemma ParseKeys(parts: seq<string>, k: string)
    ensures k in ParseParts(parts) <==> exists i :: 0 <= i < |parts| && Declares(parts[i], k)
  {
    ParseFold(parts);
    var ds := Parsed(parts);
    if k in ParseParts(parts) {
      var i := FoldKeyDeclared(ds, k);
      assert ds[i] == ParsePart(parts[i]);
    }
    if exists i :: 0 <= i < |parts| && Declares(parts[i], k) {
      var i :| 0 <= i < |parts| && Declares(parts[i], k);
      assert ds[i] == ParsePart(parts[i]);
      FoldDeclaredKey(ds, i, k);
    }
  }

  lemma {:induction false} FoldKeyDeclared(ds: seq<Option<(string, string)>>, k: string) returns (i: nat)
    requires k in Fold(ds)
    ensures i < |ds| && ds[i].Some? && ds[i].value.0 == k
  {
    var init := ds[..|ds| - 1];
    var last := ds[|ds| - 1];
    if last.Some? && last.value.0 == k {
      i := |ds| - 1;
    } else {
      i := FoldKeyDeclared(init, k);
      assert ds[i] == init[i];
    }
  }

  lemma {:induction false} FoldDeclaredKey(ds: seq<Option<(string, string)>>, i: nat, k: string)
    requires i < |ds| && ds[i].Some? && ds[i].value.0 == k
    ensures k in Fold(ds)
  {
    var init := ds[..|ds| - 1];
    if i < |init| {
      assert init[i] == ds[i];
      FoldDeclaredKey(init, i, k);
    }
  }

  /** The last part that declares a key decides its value: later declarations override earlier ones. */
  lemma ParseLastWins(parts: seq<string>, i: nat, k: string, v: string)
    requires i < |parts| && ParsePart(parts[i]) == Some((k, v))
    requires forall j :: i < j < |parts| ==> !Declares(parts[j], k)
    ensures k in ParseParts(parts) && ParseParts(parts)[k] == v
  {
    ParseFold(parts);
    var ds := Parsed(parts);
    forall j | i < j < |ds| ensures !(ds[j].Some? && ds[j].value.0 == k) {
      assert ds[j] == ParsePart(parts[j]);
      assert !Declares(parts[j], k);
    }
    FoldLastWins(ds, i, k, v);
  }

  lemma {:induction false} FoldLastWins(ds: seq<Option<(string, string)>>, i: nat, k: string, v: string)
    requires i < |ds| && ds[i] == Some((k, v))
    requires forall j :: i < j < |ds| ==> !(ds[j].Some? && ds[j].value.0 == k)
    ensures k in Fold(ds) && Fold(ds)[k] == v
    decreases |ds|
  {
    var init := ds[..|ds| - 1];
    if i < |ds| - 1 {
      assert init[i] == ds[i];
      forall j | i < j < |init| ensures !(init[j].Some? && init[j].value.0 == k) {
        assert init[j] == ds[j];
      }
      FoldLastWins(init, i, k, v);
    }
  }

  /** The keys of `m`, each once, in some order. */
  ghost function Enumerate(s: set<string>): (ks: seq<string>)
    ensures multiset(ks) == multiset(s)
    decreases |s|
  {
    if s == {} then []
    else
      var k :| k in s;
      [k] + Enumerate(s - {k})
  }

  /** The keys of `m` in ascending order. */
  ghost function SortedKeys(m: map<string, string>): (ks: seq<string>)
    ensures Sorted(ks) && multiset(ks) == multiset(m.Keys)
    ensures forall k :: k in ks ==> k in m
  {
    SortSorted(Enumerate(m.Keys));
    var ks := Sort(Enumerate(m.Keys));
    forall k | k in ks ensures k in m {
      assert k in multiset(ks);
    }
    ks
  }

  function Decls(m: map<string, string>, keys: seq<string>): (ds: seq<string>)
    requires forall k :: k in keys ==> k in m
    ensures |ds| == |keys| && forall i :: 0 <= i < |keys| ==> ds[i] == keys[i] + ":" + m[keys[i]]
  {
    if keys == [] then [] else Decls(m, keys[..|keys| - 1]) + [keys[|keys| - 1] + ":" + m[keys[|keys| - 1]]]
  }

  /** What encodeStyle returns: `k:v` per key in ascending key order, joined by `;`. */
  ghost function EncodeStyleOf(m: map<string, string>): string {
    Join(Decls(m, SortedKeys(m)), ";")
  }

  /**
   * encodeStyle. Go ranges over the map in an unspecified order; the
   * first loop picks the keys in an arbitrary order too, and sorting makes
   * the result independent of it.
   */
  method EncodeStyle(style: map<string, string>) returns (r: string)
    ensures r == EncodeStyleOf(style)
  {
    var keys := CollectKeys(style);
    SortSorted(keys);
    keys := Sort(keys);
    SortedUnique(keys, SortedKeys(style));
    forall k | k in keys ensures k in style {
      assert k in multiset(keys);
    }
    var arr := DeclList(style, keys);
    r := Join(arr, ";");
  }

  // for k, _ := range style { keys = append(keys, k) }
  method CollectKeys(style: map<string, string>) returns (keys: seq<string>)
    ensures multiset(keys) == multiset(style.Keys)
  {
    keys := [];
    var rest := style.Keys;
    while rest != {}
      invariant rest <= style.Keys
      invariant multiset(keys) + multiset(rest) == multiset(style.Keys)
      decreases |rest|
    {
      var k :| k in rest;
      keys := keys + [k];
      rest := rest - {k};
    }
  }

  // for _, k := range keys { arr = append(arr, fmt.Sprintf("%s:%s", k, style[k])) }
  method DeclList(style: map<string, string>, keys: seq<string>) returns (arr: seq<string>)
    requires forall k :: k in keys ==> k in style
    ensures arr == Decls(style, keys)
  {
    arr := [];
    var i := 0;
    while i < |keys|
      invariant 0 <= i <= |keys|
      invariant arr == Decls(style, keys[..i])
    {
      assert keys[..i + 1][..i] == keys[..i];
      arr := arr + [keys[i] + ":" + style[keys[i]]];
      i := i + 1;
    }
    assert keys[..i] == keys;
  }

  /** The declarations come out in ascending key order, one per key. */
  lemma EncodeOrder(m: map<string, string>)
    ensures var ks := SortedKeys(m);
      Sorted(ks) && |ks| == |m| && (forall k :: k in m <==> k in ks)
      && (forall i, j :: 0 <= i < j < |ks| ==> ks[i] != ks[j])
  {
    var ks := SortedKeys(m);
    assert |ks| == |multiset(ks)| == |multiset(m.Keys)| == |m.Keys| == |m|;
    forall k ensures k in m <==> k in ks {
      assert k in ks <==> k in multiset(ks);
    }
    forall i, j | 0 <= i < j < |ks| ensures ks[i] != ks[j] {
      EnumerationDistinct(ks, m.Keys, i, j);
    }
  }

  // A sequence with the multiset of a set holds each element once.
  lemma EnumerationDistinct(ks: seq<string>, s: set<string>, i: nat, j: nat)
    requires multiset(ks) == multiset(s) && i < j < |ks|
    ensures ks[i] != ks[j]
  {
    assert ks == ks[..j] + ks[j..];
    assert multiset(ks) == multiset(ks[..j]) + multiset(ks[j..]);
    assert ks[..j][i] == ks[i] && ks[j..][0] == ks[j];
    assert ks[i] in multiset(ks[..j]) && ks[j] in multiset(ks[j..]);
    assert multiset(s)[ks[i]] <= 1;
  }

  /** A key or value that encodeStyle can write and parseStyle read back unchanged. */
  predicate Plain(s: string) {
    ';' !in s && ':' !in s && Trimmed(s)
  }

  lemma DeclParses(k: string, v: string)
    requires Plain(k) && Plain(v)
    ensures ParsePart(k + ":" + v) == Some((k, v))
  {
    var p := k + ":" + v;
    assert Join([k, v], [':']) == p;
    assert Trimmed(p) by {
      assert p[0] == (if k == [] then ':' else k[0]);
      assert p[|p| - 1] == (if v == [] then ':' else v[|v| - 1]);
    }
    SplitJoin([k, v], ':');
  }

  /** Parsing the declarations of some keys of `m` rebuilds `m` on those keys. */
  lemma ParseDecls(m: map<string, string>, keys: seq<string>)
    requires forall k :: k in keys ==> k in m && Plain(k) && Plain(m[k])
    ensures forall k :: k in ParseParts(Decls(m, keys)) <==> k in keys
    ensures forall k :: k in keys ==> ParseParts(Decls(m, keys))[k] == m[k]
  {
    ParseFold(Decls(m, keys));
    DeclsParsed(m, keys);
    FoldPairs(m, keys);
  }

  /** The declarations of `keys`, each already read back. */
  function Pairs(m: map<string, string>, keys: seq<string>): (ds: seq<Option<(string, string)>>)
    requires forall k :: k in keys ==> k in m
    ensures |ds| == |keys|
  {
    seq(|keys|, i requires 0 <= i < |keys| => Some((keys[i], m[keys[i]])))
  }

  lemma DeclsParsed(m: map<string, string>, keys: seq<string>)
    requires forall k :: k in keys ==> k in m && Plain(k) && Plain(m[k])
    ensures Parsed(Decls(m, keys)) == Pairs(m, keys)
  {
    var ds := Decls(m, keys);
    forall i | 0 <= i < |keys| ensures Parsed(ds)[i] == Pairs(m, keys)[i] {
      DeclParses(keys[i], m[keys[i]]);
    }
  }

  lemma {:induction false} FoldPairs(m: map<string, string>, keys: seq<string>)
    requires forall k :: k in keys ==> k in m
    ensures forall k :: k in Fold(Pairs(m, keys)) <==> k in keys
    ensures forall k :: k in keys ==> Fold(Pairs(m, keys))[k] == m[k]
  {
    if keys != [] {
      var init := keys[..|keys| - 1];
      var last := keys[|keys| - 1];
      assert keys == init + [last];
      FoldPairs(m, init);
      assert Pairs(m, keys)[..|keys| - 1] == Pairs(m, init);
      RebuiltSnoc(m, init, last, Fold(Pairs(m, init)), Fold(Pairs(m, keys)));
    }
  }

  lemma RebuiltSnoc(m: map<string, string>, init: seq<string>, last: string, r0: map<string, string>, r: map<string, string>)
    requires last in m && r == r0[last := m[last]]
    requires forall k :: k in r0 <==> k in init
    requires forall k :: k in init ==> k in m && r0[k] == m[k]
    ensures forall k :: k in r <==> k in init + [last]
    ensures forall k :: k in init + [last] ==> r[k] == m[k]
  {
    assert forall k :: k in init + [last] <==> k in init || k == last;
  }

  /**
   * The round trip: for keys and values with no `;` or `:` and no
   * surrounding white space, parseStyle(encodeStyle(m)) == m.
   */
  lemma ParseEncode(m: map<string, string>)
    requires forall k :: k in m ==> Plain(k) && Plain(m[k])
    ensures ParseStyleOf(EncodeStyleOf(m)) == m
  {
    EncodeOrder(m);
    if SortedKeys(m) == [] {
      ParseEncodeEmpty(m);
    } else {
      ParseEncodeNonEmpty(m);
    }
  }

  lemma ParseEncodeEmpty(m: map<string, string>)
    requires SortedKeys(m) == [] && m == map[]
    ensures ParseStyleOf(EncodeStyleOf(m)) == m
  {
    assert EncodeStyleOf(m) == [];
    assert Split([], ';') == [[]];
    assert ParsePart([]) == None;
    assert ParseParts([[]]) == map[];
  }

  lemma ParseEncodeNonEmpty(m: map<string, string>)
    requires forall k :: k in m ==> Plain(k) && Plain(m[k])
    requires SortedKeys(m) != []
    ensures ParseStyleOf(EncodeStyleOf(m)) == m
  {
    EncodeSplits(m);
    DeclsParse(m);
  }

  lemma EncodeSplits(m: map<string, string>)
    requires forall k :: k in m ==> Plain(k) && Plain(m[k])
    requires SortedKeys(m) != []
    ensures Split(EncodeStyleOf(m), ';') == Decls(m, SortedKeys(m))
  {
    var ks := SortedKeys(m);
    EncodeOrder(m);
    var ds := Decls(m, ks);
    assert EncodeStyleOf(m) == Join(ds, [';']);
    forall i | 0 <= i < |ds| ensures ';' !in ds[i] {
      assert ks[i] in m;
      assert ds[i] == ks[i] + ":" + m[ks[i]];
    }
    SplitJoin(ds, ';');
  }

  lemma DeclsParse(m: map<string, string>)
    requires forall k :: k in m ==> Plain(k) && Plain(m[k])
    ensures ParseParts(Decls(m, SortedKeys(m))) == m
  {
    var ks := SortedKeys(m);
    EncodeOrder(m);
    ParseDecls(m, ks);
    MapsEqual(ParseParts(Decls(m, ks)), m, ks);
  }

  lemma MapsEqual(p: map<string, string>, m: map<string, string>, ks: seq<string>)
    requires forall k :: k in p <==> k in ks
    requires forall k :: k in m <==> k in ks
    requires forall k :: k in ks ==> p[k] == m[k]
    ensures p == m
  {
    assert p.Keys == m.Keys;
  }
}
