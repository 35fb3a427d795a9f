/**
 * The supported-extension table (`ALL_EXTENSIONS`) and the `--only`
 * allow-list parser (`parse_only`).
 *
 * A Python dict keeps insertion order and the program depends on that order
 * (the search loop visits extensions in it, and content verification adopts
 * the first extension whose MIME matches), so a table is an ordered
 * sequence of (suffix, MIME) pairs with distinct suffixes.
 */
module Extensions {
  import opened Wrappers
  import opened Text

  type Table = seq<(string, string)>

  /** `ALL_EXTENSIONS`, in declaration order. */
  const AllExtensions: Table := [
    (".pdf", "application/pdf"),
    (".doc", "application/msword"),
    (".docx", "application/vnd.openxmlformats-officedocument.wordprocessingml.document"),
    (".md", "text/markdown"),
    (".markdown", "text/markdown"),
    (".html", "text/html"),
    (".htm", "text/html"),
    (".txt", "text/plain")
  ]

  function Keys(t: Table): seq<string> {
    seq(|t|, i requires 0 <= i < |t| => t[i].0)
  }

  predicate UniqueKeys(t: Table) {
    forall i, j :: 0 <= i < j < |t| ==> t[i].0 != t[j].0
  }

  /** Dictionary lookup `t.get(k)`: the value of the first entry with key `k`. */
  function Lookup(t: Table, k: string): (r: Option<string>)
    ensures r.Some? <==> k in Keys(t)
  {
    if t == [] then None
    else
      assert Keys(t) == [t[0].0] + Keys(t[1..]);
      if t[0].0 == k then Some(t[0].1) else Lookup(t[1..], k)
  }

  lemma {:induction false} LookupAt(t: Table, i: int)
    requires UniqueKeys(t) && 0 <= i < |t|
    ensures Lookup(t, t[i].0) == Some(t[i].1)
  {
    if i > 0 {
      LookupAt(t[1..], i - 1);
    }
  }

  /** Dictionary store `t[k] = v`: an existing key keeps its position, a new key goes last. */
  function Put(t: Table, k: string, v: string): Table {
    if k in Keys(t) then seq(|t|, i requires 0 <= i < |t| => if t[i].0 == k then (k, v) else t[i])
    else t + [(k, v)]
  }

  /** `t` has distinct keys, each mapped as in the reference table `all`. */
  predicate SubTableOf(t: Table, all: Table) {
    && UniqueKeys(t)
    && forall i :: 0 <= i < |t| ==> Lookup(all, t[i].0) == Some(t[i].1)
  }

  /** A run-scoped allow-list: distinct keys, each mapped as in `ALL_EXTENSIONS`. */
  predicate SubTable(t: Table) {
    SubTableOf(t, AllExtensions)
  }

  datatype ConfigError = UnsupportedExtension(token: string)

  /** `tok.strip().lower().lstrip('.')`. */
  function NormalizeToken(tok: string): string {
    LStripChar(Lower(Strip(tok)), '.')
  }

  function KeyOf(tok: string): string {
    "." + NormalizeToken(tok)
  }

  predicate Known(all: Table, tok: string) {
    Lookup(all, KeyOf(tok)).Some?
  }

  /** `toks[i]` is the first token that is not a key of `all`. */
  predicate FirstUnknownAt(all: Table, toks: seq<string>, i: int) {
    0 <= i < |toks| && !Known(all, toks[i]) && forall j :: 0 <= j < i ==> Known(all, toks[j])
  }

  function KeyList(toks: seq<string>): seq<string> {
    seq(|toks|, i requires 0 <= i < |toks| => KeyOf(toks[i]))
  }

  /** Keeps the first occurrence of every element, in order. */
  function Distinct(s: seq<string>): seq<string> {
    if s == [] then []
    else
      var d := Distinct(s[..|s| - 1]);
      if s[|s| - 1] in d then d else d + [s[|s| - 1]]
  }

  /** `Distinct` keeps exactly the elements of its input, once each. */
  lemma {:induction false} DistinctProperties(s: seq<string>)
    ensures NoDuplicates(Distinct(s))
    ensures forall x :: x in Distinct(s) <==> x in s
  {
    if s != [] {
      DistinctProperties(s[..|s| - 1]);
      assert s == s[..|s| - 1] + [s[|s| - 1]];
    }
  }

  /** The loop of `parse_only` as a fold: `acc` is the dict built so far. */
  function ParseTokens(all: Table, toks: seq<string>, acc: Table): Result<Table, ConfigError>
    decreases |toks|
  {
    if toks == [] then Success(acc)
    else
      var tok := NormalizeToken(toks[0]);
      match Lookup(all, "." + tok)
      case None => Failure(UnsupportedExtension(tok))
      case Some(mime) => ParseTokens(all, toks[1..], Put(acc, "." + tok, mime))
  }

  function ParseOnlySpec(arg: string): Result<Table, ConfigError> {
    ParseTokens(AllExtensions, Split(arg, ','), [])
  }

  /** `parse_only`: the comma-separated allow-list as a sub-table of `all`, or the first unsupported token. */
  method ParseOnly(all: Table, arg: string) returns (r: Result<Table, ConfigError>)
    ensures r == ParseTokens(all, Split(arg, ','), [])
    ensures r.Failure? <==> exists tok :: tok in Split(arg, ',') && !Known(all, tok)
    ensures r.Failure? ==>
      exists i :: FirstUnknownAt(all, Split(arg, ','), i)
        && r.error == UnsupportedExtension(NormalizeToken(Split(arg, ',')[i]))
    ensures r.Success? ==> SubTableOf(r.value, all) && Keys(r.value) == Distinct(KeyList(Split(arg, ',')))
  {
    r := ParseTokenList(all, Split(arg, ','));
  }

  /** The `for tok in ...` loop of `parse_only`, filling the dict `exts`. */
  method ParseTokenList(all: Table, toks: seq<string>) returns (r: Result<Table, ConfigError>)
    ensures r == ParseTokens(all, toks, [])
    ensures r.Failure? <==> exists tok :: tok in toks && !Known(all, tok)
    ensures r.Failure? ==>
      exists i :: FirstUnknownAt(all, toks, i) && r.error == UnsupportedExtension(NormalizeToken(toks[i]))
    ensures r.Success? ==> SubTableOf(r.value, all) && Keys(r.value) == Distinct(KeyList(toks))
  {
    var exts: Table := [];
    var i := 0;
    while i < |toks|
      invariant 0 <= i <= |toks|
      invariant ParseTokens(all, toks[i..], exts) == ParseTokens(all, toks, [])
    {
      var tok := NormalizeToken(toks[i]);
      var key := "." + tok;
      var mime := Lookup(all, key);
      assert toks[i..][1..] == toks[i + 1..];
      if mime.None? {
        r := Failure(UnsupportedExtension(tok));
        break;
      }
      exts := Put(exts, key, mime.value);
      i := i + 1;
    }
    if i == |toks| {
      assert toks[i..] == [];
      r := Success(exts);
    }
    ParseFailure(all, toks, []);
    ParseSuccess(all, toks, []);
    assert Keys([]) + KeyList(toks) == KeyList(toks);
  }

  lemma {:induction false} DistinctOfDistinct(a: seq<string>, b: seq<string>)
    ensures Distinct(Distinct(a) + b) == Distinct(a + b)
    decreases |b|
  {
    if b == [] {
      DistinctProperties(a);
      DistinctIdentity(Distinct(a));
      assert a + b == a;
      assert Distinct(a) + b == Distinct(a);
    } else {
      var b' := b[..|b| - 1];
      DistinctOfDistinct(a, b');
      assert (Distinct(a) + b)[..|Distinct(a) + b| - 1] == Distinct(a) + b';
      assert (a + b)[..|a + b| - 1] == a + b';
    }
  }

  lemma {:induction false} DistinctIdentity(s: seq<string>)
    requires NoDuplicates(s)
    ensures Distinct(s) == s
  {
    if s != [] {
      var s' := s[..|s| - 1];
      DistinctIdentity(s');
      assert s[|s| - 1] !in s';
      assert s' + [s[|s| - 1]] == s;
    }
  }

  /** The fold fails exactly when some token is unknown, and then reports the first unknown token. */
  lemma {:induction false} ParseFailure(all: Table, toks: seq<string>, acc: Table)
    ensures ParseTokens(all, toks, acc).Failure? <==> exists tok :: tok in toks && !Known(all, tok)
    ensures ParseTokens(all, toks, acc).Failure? ==>
      exists i :: FirstUnknownAt(all, toks, i)
        && ParseTokens(all, toks, acc).error == UnsupportedExtension(NormalizeToken(toks[i]))
    decreases |toks|
  {
    if toks != [] {
      var key := KeyOf(toks[0]);
      assert forall t :: t in toks <==> t == toks[0] || t in toks[1..];
      match Lookup(all, key)
      case None =>
        assert FirstUnknownAt(all, toks, 0);
      case Some(mime) =>
        var acc' := Put(acc, key, mime);
        ParseFailure(all, toks[1..], acc');
        if ParseTokens(all, toks, acc).Failure? {
          var i :| FirstUnknownAt(all, toks[1..], i)
            && ParseTokens(all, toks[1..], acc').error == UnsupportedExtension(NormalizeToken(toks[1..][i]));
          forall j | 0 <= j < i + 1 ensures Known(all, toks[j]) {
            if j > 0 { assert toks[j] == toks[1..][j - 1]; }
          }
          assert FirstUnknownAt(all, toks, i + 1);
        }
    }
  }

  /** On success the fold extends `acc` to a sub-table keyed by the tokens' keys in order of first occurrence. */
  lemma {:induction false} ParseSuccess(all: Table, toks: seq<string>, acc: Table)
    requires SubTableOf(acc, all)
    ensures var r := ParseTokens(all, toks, acc);
      r.Success? ==> SubTableOf(r.value, all) && Keys(r.value) == Distinct(Keys(acc) + KeyList(toks))
    decreases |toks|
  {
    if toks == [] {
      UniqueKeysHaveNoDuplicates(acc);
      DistinctIdentity(Keys(acc));
      assert Keys(acc) + KeyList(toks) == Keys(acc);
    } else {
      var key := KeyOf(toks[0]);
      var found := Lookup(all, key);
      if found.Some? {
        var acc' := Put(acc, key, found.value);
        ParseStep(all, toks, acc);
        PutKeepsSubTable(acc, all, key, found.value);
        ParseSuccess(all, toks[1..], acc');
        KeysStep(acc, found.value, toks);
      }
    }
  }

  /** One iteration of the fold with a known token. */
  lemma ParseStep(all: Table, toks: seq<string>, acc: Table)
    requires toks != [] && Known(all, toks[0])
    ensures ParseTokens(all, toks, acc)
      == ParseTokens(all, toks[1..], Put(acc, KeyOf(toks[0]), Lookup(all, KeyOf(toks[0])).value))
  {
  }

  /** Storing the first token's key, then the rest, orders keys as storing all of them at once. */
  lemma KeysStep(acc: Table, mime: string, toks: seq<string>)
    requires UniqueKeys(acc) && toks != []
    ensures Distinct(Keys(Put(acc, KeyOf(toks[0]), mime)) + KeyList(toks[1..])) == Distinct(Keys(acc) + KeyList(toks))
  {
    var key := KeyOf(toks[0]);
    var rest := KeyList(toks[1..]);
    assert Keys(Put(acc, key, mime)) == Distinct(Keys(acc) + [key]) by {
      PutKeysDistinct(acc, key, mime);
    }
    KeyListCons(toks);
    assert Distinct(Distinct(Keys(acc) + [key]) + rest) == Distinct(Keys(acc) + ([key] + rest)) by {
      DistinctAppend(Keys(acc), key, rest);
    }
  }

  lemma KeyListCons(toks: seq<string>)
    requires toks != []
    ensures KeyList(toks) == [KeyOf(toks[0])] + KeyList(toks[1..])
  {
    assert forall i :: 0 <= i < |toks| - 1 ==> KeyList(toks)[i + 1] == KeyList(toks[1..])[i];
  }

  lemma DistinctAppend(ka: seq<string>, key: string, kl: seq<string>)
    ensures Distinct(Distinct(ka + [key]) + kl) == Distinct(ka + ([key] + kl))
  {
    DistinctOfDistinct(ka + [key], kl);
    ConcatAssoc3(ka, [key], kl);
  }

  lemma PutKeysDistinct(acc: Table, key: string, mime: string)
    requires UniqueKeys(acc)
    ensures Keys(Put(acc, key, mime)) == Distinct(Keys(acc) + [key])
  {
    UniqueKeysHaveNoDuplicates(acc);
    DistinctIdentity(Keys(acc));
    assert (Keys(acc) + [key])[..|Keys(acc)|] == Keys(acc);
    var acc' := Put(acc, key, mime);
    if key in Keys(acc) {
      assert forall i :: 0 <= i < |acc| ==> acc'[i].0 == acc[i].0;
    } else {
      assert Keys(acc + [(key, mime)]) == Keys(acc) + [key];
    }
  }

  lemma UniqueKeysHaveNoDuplicates(t: Table)
    requires UniqueKeys(t)
    ensures NoDuplicates(Keys(t))
  {
  }

  lemma PutKeepsSubTable(acc: Table, all: Table, key: string, mime: string)
    requires SubTableOf(acc, all) && Lookup(all, key) == Some(mime)
    ensures SubTableOf(Put(acc, key, mime), all)
    ensures Keys(Put(acc, key, mime)) == if key in Keys(acc) then Keys(acc) else Keys(acc) + [key]
  {
    var acc' := Put(acc, key, mime);
    if key in Keys(acc) {
      assert forall i :: 0 <= i < |acc| ==> acc'[i].0 == acc[i].0;
      assert Keys(acc') == Keys(acc);
      forall i | 0 <= i < |acc'| ensures Lookup(all, acc'[i].0) == Some(acc'[i].1) {
        if acc[i].0 == key {
          assert acc'[i] == (key, mime);
        } else {
          assert acc'[i] == acc[i];
        }
      }
    } else {
      assert forall i :: 0 <= i < |acc| ==> acc[i].0 != key by {
        forall i | 0 <= i < |acc| ensures acc[i].0 != key {
          assert Keys(acc)[i] == acc[i].0;
        }
      }
      assert acc' == acc + [(key, mime)];
      assert Keys(acc') == Keys(acc) + [key];
    }
  }

  /** A dot followed by lower-case letters is a fixed point of token normalisation. */
  lemma KeyOfPlainSuffix(k: string)
    requires |k| >= 2 && k[0] == '.'
    requires forall i :: 1 <= i < |k| ==> 'a' <= k[i] <= 'z'
    ensures KeyOf(k) == k
  {
    assert LStrip(k) == k;
    assert RStrip(k) == k;
    assert Lower(k) == k;
    assert LStripChar(k, '.') == k[1..] by {
      assert LStripChar(k[1..], '.') == k[1..];
    }
  }

  lemma AllExtensionKeysHaveNoComma()
    ensures forall i :: 0 <= i < |AllExtensions| ==> ',' !in AllExtensions[i].0
  {
  }

  /** Every `ALL_EXTENSIONS` key is a fixed point of token normalisation. */
  lemma AllExtensionKeysNormalize()
    ensures forall i :: 0 <= i < |AllExtensions| ==> KeyOf(AllExtensions[i].0) == AllExtensions[i].0
  {
    forall i | 0 <= i < |AllExtensions|
      ensures KeyOf(AllExtensions[i].0) == AllExtensions[i].0
    {
      var k := AllExtensions[i].0;
      assert |k| >= 2 && k[0] == '.';
      assert forall j :: 1 <= j < |k| ==> 'a' <= k[j] <= 'z';
      KeyOfPlainSuffix(k);
    }
  }

  /** Two sub-tables of `all` with the same keys in the same order are equal. */
  lemma SameKeysSameTable(a: Table, b: Table, all: Table)
    requires SubTableOf(a, all) && SubTableOf(b, all) && Keys(a) == Keys(b)
    ensures a == b
  {
    assert |a| == |Keys(a)| == |Keys(b)| == |b|;
    forall i | 0 <= i < |a| ensures a[i] == b[i] {
      assert Keys(a)[i] == a[i].0 && Keys(b)[i] == b[i].0;
    }
  }

  /** Keys that contain no comma and that token normalisation leaves unchanged. */
  predicate PlainKeys(t: Table) {
    forall i :: 0 <= i < |t| ==> ',' !in t[i].0 && KeyOf(t[i].0) == t[i].0
  }

  lemma SubTablePlainKeys(t: Table)
    requires SubTable(t)
    ensures PlainKeys(t)
  {
    AllExtensionKeysHaveNoComma();
    AllExtensionKeysNormalize();
    forall i | 0 <= i < |t| ensures ',' !in t[i].0 && KeyOf(t[i].0) == t[i].0 {
      assert t[i].0 in Keys(AllExtensions);
      var j :| 0 <= j < |AllExtensions| && Keys(AllExtensions)[j] == t[i].0;
    }
  }

  /** Parsing the keys of a sub-table of `all` succeeds with a sub-table that has those keys. */
  lemma ParseKeys(t: Table, all: Table)
    requires SubTableOf(t, all) && PlainKeys(t)
    ensures var r := ParseTokens(all, Keys(t), []);
      r.Success? && SubTableOf(r.value, all) && Keys(r.value) == Keys(t)
  {
    var ks := Keys(t);
    forall i | 0 <= i < |ks| ensures KeyOf(ks[i]) == ks[i] && Known(all, ks[i]) {
      assert ks[i] == t[i].0;
    }
    ParseFailure(all, ks, []);
    ParseSuccess(all, ks, []);
    assert KeyList(ks) == ks;
    assert Keys([]) + KeyList(ks) == ks;
    UniqueKeysHaveNoDuplicates(t);
    DistinctIdentity(ks);
  }

  /** Parsing the comma-joined keys of a non-empty sub-table of `all` gives back the sub-table. */
  lemma ParseTokensRoundTrip(t: Table, all: Table)
    requires SubTableOf(t, all) && PlainKeys(t) && t != []
    ensures ParseTokens(all, Split(Join(Keys(t), ','), ','), []) == Success(t)
  {
    var ks := Keys(t);
    forall p | p in ks ensures ',' !in p {
      var i :| 0 <= i < |ks| && ks[i] == p;
      assert ks[i] == t[i].0;
    }
    SplitJoin(ks, ',');
    ParseKeys(t, all);
    SameKeysSameTable(ParseTokens(all, ks, []).value, t, all);
  }

  /**
   * `parse_only` of the comma-joined keys of a non-empty allow-list drawn
   * from `ALL_EXTENSIONS` gives back that allow-list.
   */
  lemma ParseOnlyRoundTrip(t: Table)
    requires SubTable(t) && t != []
    ensures ParseOnlySpec(Join(Keys(t), ',')) == Success(t)
  {
    SubTablePlainKeys(t);
    ParseTokensRoundTrip(t, AllExtensions);
  }
}
