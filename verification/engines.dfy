/**
 * The search engines (`ENGINES`) and what each engine's `search` does with
 * the page it fetched. Selecting anchors in the HTML is not modelled: a page
 * is given as the sequence of `href`s the engine's CSS selector yields, in
 * document order (for Google, per result block, the `href` of its first
 * link, if any).
 */
module Engines {
  import opened Wrappers
  import opened Text
  import opened Retry

  datatype Engine = DuckDuckGo | Bing | Google

  /** `ENGINES`, in registration order. */
  const Registry: seq<Engine> := [DuckDuckGo, Bing, Google]

  function EngineName(e: Engine): string {
    match e
    case DuckDuckGo => "duckduckgo"
    case Bing => "bing"
    case Google => "google"
  }

  /** `[e for e in s if e != x]`. */
  function Without(s: seq<Engine>, x: Engine): seq<Engine> {
    if s == [] then [] else (if s[0] == x then [] else [s[0]]) + Without(s[1..], x)
  }

  /** The order in which `main` tries engines: the primary one, then the rest in registration order. */
  function FallbackOrder(primary: Engine): seq<Engine> {
    [primary] + Without(Registry, primary)
  }

  /** Removing `x` takes out exactly one occurrence from a list without duplicates. */
  lemma {:induction false} WithoutCount(s: seq<Engine>, x: Engine)
    requires NoDuplicates(s) && x in s
    ensures multiset(Without(s, x)) + multiset{x} == multiset(s)
  {
    assert s == [s[0]] + s[1..];
    if s[0] == x {
      assert x !in s[1..];
      WithoutAbsent(s[1..], x);
    } else {
      WithoutCount(s[1..], x);
    }
  }

  /** Removing keeps the remaining elements in order, without duplicates. */
  lemma {:induction false} WithoutOrder(s: seq<Engine>, x: Engine)
    requires NoDuplicates(s)
    ensures IsSubsequence(Without(s, x), s)
    ensures NoDuplicates(Without(s, x))
    ensures x !in Without(s, x)
  {
    if s != [] {
      var w := Without(s[1..], x);
      WithoutOrder(s[1..], x);
      if s[0] == x {
        assert Without(s, x) == w;
      } else {
        WithoutSubset(s[1..], x);
        assert s[0] !in s[1..];
        assert Without(s, x) == [s[0]] + w;
        assert ([s[0]] + w)[1..] == w;
      }
    }
  }

  lemma {:induction false} WithoutAbsent(s: seq<Engine>, x: Engine)
    requires x !in s
    ensures Without(s, x) == s
  {
    if s != [] {
      WithoutAbsent(s[1..], x);
      assert s == [s[0]] + s[1..];
    }
  }

  lemma {:induction false} WithoutSubset(s: seq<Engine>, x: Engine)
    ensures forall e :: e in Without(s, x) ==> e in s
  {
    if s != [] {
      WithoutSubset(s[1..], x);
    }
  }

  lemma {:induction false} IsSubsequenceSelf<T>(s: seq<T>)
    ensures IsSubsequence(s, s)
  {
    if s != [] {
      IsSubsequenceSelf(s[1..]);
    }
  }

  /**
   * The fallback order names every registered engine exactly once, starts with
   * the primary engine, and keeps the others in registration order.
   */
  lemma FallbackOrderProperties(primary: Engine)
    ensures FallbackOrder(primary)[0] == primary
    ensures multiset(FallbackOrder(primary)) == multiset(Registry)
    ensures NoDuplicates(FallbackOrder(primary))
    ensures IsSubsequence(FallbackOrder(primary)[1..], Registry)
  {
    RegistryProperties(primary);
    PrimaryFirst(Registry, primary);
  }

  lemma RegistryProperties(e: Engine)
    ensures NoDuplicates(Registry) && e in Registry
  {
    assert Registry[0] == DuckDuckGo && Registry[1] == Bing && Registry[2] == Google;
  }

  lemma PrimaryFirst(registry: seq<Engine>, primary: Engine)
    requires NoDuplicates(registry) && primary in registry
    ensures var order := [primary] + Without(registry, primary);
      && multiset(order) == multiset(registry)
      && NoDuplicates(order)
      && IsSubsequence(order[1..], registry)
  {
    var w := Without(registry, primary);
    WithoutCount(registry, primary);
    WithoutOrder(registry, primary);
    var order := [primary] + w;
    assert order[1..] == w;
    assert multiset(order) == multiset{primary} + multiset(w);
  }

  // ---------------------------------------------------------------------
  // Percent-decoding (`requests.utils.unquote`) and its inverse

  predicate IsHexDigit(c: char) {
    '0' <= c <= '9' || 'a' <= c <= 'f' || 'A' <= c <= 'F'
  }

  function HexValue(c: char): (n: nat)
    requires IsHexDigit(c)
    ensures n < 16
  {
    if '0' <= c <= '9' then c as int - '0' as int
    else if 'a' <= c <= 'f' then c as int - 'a' as int + 10
    else c as int - 'A' as int + 10
  }

  /** `unquote`: every `%XY` with two hexadecimal digits becomes the character with code `XY`. */
  function Unquote(s: string): string {
    if |s| >= 3 && s[0] == '%' && IsHexDigit(s[1]) && IsHexDigit(s[2]) then
      [(16 * HexValue(s[1]) + HexValue(s[2])) as char] + Unquote(s[3..])
    else if s == [] then []
    else [s[0]] + Unquote(s[1..])
  }

  predicate IsAscii(s: string) {
    forall i :: 0 <= i < |s| ==> s[i] as int < 0x80
  }

  /** The characters `quote` leaves alone: ASCII letters and digits, `_.-~` and `/`. */
  predicate QuoteSafe(c: char) {
    IsAsciiAlnum(c) || c == '_' || c == '.' || c == '-' || c == '~' || c == '/'
  }

  function HexDigit(n: nat): (c: char)
    requires n < 16
    ensures IsHexDigit(c) && HexValue(c) == n
  {
    if n < 10 then ('0' as int + n) as char else ('A' as int + n - 10) as char
  }

  function QuoteChar(c: char): string
    requires c as int < 0x80
  {
    if QuoteSafe(c) then [c] else ['%', HexDigit(c as int / 16), HexDigit(c as int % 16)]
  }

  /** `quote` on ASCII text: every other character becomes `%XY`. */
  function Quote(s: string): (q: string)
    requires IsAscii(s)
    ensures '&' !in q
  {
    if s == [] then [] else QuoteChar(s[0]) + Quote(s[1..])
  }

  lemma UnquoteQuoteChar(c: char, rest: string)
    requires c as int < 0x80
    ensures Unquote(QuoteChar(c) + rest) == [c] + Unquote(rest)
  {
    var q := QuoteChar(c) + rest;
    if QuoteSafe(c) {
      assert q[1..] == rest;
    } else {
      assert q[3..] == rest;
      assert 16 * (c as int / 16) + c as int % 16 == c as int;
    }
  }

  /** Decoding undoes encoding. */
  lemma {:induction false} UnquoteQuote(s: string)
    requires IsAscii(s)
    ensures Unquote(Quote(s)) == s
  {
    if s != [] {
      UnquoteQuote(s[1..]);
      UnquoteQuoteChar(s[0], Quote(s[1..]));
    }
  }

  // ---------------------------------------------------------------------
  // DuckDuckGo

  /** The decoded value of the first `uddg=` parameter. */
  function UddgValue(parts: seq<string>): Option<string> {
    if parts == [] then None
    else if |parts[0]| >= 5 && StartsWith(parts[0], "uddg=") then Some(Unquote(parts[0][5..]))
    else UddgValue(parts[1..])
  }

  /** A `/l/?` redirect replaced by its `uddg=` target, reading parameters from position `skip`. */
  function UnwrapFrom(href: string, skip: nat): string
    requires skip <= 4
  {
    if |href| >= 4 && StartsWith(href, "/l/?") then
      match UddgValue(Split(href[skip..], '&'))
      case Some(v) => v
      case None => href
    else href
  }

  /** The unwrapping as written: the parameters are read from `href[3:]`, which still holds the `?`. */
  function UnwrapAsWritten(href: string): string {
    UnwrapFrom(href, 3)
  }

  /** The unwrapping as intended: the parameters are read after `/l/?`. */
  function Unwrap(href: string): string {
    UnwrapFrom(href, 4)
  }

  /** A redirect whose first parameter is `uddg` is unwrapped to the target address, whatever follows it. */
  lemma UnwrapRedirect(target: string, rest: seq<string>)
    requires IsAscii(target)
    ensures Unwrap("/l/?uddg=" + Quote(target)) == target
    ensures Unwrap("/l/?uddg=" + Quote(target) + "&" + Join(rest, '&')) == target
  {
    UnquoteQuote(target);
    UnwrapUddgAlone(Quote(target));
    UnwrapUddgThen(Quote(target), Join(rest, '&'));
  }

  /** `/l/?uddg=q` unwraps to `unquote(q)`. */
  lemma UnwrapUddgAlone(q: string)
    requires '&' !in q
    ensures Unwrap("/l/?uddg=" + q) == Unquote(q)
  {
    var p := "uddg=" + q;
    assert Split(p, '&') == [p] by {
      UddgParamNoAmp(q);
      SplitNoSep(p, '&');
    }
    assert UddgValue([p]) == Some(Unquote(q)) by {
      UddgFirst(q, []);
      assert [p] + [] == [p];
    }
    assert Unwrap("/l/?" + p) == Unquote(q) by {
      UnwrapParams(p);
    }
    assert "/l/?uddg=" + q == "/l/?" + p by {
      assert "/l/?uddg=" == "/l/?" + "uddg=";
      ConcatAssoc3("/l/?", "uddg=", q);
    }
  }

  /** `/l/?uddg=q&...` unwraps to `unquote(q)`. */
  lemma UnwrapUddgThen(q: string, tail: string)
    requires '&' !in q
    ensures Unwrap("/l/?uddg=" + q + "&" + tail) == Unquote(q)
  {
    var p := "uddg=" + q;
    var params := p + "&" + tail;
    assert Split(params, '&') == [p] + Split(tail, '&') by {
      UddgParamNoAmp(q);
      SplitConcat(p, tail, '&');
    }
    assert UddgValue([p] + Split(tail, '&')) == Some(Unquote(q)) by {
      UddgFirst(q, Split(tail, '&'));
    }
    assert Unwrap("/l/?" + params) == Unquote(q) by {
      UnwrapParams(params);
    }
    assert "/l/?uddg=" + q + "&" + tail == "/l/?" + params by {
      assert "/l/?uddg=" == "/l/?" + "uddg=";
      ConcatAssoc5("/l/?", "uddg=", q, "&", tail);
    }
  }

  /** The `uddg=` parameter of a value without `&` holds no `&`. */
  lemma UddgParamNoAmp(q: string)
    requires '&' !in q
    ensures '&' !in "uddg=" + q
  {
    var u := "uddg=";
    assert forall i :: 0 <= i < |u| ==> u[i] != '&';
    NotInConcat('&', u, q);
  }

  lemma NotInConcat<T>(x: T, a: seq<T>, b: seq<T>)
    requires x !in a && x !in b
    ensures x !in a + b
  {
  }

  /** Unwrapping reads the parameters that follow `/l/?`. */
  lemma UnwrapParams(params: string)
    ensures Unwrap("/l/?" + params)
      == match UddgValue(Split(params, '&')) case Some(v) => v case None => "/l/?" + params
  {
    assert ("/l/?" + params)[4..] == params;
  }

  /** A first parameter `uddg=q` yields `unquote(q)`. */
  lemma UddgFirst(q: string, more: seq<string>)
    ensures UddgValue(["uddg=" + q] + more) == Some(Unquote(q))
  {
    assert ("uddg=" + q)[5..] == q;
  }

  /** As written, the same redirect is left unchanged: its first parameter is read as `?uddg=...`. */
  lemma UnwrapAsWrittenMissesRedirect(target: string)
    requires IsAscii(target)
    ensures UnwrapAsWritten("/l/?uddg=" + Quote(target)) == "/l/?uddg=" + Quote(target)
  {
    var q := Quote(target);
    var h := "/l/?uddg=" + q;
    var p := "?uddg=" + q;
    assert h[..4] == "/l/?" && h[3..] == p;
    SplitNoSep(p, '&');
    assert p[0] == '?' && !StartsWith(p, "uddg=");
    assert UddgValue([p]) == UddgValue([]);
  }

  /** The first piece of a split is a prefix of the string. */
  lemma {:induction false} SplitFirstPrefix(s: string, sep: char)
    ensures StartsWith(s, Split(s, sep)[0])
  {
    if s != [] {
      SplitFirstPrefix(s[1..], sep);
    }
  }

  /** When the first parameter is not `uddg`, both readings agree. */
  lemma UnwrapAgrees(q: string)
    requires !StartsWith(q, "uddg=")
    ensures UnwrapAsWritten("/l/?" + q) == Unwrap("/l/?" + q)
  {
    var h := "/l/?" + q;
    assert h[..4] == "/l/?" && h[3..] == "?" + q && h[4..] == q;
    var parts := Split(q, '&');
    var asWritten := Split("?" + q, '&');
    assert ("?" + q)[1..] == q;
    assert asWritten == [['?'] + parts[0]] + parts[1..];
    SplitFirstPrefix(q, '&');
    assert !StartsWith(parts[0], "uddg=");
    assert asWritten[0][0] == '?';
    assert !StartsWith(asWritten[0], "uddg=");
    assert asWritten[1..] == parts[1..];
  }

  /** The `for part in ...` loop: the first `uddg=` parameter of a `/l/?` link replaces the link. */
  method UnwrapHref(href: string) returns (r: string)
    ensures r == Unwrap(href)
  {
    r := href;
    if !(|href| >= 4 && StartsWith(href, "/l/?")) {
      return;
    }
    var parts := Split(href[4..], '&');
    var j := 0;
    while j < |parts|
      invariant 0 <= j <= |parts|
      invariant UddgValue(parts[j..]) == UddgValue(parts)
    {
      assert parts[j..][1..] == parts[j + 1..];
      assert parts[j..][0] == parts[j];
      if |parts[j]| >= 5 && StartsWith(parts[j], "uddg=") {
        r := Unquote(parts[j][5..]);
        return;
      }
      j := j + 1;
    }
    assert parts[j..] == [];
  }

  function Min(a: int, b: int): int {
    if a < b then a else b
  }

  function Max(a: int, b: int): int {
    if a < b then b else a
  }

  /** The number of links DuckDuckGo keeps: the cap is checked after appending, so at least one when there is one. */
  function DuckDuckGoCount(n: nat, maxResults: int): nat {
    if n == 0 then 0 else Min(n, Max(1, maxResults))
  }

  const SearchAttempts := 3

  /** `DuckDuckGoEngine.search`: the page's links, unwrapped, up to the cap. */
  method DuckDuckGoSearch(maxResults: int, reply: nat -> HttpOutcome<seq<string>>) returns (results: seq<string>)
    ensures Fetched(reply, SearchAttempts).None? ==> results == []
    ensures Fetched(reply, SearchAttempts).Some? ==>
      |results| == DuckDuckGoCount(|Fetched(reply, SearchAttempts).value|, maxResults)
    ensures Fetched(reply, SearchAttempts).Some? ==>
      forall i :: 0 <= i < |results| ==> results[i] == Unwrap(Fetched(reply, SearchAttempts).value[i])
    ensures maxResults >= 1 ==> |results| <= maxResults
  {
    var resp, _, _ := GetWithRetry(SearchAttempts, reply);
    results := [];
    if resp.None? {
      return;
    }
    var hrefs := resp.value;
    var i := 0;
    while i < |hrefs|
      invariant 0 <= i <= |hrefs| && |results| == i
      invariant i == 0 || i < maxResults
      invariant forall j :: 0 <= j < i ==> results[j] == Unwrap(hrefs[j])
    {
      var href := UnwrapHref(hrefs[i]);
      results := results + [href];
      i := i + 1;
      if |results| >= maxResults {
        break;
      }
    }
  }

  // ---------------------------------------------------------------------
  // Bing

  /** Python's `s[:k]`: a negative `k` counts from the end. */
  function SliceTo(s: seq<string>, k: int): (r: seq<string>)
    ensures StartsWithSeq(s, r)
    ensures |r| == if k >= 0 then Min(k, |s|) else Max(0, |s| + k)
  {
    if k >= 0 then s[..Min(k, |s|)] else s[..Max(0, |s| + k)]
  }

  predicate StartsWithSeq(s: seq<string>, prefix: seq<string>) {
    |prefix| <= |s| && s[..|prefix|] == prefix
  }

  /** `BingEngine.search`: the page's links sliced to `max_results`. */
  method BingSearch(maxResults: int, reply: nat -> HttpOutcome<seq<string>>) returns (results: seq<string>)
    ensures Fetched(reply, SearchAttempts).None? ==> results == []
    ensures Fetched(reply, SearchAttempts).Some? ==> results == SliceTo(Fetched(reply, SearchAttempts).value, maxResults)
    ensures maxResults >= 0 ==> |results| <= maxResults
  {
    var resp, _, _ := GetWithRetry(SearchAttempts, reply);
    if resp.None? {
      return [];
    }
    results := SliceTo(resp.value, maxResults);
  }

  // ---------------------------------------------------------------------
  // Google

  /** The `href`s of result blocks that have a link not starting with `/`, in order. */
  function AbsoluteLinks(blocks: seq<Option<string>>): seq<string> {
    if blocks == [] then []
    else
      AbsoluteLinks(blocks[..|blocks| - 1]) + Kept(blocks[|blocks| - 1])
  }

  /** Each result block contributes at most one link. */
  lemma {:induction false} AbsoluteLinksLength(blocks: seq<Option<string>>)
    ensures |AbsoluteLinks(blocks)| <= |blocks|
  {
    if blocks != [] {
      AbsoluteLinksLength(blocks[..|blocks| - 1]);
    }
  }

  /** The link a block contributes: its anchor's href unless that starts with `/`. */
  function Kept(block: Option<string>): (r: seq<string>)
    ensures |r| <= 1
  {
    if block.Some? && !StartsWith(block.value, "/") then [block.value] else []
  }

  /** Every kept link is absolute and comes from a block, in block order. */
  lemma {:induction false} AbsoluteLinksSound(blocks: seq<Option<string>>)
    ensures forall l :: l in AbsoluteLinks(blocks) ==> !StartsWith(l, "/") && Some(l) in blocks
  {
    if blocks != [] {
      var init := blocks[..|blocks| - 1];
      AbsoluteLinksSound(init);
      assert forall b :: b in init ==> b in blocks;
    }
  }

  /** Filtering distributes over concatenation of block lists. */
  lemma {:induction false} AbsoluteLinksAppend(a: seq<Option<string>>, b: seq<Option<string>>)
    ensures AbsoluteLinks(a + b) == AbsoluteLinks(a) + AbsoluteLinks(b)
    decreases |b|
  {
    if b == [] {
      assert a + b == a;
    } else {
      var b', x := b[..|b| - 1], b[|b| - 1];
      assert b == b' + [x] && a + b == (a + b') + [x];
      AbsoluteLinksAppend(a, b');
      AbsoluteLinksSnoc(a + b', x);
      AbsoluteLinksSnoc(b', x);
      ConcatAssoc3(AbsoluteLinks(a), AbsoluteLinks(b'), Kept(x));
    }
  }

  lemma AbsoluteLinksSnoc(blocks: seq<Option<string>>, block: Option<string>)
    ensures AbsoluteLinks(blocks + [block]) == AbsoluteLinks(blocks) + Kept(block)
  {
    assert (blocks + [block])[..|blocks|] == blocks;
  }

  function Take(s: seq<string>, n: int): seq<string> {
    s[..Max(0, Min(n, |s|))]
  }

  /** `GoogleEngine.search`: absolute links up to the cap; the cap is checked after every block. */
  method GoogleSearch(maxResults: int, reply: nat -> HttpOutcome<seq<Option<string>>>) returns (links: seq<string>)
    ensures Fetched(reply, SearchAttempts).None? ==> links == []
    ensures Fetched(reply, SearchAttempts).Some? && maxResults >= 1 ==>
      links == Take(AbsoluteLinks(Fetched(reply, SearchAttempts).value), maxResults)
    ensures Fetched(reply, SearchAttempts).Some? && maxResults < 1 ==>
      var blocks := Fetched(reply, SearchAttempts).value;
      links == AbsoluteLinks(blocks[..Min(1, |blocks|)])
    ensures maxResults >= 1 ==> |links| <= maxResults
  {
    var resp, _, _ := GetWithRetry(SearchAttempts, reply);
    links := [];
    if resp.None? {
      return;
    }
    links := GoogleLinks(resp.value, maxResults);
  }

  /** The block loop of the Google engine: the links of the blocks, stopping once `maxResults` are held. */
  method GoogleLinks(blocks: seq<Option<string>>, maxResults: int) returns (links: seq<string>)
    ensures maxResults >= 1 ==> links == Take(AbsoluteLinks(blocks), maxResults)
    ensures maxResults < 1 ==> links == AbsoluteLinks(blocks[..Min(1, |blocks|)])
  {
    links := [];
    var i := 0;
    // The cap is checked after every block, so it first applies from the second round on.
    while i < |blocks| && (i == 0 || |links| < maxResults)
      invariant 0 <= i <= |blocks|
      invariant links == AbsoluteLinks(blocks[..i])
      invariant i <= 1 || |AbsoluteLinks(blocks[..i - 1])| < maxResults
    {
      var a := blocks[i];
      AbsoluteLinksStep(blocks, i + 1);
      if a.Some? && !StartsWith(a.value, "/") {
        links := links + [a.value];
      }
      i := i + 1;
    }
    if maxResults >= 1 {
      if i > 0 {
        LinksWithinCap(blocks, i, maxResults);
      }
      CapTake(blocks[..i], blocks[i..], maxResults);
      assert blocks[..i] + blocks[i..] == blocks;
    } else {
      GoogleStopsAtFirst(blocks, i, maxResults);
    }
  }

  /** The links of the first `i` blocks: those of the first `i - 1`, then what block `i - 1` contributes. */
  lemma AbsoluteLinksStep(blocks: seq<Option<string>>, i: int)
    requires 0 < i <= |blocks|
    ensures AbsoluteLinks(blocks[..i]) == AbsoluteLinks(blocks[..i - 1]) + Kept(blocks[i - 1])
  {
    assert blocks[..i][..i - 1] == blocks[..i - 1];
  }

  /** Below the cap before the last block, at most at the cap after it. */
  lemma LinksWithinCap(blocks: seq<Option<string>>, i: int, maxResults: int)
    requires maxResults >= 1 && 0 < i <= |blocks|
    requires i == 1 || |AbsoluteLinks(blocks[..i - 1])| < maxResults
    ensures |AbsoluteLinks(blocks[..i])| <= maxResults
  {
    AbsoluteLinksStep(blocks, i);
    if i == 1 {
      assert blocks[..0] == [];
    }
  }

  /** Links held at the cap, or all of them, are the capped links of the whole list. */
  lemma CapTake(a: seq<Option<string>>, b: seq<Option<string>>, maxResults: int)
    requires maxResults >= 1 && |AbsoluteLinks(a)| <= maxResults
    requires b != [] ==> |AbsoluteLinks(a)| == maxResults
    ensures AbsoluteLinks(a) == Take(AbsoluteLinks(a + b), maxResults)
  {
    AbsoluteLinksAppend(a, b);
    if b == [] {
      assert a + b == a;
    }
  }

  /** With a cap below one, the block loop stops after the first block. */
  lemma GoogleStopsAtFirst(blocks: seq<Option<string>>, i: int, maxResults: int)
    requires maxResults < 1 && 0 <= i <= |blocks|
    requires i <= 1 || |AbsoluteLinks(blocks[..i - 1])| < maxResults
    requires i < |blocks| ==> i > 0
    ensures i == Min(1, |blocks|)
  {
  }
}
