/**
 * File-name derivation: `sanitize_filename`, the parts of `pathlib` the
 * downloader uses (`name`, `suffix`, `stem`, `with_suffix`, the `/`
 * operator), the path component of `urllib.parse.urlparse`, and the
 * destination that `download_with_retry` builds from a URL.
 *
 * A path is its list of components: `pathlib` drops empty components and
 * `.` components, so `Path("out") / "."` is `Path("out")`.
 */
module Paths {
  import opened Wrappers
  import opened Text
  import opened Extensions

  type Path = seq<string>

  datatype PathError = InvalidSuffix(suffix: string) | EmptyName

  /** The pieces of a `/`-separated string that `pathlib` keeps. */
  function KeptParts(parts: seq<string>): seq<string> {
    if parts == [] then []
    else (if parts[0] == "" || parts[0] == "." then [] else [parts[0]]) + KeptParts(parts[1..])
  }

  function Components(s: string): Path {
    KeptParts(Split(s, '/'))
  }

  /** `Path.name`: the last component, or "" for a path without components. */
  function Name(p: Path): string {
    if p == [] then "" else p[|p| - 1]
  }

  function PathName(s: string): string {
    Name(Components(s))
  }

  /** `p / name`. */
  function Child(p: Path, name: string): Path {
    p + Components(name)
  }

  /** `Path.suffix`: from the last dot, when that dot is neither first nor last. */
  function Suffix(n: string): (e: string)
    ensures e == [] || (|e| >= 2 && e[0] == '.' && '.' !in e[1..])
  {
    var i := RFind(n, '.');
    if 0 < i < |n| - 1 then n[i..] else ""
  }

  /** `Path.stem`: the name without its suffix. */
  function Stem(n: string): (r: string)
    ensures r + Suffix(n) == n
    ensures n != [] ==> r != []
  {
    var i := RFind(n, '.');
    if 0 < i < |n| - 1 then n[..i] else n
  }

  /** The suffixes `with_suffix` accepts. */
  predicate ValidSuffix(e: string) {
    '/' !in e && (e == [] || (e[0] == '.' && e != "."))
  }

  /** A dot followed by at least one character that is neither a dot nor a slash. */
  predicate SimpleSuffix(e: string) {
    |e| >= 2 && e[0] == '.' && '.' !in e[1..] && '/' !in e
  }

  /** `with_suffix` on a non-empty name: the stem followed by the new suffix. */
  function WithSuffix(n: string, e: string): string
    requires n != []
  {
    Stem(n) + e
  }

  /** `Path.with_suffix`: raises `ValueError` on an invalid suffix or an empty name. */
  function PathWithSuffix(p: Path, e: string): (r: Result<Path, PathError>)
    ensures !ValidSuffix(e) ==> r == Failure(InvalidSuffix(e))
    ensures ValidSuffix(e) && Name(p) == "" ==> r == Failure(EmptyName)
    ensures r.Success? ==> p != [] && |r.value| == |p| && r.value[..|p| - 1] == p[..|p| - 1]
  {
    if !ValidSuffix(e) then Failure(InvalidSuffix(e))
    else if Name(p) == "" then Failure(EmptyName)
    else Success(p[..|p| - 1] + [WithSuffix(p[|p| - 1], e)])
  }

  /** The last occurrence of `c` is the one at `i`. */
  lemma RFindAt(s: string, c: char, i: int)
    requires 0 <= i < |s| && s[i] == c && c !in s[i + 1..]
    ensures RFind(s, c) == i
  {
    var j := RFind(s, c);
    assert s[i] in s;
    forall k | i < k < |s| ensures s[k] != c {
      assert s[k] == s[i + 1..][k - i - 1];
    }
    forall k | j < k < |s| ensures s[k] != c {
      assert s[k] == s[j + 1..][k - j - 1];
    }
  }

  /** Replacing a simple suffix leaves the stem and reads back the new suffix. */
  lemma WithSuffixRoundTrip(n: string, e: string)
    requires n != [] && SimpleSuffix(e)
    ensures Suffix(WithSuffix(n, e)) == e
    ensures Stem(WithSuffix(n, e)) == Stem(n)
  {
    var m := WithSuffix(n, e);
    var k := |Stem(n)|;
    assert m[k] == '.';
    assert m[k + 1..] == e[1..];
    RFindAt(m, '.', k);
    assert 0 < k < |m| - 1;
    assert m[k..] == e && m[..k] == Stem(n);
  }

  /** A name with a simple suffix put in its place is still a single component other than `.`. */
  lemma WithSuffixComponent(n: string, e: string)
    requires n != [] && '/' !in n && SimpleSuffix(e)
    ensures WithSuffix(n, e) != "." && Components(WithSuffix(n, e)) == [WithSuffix(n, e)]
  {
    var m := WithSuffix(n, e);
    var k := |Stem(n)|;
    assert |m| >= 3;
    forall i | 0 <= i < |m| ensures m[i] != '/' {
      if i < k {
        assert m[i] == n[i];
      } else {
        assert m[i] == e[i - k];
      }
    }
    SingleComponent(m);
  }

  /** The temporary name of `download_file` is the destination name followed by `.part`. */
  lemma PartName(n: string)
    requires n != [] && '/' !in n
    ensures ValidSuffix(Suffix(n) + ".part")
    ensures WithSuffix(n, Suffix(n) + ".part") == n + ".part"
  {
    var e := Suffix(n);
    var t := e + ".part";
    forall i | 0 <= i < |t| ensures t[i] != '/' {
      if i < |e| {
        assert e[i] == n[|Stem(n)| + i];
      }
    }
    assert t[0] == '.' && t != ".";
    assert Stem(n) + t == (Stem(n) + e) + ".part";
  }

  lemma {:induction false} KeptPartsAppend(a: seq<string>, b: seq<string>)
    ensures KeptParts(a + b) == KeptParts(a) + KeptParts(b)
  {
    if a == [] {
      assert a + b == b;
    } else {
      assert (a + b)[0] == a[0];
      assert (a + b)[1..] == a[1..] + b;
      KeptPartsAppend(a[1..], b);
    }
  }

  /** A name without slashes that is neither empty nor `.` is one component. */
  lemma SingleComponent(n: string)
    requires n != "" && n != "." && '/' !in n
    ensures Components(n) == [n]
  {
    SplitNoSep(n, '/');
    assert KeptParts([n]) == [n] + KeptParts([]);
  }

  /** The name of `dir/n` is `n`. */
  lemma PathNameChild(dir: string, n: string)
    requires n != "" && n != "." && '/' !in n
    ensures PathName(dir + "/" + n) == n
  {
    SplitSnoc(dir, n, '/');
    KeptPartsAppend(Split(dir, '/'), [n]);
    assert KeptParts([n]) == [n] + KeptParts([]);
  }

  // ---------------------------------------------------------------------
  // sanitize_filename

  /** The characters `sanitize_filename` keeps: alphanumerics, space, `.`, `_`, `-`. */
  predicate IsFilenameChar(c: char) {
    IsAsciiAlnum(c) || c == ' ' || c == '.' || c == '_' || c == '-'
  }

  predicate AllFilenameChars(s: string) {
    forall i :: 0 <= i < |s| ==> IsFilenameChar(s[i])
  }

  function KeepChars(s: string): string {
    if s == [] then [] else (if IsFilenameChar(s[0]) then [s[0]] else []) + KeepChars(s[1..])
  }

  lemma {:induction false} KeepCharsSubsequence(s: string)
    ensures IsSubsequence(KeepChars(s), s)
    ensures AllFilenameChars(KeepChars(s))
  {
    if s != [] {
      KeepCharsSubsequence(s[1..]);
      var k := KeepChars(s[1..]);
      if IsFilenameChar(s[0]) {
        assert KeepChars(s) == [s[0]] + k;
        assert ([s[0]] + k)[1..] == k;
      } else {
        assert KeepChars(s) == k;
      }
    }
  }

  /** Every accepted character is kept as often as it occurs; every other one is dropped. */
  lemma {:induction false} KeepCharsCounts(s: string, c: char)
    ensures multiset(KeepChars(s))[c] == if IsFilenameChar(c) then multiset(s)[c] else 0
  {
    if s != [] {
      KeepCharsCounts(s[1..], c);
      assert s == [s[0]] + s[1..];
      assert multiset(s) == multiset{s[0]} + multiset(s[1..]);
    }
  }

  lemma {:induction false} KeepCharsIdentity(s: string)
    requires AllFilenameChars(s)
    ensures KeepChars(s) == s
  {
    if s != [] {
      KeepCharsIdentity(s[1..]);
    }
  }

  /** `sanitize_filename`: the kept characters with trailing whitespace removed. */
  function Sanitize(s: string): (r: string)
    ensures IsSubsequence(r, s)
    ensures AllFilenameChars(r)
    ensures r == [] || r[|r| - 1] != ' '
  {
    KeepCharsSubsequence(s);
    var k := KeepChars(s);
    RStripRemovesSpaces(k);
    PrefixIsSubsequence(k, |RStrip(k)|, s);
    RStrip(k)
  }

  /** Sanitizing loses nothing but rejected characters and trailing spaces. */
  lemma SanitizeKeeps(s: string)
    ensures StartsWith(KeepChars(s), Sanitize(s))
    ensures forall i :: |Sanitize(s)| <= i < |KeepChars(s)| ==> KeepChars(s)[i] == ' '
  {
    var k := KeepChars(s);
    KeepCharsSubsequence(s);
    RStripRemovesSpaces(k);
    forall i | |Sanitize(s)| <= i < |k| ensures k[i] == ' ' {
      assert IsFilenameChar(k[i]) && IsSpace(k[i]);
    }
  }

  /** A name is left unchanged by `sanitize_filename` exactly when it is already clean. */
  lemma SanitizeFixedPoint(s: string)
    ensures Sanitize(s) == s <==> AllFilenameChars(s) && (s == [] || s[|s| - 1] != ' ')
  {
    if AllFilenameChars(s) && (s == [] || s[|s| - 1] != ' ') {
      KeepCharsIdentity(s);
      assert s == [] || !IsSpace(s[|s| - 1]);
    }
  }

  lemma SanitizeIdempotent(s: string)
    ensures Sanitize(Sanitize(s)) == Sanitize(s)
  {
    SanitizeFixedPoint(Sanitize(s));
  }

  // ---------------------------------------------------------------------
  // urlparse(url).path

  /** `urlsplit` strips leading C0 control characters and spaces. */
  function LStripControl(s: string): (r: string)
    ensures |r| <= |s| && r == s[|s| - |r|..]
    ensures r == [] || r[0] as int > 0x20
  {
    if |s| > 0 && s[0] as int <= 0x20 then LStripControl(s[1..]) else s
  }

  predicate IsUnsafeUrlChar(c: char) {
    c == '\t' || c == '\r' || c == '\n'
  }

  /** `urlsplit` removes tab, carriage return and line feed anywhere. */
  function RemoveUnsafe(s: string): string {
    if s == [] then [] else (if IsUnsafeUrlChar(s[0]) then [] else [s[0]]) + RemoveUnsafe(s[1..])
  }

  lemma {:induction false} RemoveUnsafeIdentity(s: string)
    requires forall i :: 0 <= i < |s| ==> !IsUnsafeUrlChar(s[i])
    ensures RemoveUnsafe(s) == s
  {
    if s != [] {
      RemoveUnsafeIdentity(s[1..]);
    }
  }

  predicate IsSchemeChar(c: char) {
    IsAsciiAlnum(c) || c == '+' || c == '-' || c == '.'
  }

  /** The scheme (lower-cased) and the rest: a scheme starts with an ASCII letter and ends at the first `:`. */
  function SplitScheme(s: string): (string, string) {
    var i := Find(s, ':');
    if i > 0 && IsAsciiAlpha(s[0]) && forall j :: 0 <= j < i ==> IsSchemeChar(s[j])
    then (Lower(s[..i]), s[i + 1..])
    else ("", s)
  }

  predicate EndsNetloc(c: char) {
    c == '/' || c == '?' || c == '#'
  }

  /** The length of the network location: up to the first `/`, `?` or `#`. */
  function NetlocLength(s: string): (n: nat)
    ensures n <= |s|
    ensures forall j :: 0 <= j < n ==> !EndsNetloc(s[j])
    ensures n < |s| ==> EndsNetloc(s[n])
  {
    if s == [] || EndsNetloc(s[0]) then 0 else 1 + NetlocLength(s[1..])
  }

  /** The schemes for which `urlparse` splits `;params` off the last path segment. */
  const UsesParams: seq<string> := ["", "ftp", "hdl", "prospero", "http", "imap", "https", "shttp",
    "rtsp", "rtsps", "rtspu", "sip", "sips", "mms", "sftp", "tel"]

  /** `_splitparams`: the path before the first `;` of its last segment. */
  function StripParams(u: string): (r: string)
    ensures StartsWith(u, r)
  {
    if '/' in u then
      var j := RFind(u, '/');
      var k := Find(u[j..], ';');
      if k < 0 then u else u[..j + k]
    else Before(u, ';')
  }

  /** The path after scheme and network location have been split off. */
  function PathOf(scheme: string, rest: string): (p: string)
    ensures '?' !in p && '#' !in p
  {
    var afterNetloc := if StartsWith(rest, "//") then rest[2..][NetlocLength(rest[2..])..] else rest;
    var noQuery := Before(Before(afterNetloc, '#'), '?');
    if scheme in UsesParams && ';' in noQuery then
      var r := StripParams(noQuery);
      assert forall c :: c in r ==> c in noQuery;
      r
    else noQuery
  }

  /** `urlparse(url).path`. */
  function UrlPath(url: string): (p: string)
    ensures '?' !in p && '#' !in p
  {
    var split := SplitScheme(RemoveUnsafe(LStripControl(url)));
    PathOf(split.0, split.1)
  }

  lemma FindAt(s: string, c: char, i: int)
    requires 0 <= i < |s| && s[i] == c && c !in s[..i]
    ensures Find(s, c) == i
  {
    var j := Find(s, c);
    assert s[i] in s;
    forall k | 0 <= k < i ensures s[k] != c {
      assert s[k] == s[..i][k];
    }
    forall k | 0 <= k < j ensures s[k] != c {
      assert s[k] == s[..j][k];
    }
  }

  lemma NetlocLengthAt(host: string, path: string)
    requires forall j :: 0 <= j < |host| ==> !EndsNetloc(host[j])
    requires path != [] && path[0] == '/'
    ensures NetlocLength(host + path) == |host|
  {
    var s := host + path;
    assert forall j :: 0 <= j < |host| ==> s[j] == host[j];
    assert s[|host|] == '/';
  }

  /** A plain address: no control characters, no separators in the host, no query, fragment or parameters. */
  predicate PlainUrlParts(host: string, path: string) {
    && (forall j :: 0 <= j < |host| ==> !EndsNetloc(host[j]) && host[j] as int > 0x20)
    && path != [] && path[0] == '/'
    && (forall j :: 0 <= j < |path| ==> path[j] as int > 0x20)
    && '?' !in path && '#' !in path && ';' !in path
  }

  /** `urlparse` reads back the path of a plain `https` address. */
  lemma UrlPathOfPlainUrl(host: string, path: string)
    requires PlainUrlParts(host, path)
    ensures UrlPath("https://" + host + path) == path
  {
    var url := "https://" + host + path;
    PlainUrlIsClean(host, path);
    PlainUrlScheme(host, path);
    PlainUrlRest(host, path);
  }

  lemma PlainUrlIsClean(host: string, path: string)
    requires PlainUrlParts(host, path)
    ensures RemoveUnsafe(LStripControl("https://" + host + path)) == "https://" + host + path
  {
    var url := "https://" + host + path;
    assert url[0] == 'h';
    forall i | 0 <= i < |url| ensures !IsUnsafeUrlChar(url[i]) {
      if i >= 8 + |host| {
        assert url[i] == path[i - 8 - |host|];
      } else if i >= 8 {
        assert url[i] == host[i - 8];
      }
    }
    RemoveUnsafeIdentity(url);
  }

  lemma PlainUrlScheme(host: string, path: string)
    ensures SplitScheme("https://" + host + path) == ("https", "//" + host + path)
  {
    var url := "https://" + host + path;
    assert url[..5] == "https" && url[5] == ':';
    FindAt(url, ':', 5);
    assert Lower("https") == "https";
    assert url[6..] == "//" + host + path;
  }

  lemma PlainUrlRest(host: string, path: string)
    requires PlainUrlParts(host, path)
    ensures PathOf("https", "//" + host + path) == path
  {
    var rest := "//" + host + path;
    assert StartsWith(rest, "//") && rest[2..] == host + path;
    assert (host + path)[NetlocLength(host + path)..] == path by {
      NetlocLengthAt(host, path);
    }
    PathOfPlainPath("https", rest, path);
  }

  /** With the network location gone, a path without query, fragment or parameters is the path. */
  lemma PathOfPlainPath(scheme: string, rest: string, path: string)
    requires StartsWith(rest, "//") && rest[2..][NetlocLength(rest[2..])..] == path
    requires '?' !in path && '#' !in path && ';' !in path
    ensures PathOf(scheme, rest) == path
  {
    assert Before(path, '#') == path;
    assert Before(path, '?') == path;
  }

  // ---------------------------------------------------------------------
  // The destination of download_with_retry

  /** A fresh `uuid4().hex`: 32 lower-case hexadecimal digits. */
  predicate IsHexToken(s: string) {
    |s| == 32 && forall i :: 0 <= i < |s| ==> '0' <= s[i] <= '9' || 'a' <= s[i] <= 'f'
  }

  type Token = s: string | IsHexToken(s) witness "00000000000000000000000000000000"

  /** `Path(urlparse(url).path).suffix.lower()`. */
  function UrlSuffix(url: string): string {
    Lower(Suffix(PathName(UrlPath(url))))
  }

  /** `sanitize_filename(Path(url).stem) or uuid.uuid4().hex`, as written. */
  function NameAsWritten(url: string, token: Token): (r: string)
    ensures r != [] && '/' !in r
  {
    var n := Sanitize(Stem(PathName(url)));
    FilenameCharsNoSlash(n);
    TokenNoSlash(token);
    if n == [] then token else n
  }

  lemma FilenameCharsNoSlash(s: string)
    requires AllFilenameChars(s)
    ensures '/' !in s
  {
  }

  lemma TokenNoSlash(token: Token)
    ensures '/' !in token && token != [] && token != "."
  {
  }

  /**
   * The name the destination is built from: the sanitized stem, or the token
   * when that is empty or is `.` (which `pathlib` would drop).
   */
  function BaseName(url: string, token: Token): (r: string)
    ensures r != [] && r != "." && '/' !in r
    ensures Components(r) == [r]
    ensures r == Sanitize(Stem(PathName(url))) || r == token
  {
    var n := Sanitize(Stem(PathName(url)));
    FilenameCharsNoSlash(n);
    TokenNoSlash(token);
    var r := if n == [] || n == "." then token else n;
    SingleComponent(r);
    r
  }

  /** The table's keys are simple suffixes such as `.pdf`. */
  predicate SimpleKeys(t: Table) {
    forall i :: 0 <= i < |t| ==> SimpleSuffix(t[i].0)
  }

  lemma KeyIsSimple(t: Table, k: string)
    requires SimpleKeys(t) && k in Keys(t)
    ensures SimpleSuffix(k)
  {
    var i :| 0 <= i < |t| && Keys(t)[i] == k;
  }

  /** The destination path built by `download_with_retry` (lines 184-188), as written. */
  function DestinationAsWritten(outdir: Path, url: string, allowed: Table, token: Token): Result<Path, PathError> {
    var dest := Child(outdir, NameAsWritten(url, token));
    var ext := UrlSuffix(url);
    if ext in Keys(allowed) then PathWithSuffix(dest, ext) else Success(dest)
  }

  /** The destination path with the `.` name replaced by the token: always a file directly inside `outdir`. */
  function Destination(outdir: Path, url: string, allowed: Table, token: Token): (r: Path)
    requires SimpleKeys(allowed)
    ensures |r| == |outdir| + 1 && r[..|outdir|] == outdir
    ensures var n := r[|outdir|]; n != [] && n != "." && Components(n) == [n]
  {
    var name := BaseName(url, token);
    var ext := UrlSuffix(url);
    if ext in Keys(allowed) then
      KeyIsSimple(allowed, ext);
      WithSuffixComponent(name, ext);
      outdir + [WithSuffix(name, ext)]
    else outdir + [name]
  }

  /** With an allowed URL suffix, the destination is the base name given that suffix. */
  lemma DestinationWithSuffix(outdir: Path, url: string, allowed: Table, token: Token)
    requires SimpleKeys(allowed) && UrlSuffix(url) in Keys(allowed)
    ensures Destination(outdir, url, allowed, token) == outdir + [WithSuffix(BaseName(url, token), UrlSuffix(url))]
  {
  }

  /** The final name carries the URL's suffix exactly when that suffix is allowed. */
  lemma DestinationSuffix(outdir: Path, url: string, allowed: Table, token: Token)
    requires SimpleKeys(allowed)
    ensures var n := Name(Destination(outdir, url, allowed, token));
      && (UrlSuffix(url) in Keys(allowed) ==> Suffix(n) == UrlSuffix(url) && Stem(n) == Stem(BaseName(url, token)))
      && (UrlSuffix(url) !in Keys(allowed) ==> n == BaseName(url, token))
  {
    var name := BaseName(url, token);
    if UrlSuffix(url) in Keys(allowed) {
      KeyIsSimple(allowed, UrlSuffix(url));
      WithSuffixRoundTrip(name, UrlSuffix(url));
    }
  }

  /** Apart from the `.` name, the corrected destination is the one the source builds. */
  lemma DestinationAgrees(outdir: Path, url: string, allowed: Table, token: Token)
    requires SimpleKeys(allowed)
    requires NameAsWritten(url, token) != "."
    ensures DestinationAsWritten(outdir, url, allowed, token) == Success(Destination(outdir, url, allowed, token))
  {
    var name := NameAsWritten(url, token);
    assert name == BaseName(url, token);
    SingleComponent(name);
    var ext := UrlSuffix(url);
    assert Child(outdir, name) == outdir + [name];
    if ext in Keys(allowed) {
      KeyIsSimple(allowed, ext);
    }
  }

  /** Every `ALL_EXTENSIONS` key is a simple suffix. */
  lemma AllExtensionsSimpleKeys()
    ensures SimpleKeys(AllExtensions)
  {
    forall i | 0 <= i < |AllExtensions| ensures SimpleSuffix(AllExtensions[i].0) {
      var k := AllExtensions[i].0;
      assert |k| >= 2 && k[0] == '.';
      assert forall j :: 1 <= j < |k| ==> 'a' <= k[j] <= 'z';
    }
  }

  /** An allow-list drawn from `ALL_EXTENSIONS` has simple keys. */
  lemma SubTableSimpleKeys(t: Table)
    requires SubTable(t)
    ensures SimpleKeys(t)
  {
    AllExtensionsSimpleKeys();
    forall i | 0 <= i < |t| ensures SimpleSuffix(t[i].0) {
      KeyIsSimple(AllExtensions, t[i].0);
    }
  }

  /** For a plain `https` address, `Path(url).name` and the parsed path's name agree. */
  lemma PlainUrlName(host: string, n: string)
    requires PlainUrlParts(host, "/" + n) && n != "" && n != "." && '/' !in n
    ensures PathName("https://" + host + "/" + n) == n
    ensures UrlSuffix("https://" + host + "/" + n) == Lower(Suffix(n))
  {
    var url := "https://" + host + "/" + n;
    PathNameChild("https://" + host, n);
    assert UrlPath(url) == "/" + n by {
      UrlPathOfPlainUrl(host, "/" + n);
      ConcatAssoc3("https://" + host, "/", n);
    }
    assert PathName("/" + n) == n by {
      PathNameChild("", n);
      assert "" + "/" == "/";
    }
  }

  /** A name whose stem is `.`: the stem of `..pdf` is `.`, which `sanitize_filename` keeps. */
  lemma DotStemName(host: string, n: string, token: Token)
    requires PlainUrlParts(host, "/" + n)
    requires |n| == 5 && n[0] == '.' && n[1] == '.' && n[2] == 'p' && n[3] == 'd' && n[4] == 'f'
    ensures NameAsWritten("https://" + host + "/" + n, token) == n[..1]
    ensures UrlSuffix("https://" + host + "/" + n) == n[1..]
  {
    PlainUrlName(host, n);
    DotStemParts(n);
  }

  lemma DotStemParts(n: string)
    requires |n| == 5 && n[0] == '.' && n[1] == '.' && n[2] == 'p' && n[3] == 'd' && n[4] == 'f'
    ensures Stem(n) == n[..1] && Lower(Suffix(n)) == n[1..] && Sanitize(n[..1]) == n[..1]
    ensures Stem(n) == "." && Sanitize(".") == "."
  {
    RFindAt(n, '.', 1);
    assert Suffix(n) == n[1..];
    assert n[..1] == ".";
    SanitizeFixedPoint(n[..1]);
    assert Lower(n[1..]) == n[1..];
  }

  /** `.` has no components. */
  lemma DotComponents(d: string)
    requires |d| == 1 && d[0] == '.'
    ensures Components(d) == []
  {
    SplitNoSep(d, '/');
    assert KeptParts([d]) == [] + KeptParts([]);
  }

  /**
   * As written, a URL whose last segment is `..pdf` has as destination the
   * output directory itself with `.pdf` put in place of its suffix: beside
   * the output directory rather than inside it, and an error when the output
   * directory is the current directory (a path without components).
   */
  lemma DotStemEscapesOutdir(outdir: Path, host: string, n: string, allowed: Table, token: Token)
    requires PlainUrlParts(host, "/" + n)
    requires |n| == 5 && n[0] == '.' && n[1] == '.' && n[2] == 'p' && n[3] == 'd' && n[4] == 'f'
    requires n[1..] in Keys(allowed)
    ensures DestinationAsWritten(outdir, "https://" + host + "/" + n, allowed, token) == PathWithSuffix(outdir, n[1..])
    ensures outdir == [] ==> DestinationAsWritten(outdir, "https://" + host + "/" + n, allowed, token) == Failure(EmptyName)
    ensures var r := DestinationAsWritten(outdir, "https://" + host + "/" + n, allowed, token);
      r.Success? ==> |r.value| == |outdir| && r.value[..|outdir| - 1] == outdir[..|outdir| - 1]
  {
    DotStemAsWritten(outdir, host, n, allowed, token);
    PdfSuffixValid(n[1..]);
  }

  lemma PdfSuffixValid(e: string)
    requires |e| == 4 && e[0] == '.' && e[1] == 'p' && e[2] == 'd' && e[3] == 'f'
    ensures ValidSuffix(e)
  {
    assert e == [e[0], e[1], e[2], e[3]];
  }

  lemma DotStemAsWritten(outdir: Path, host: string, n: string, allowed: Table, token: Token)
    requires PlainUrlParts(host, "/" + n)
    requires |n| == 5 && n[0] == '.' && n[1] == '.' && n[2] == 'p' && n[3] == 'd' && n[4] == 'f'
    requires n[1..] in Keys(allowed)
    ensures DestinationAsWritten(outdir, "https://" + host + "/" + n, allowed, token) == PathWithSuffix(outdir, n[1..])
  {
    DotStemName(host, n, token);
    DotComponents(n[..1]);
    assert Child(outdir, n[..1]) == outdir;
  }

  /** The corrected destination of the same URL is the token with the suffix, inside the output directory. */
  lemma DotStemStaysInside(outdir: Path, host: string, n: string, allowed: Table, token: Token)
    requires PlainUrlParts(host, "/" + n)
    requires |n| == 5 && n[0] == '.' && n[1] == '.' && n[2] == 'p' && n[3] == 'd' && n[4] == 'f'
    requires SimpleKeys(allowed) && n[1..] in Keys(allowed)
    ensures Destination(outdir, "https://" + host + "/" + n, allowed, token) == outdir + [token + n[1..]]
  {
    var url := "https://" + host + "/" + n;
    assert Sanitize(Stem(PathName(url))) == "." && UrlSuffix(url) == n[1..] by {
      PlainUrlName(host, n);
      DotStemParts(n);
    }
    TokenDestination(outdir, url, allowed, token);
  }

  /**
   * When the sanitized stem is empty or `.`, the token names the download;
   * with an allowed URL suffix the destination is the token with that suffix.
   */
  lemma TokenDestination(outdir: Path, url: string, allowed: Table, token: Token)
    requires SimpleKeys(allowed) && UrlSuffix(url) in Keys(allowed)
    requires Sanitize(Stem(PathName(url))) == "" || Sanitize(Stem(PathName(url))) == "."
    ensures Destination(outdir, url, allowed, token) == outdir + [token + UrlSuffix(url)]
  {
    DestinationWithSuffix(outdir, url, allowed, token);
    TokenStem(token);
  }

  /**
   * A stem of `..` is kept, as in the code: for `https://host/...xyz` with
   * `.xyz` not allowed, the destination is `outdir / ".."`, the output
   * directory's parent. Only the `.part` file and suffixed names are ever
   * written there, and those lie inside the output directory.
   */
  lemma DotDotStemIsParent(outdir: Path, host: string, n: string, allowed: Table, token: Token)
    requires PlainUrlParts(host, "/" + n)
    requires |n| == 6 && n[0] == '.' && n[1] == '.' && n[2] == '.' && n[3] == 'x' && n[4] == 'y' && n[5] == 'z'
    requires SimpleKeys(allowed) && n[2..] !in Keys(allowed)
    ensures Destination(outdir, "https://" + host + "/" + n, allowed, token) == outdir + [".."]
  {
    var url := "https://" + host + "/" + n;
    assert Sanitize(Stem(PathName(url))) == ".." && UrlSuffix(url) == n[2..] by {
      PlainUrlName(host, n);
      DotDotStemParts(n);
    }
    DestinationOfName(outdir, url, allowed, token, "..");
  }

  /** With a URL suffix that is not allowed, the destination is the sanitized stem itself, when that is a usable name. */
  lemma DestinationOfName(outdir: Path, url: string, allowed: Table, token: Token, m: string)
    requires SimpleKeys(allowed) && UrlSuffix(url) !in Keys(allowed)
    requires Sanitize(Stem(PathName(url))) == m && m != "" && m != "."
    ensures Destination(outdir, url, allowed, token) == outdir + [m]
  {
  }

  lemma DotDotStemParts(n: string)
    requires |n| == 6 && n[0] == '.' && n[1] == '.' && n[2] == '.' && n[3] == 'x' && n[4] == 'y' && n[5] == 'z'
    ensures Stem(n) == ".." && Lower(Suffix(n)) == n[2..] && Sanitize("..") == ".."
  {
    RFindAt(n, '.', 2);
    assert Suffix(n) == n[2..];
    assert n[..2] == "..";
    SanitizeFixedPoint(n[..2]);
    assert Lower(n[2..]) == n[2..];
  }

  /** A token has no dot, so it is its own stem. */
  lemma TokenStem(token: Token)
    ensures Stem(token) == token
  {
    forall i | 0 <= i < |token| ensures token[i] != '.' {
    }
  }

  /** Two different documents can be given the same destination: `a.v1.pdf` and `a.v2.pdf` both become `a.pdf`. */
  lemma SameDestination(outdir: Path, host: string, n1: string, n2: string, allowed: Table, token: Token)
    requires PlainUrlParts(host, "/" + n1) && PlainUrlParts(host, "/" + n2)
    requires VersionedPdf(n1) && VersionedPdf(n2)
    requires SimpleKeys(allowed) && n1[4..] in Keys(allowed)
    ensures Destination(outdir, "https://" + host + "/" + n1, allowed, token) == outdir + [n1[..1] + n1[4..]]
    ensures Destination(outdir, "https://" + host + "/" + n2, allowed, token) == outdir + [n1[..1] + n1[4..]]
  {
    VersionedPdfSameName(n1, n2);
    VersionedPdfDestination(outdir, host, n1, allowed, token);
    VersionedPdfDestination(outdir, host, n2, allowed, token);
  }

  lemma VersionedPdfSameName(n1: string, n2: string)
    requires VersionedPdf(n1) && VersionedPdf(n2)
    ensures n1[4..] == n2[4..] && n1[..1] + n1[4..] == n2[..1] + n2[4..]
  {
    assert n1[4..] == n2[4..];
    assert n1[..1] == n2[..1];
  }

  /** `a.vN.pdf` for a digit `N`. */
  predicate VersionedPdf(n: string) {
    |n| == 8 && n[0] == 'a' && n[1] == '.' && n[2] == 'v' && '0' <= n[3] <= '9'
    && n[4] == '.' && n[5] == 'p' && n[6] == 'd' && n[7] == 'f'
  }

  lemma VersionedPdfDestination(outdir: Path, host: string, n: string, allowed: Table, token: Token)
    requires PlainUrlParts(host, "/" + n) && VersionedPdf(n)
    requires SimpleKeys(allowed) && n[4..] in Keys(allowed)
    ensures Destination(outdir, "https://" + host + "/" + n, allowed, token) == outdir + [n[..1] + n[4..]]
  {
    var url := "https://" + host + "/" + n;
    VersionedPdfNames(host, n, token);
    DestinationWithSuffix(outdir, url, allowed, token);
    VersionedPdfWithSuffix(n);
  }

  lemma VersionedPdfWithSuffix(n: string)
    requires VersionedPdf(n)
    ensures WithSuffix(n[..4], n[4..]) == n[..1] + n[4..]
  {
    RFindAt(n[..4], '.', 1);
  }

  lemma VersionedPdfNames(host: string, n: string, token: Token)
    requires PlainUrlParts(host, "/" + n) && VersionedPdf(n)
    ensures BaseName("https://" + host + "/" + n, token) == n[..4]
    ensures UrlSuffix("https://" + host + "/" + n) == n[4..]
  {
    PlainUrlName(host, n);
    VersionedPdfParts(n);
  }

  lemma VersionedPdfParts(n: string)
    requires VersionedPdf(n)
    ensures Stem(n) == n[..4] && Lower(Suffix(n)) == n[4..] && Sanitize(n[..4]) == n[..4]
  {
    RFindAt(n, '.', 4);
    assert Suffix(n) == n[4..];
    assert Lower(n[4..]) == n[4..];
    SanitizeFixedPoint(n[..4]);
  }
}
