/**
 * Downloading one document: `download_file` (stream to a `.part` file, sniff
 * its MIME type, then keep it under a verified name or delete it) and
 * `download_with_retry` (destination, bounded attempts, doubling pauses).
 *
 * The file system is the set of paths that exist. What one attempt sees of
 * the network and of libmagic is a `Fetch`: the request failed, the body
 * stream failed part-way, or the body arrived and was sniffed as a MIME type.
 */
module Download {
  import opened Wrappers
  import opened Text
  import opened Extensions
  import opened Paths
  import opened Retry

  class FileSystem {
    var files: set<Path>

    constructor (initial: set<Path>)
      ensures files == initial
    {
      files := initial;
    }

    /** `open(p, 'wb')`: creates the file, or truncates it. */
    method Create(p: Path)
      modifies this
      ensures files == old(files) + {p}
    {
      files := files + {p};
    }

    /** `p.unlink(missing_ok=True)`. */
    method Unlink(p: Path)
      modifies this
      ensures files == old(files) - {p}
    {
      files := files - {p};
    }

    /** `src.rename(dst)`: an existing `dst` is replaced. */
    method Rename(src: Path, dst: Path)
      requires src in files
      modifies this
      ensures files == old(files) - {src} + {dst}
    {
      files := files - {src} + {dst};
    }
  }

  datatype Fetch = RequestError | StreamError | Body(mime: string)

  /** `dest.with_suffix(e)` on a path with a non-empty name. */
  function ReplaceSuffix(dest: Path, e: string): (r: Path)
    requires Name(dest) != ""
    ensures |r| == |dest| && r[..|dest| - 1] == dest[..|dest| - 1]
  {
    dest[..|dest| - 1] + [WithSuffix(Name(dest), e)]
  }

  /** `dest.with_suffix(dest.suffix + '.part')`: the destination's name followed by `.part`. */
  function TmpPath(dest: Path): (r: Path)
    requires Name(dest) != ""
    ensures r == dest[..|dest| - 1] + [Name(dest) + ".part"]
  {
    var n := Name(dest);
    assert Stem(n) + (Suffix(n) + ".part") == (Stem(n) + Suffix(n)) + ".part";
    ReplaceSuffix(dest, Suffix(n) + ".part")
  }

  /** `mime.split('/')[0]`. */
  function PrimaryType(mime: string): string {
    Split(mime, '/')[0]
  }

  /** The key of the first entry, in table order, whose MIME type is exactly `mime`. */
  function Adopt(t: Table, mime: string): (r: Option<string>)
    ensures r.Some? ==> exists i :: 0 <= i < |t| && t[i] == (r.value, mime)
  {
    if t == [] then None
    else if t[0].1 == mime then Some(t[0].0)
    else
      var r := Adopt(t[1..], mime);
      assert r.Some? ==> exists i :: 0 <= i < |t[1..]| && t[1..][i] == (r.value, mime);
      r
  }

  lemma {:induction false} AdoptFirst(t: Table, mime: string, i: int)
    requires 0 <= i < |t| && t[i].1 == mime && forall j :: 0 <= j < i ==> t[j].1 != mime
    ensures Adopt(t, mime) == Some(t[i].0)
  {
    if i > 0 {
      AdoptFirst(t[1..], mime, i - 1);
    }
  }

  lemma {:induction false} AdoptNone(t: Table, mime: string)
    requires forall j :: 0 <= j < |t| ==> t[j].1 != mime
    ensures Adopt(t, mime) == None
  {
    if t != [] {
      AdoptNone(t[1..], mime);
    }
  }

  datatype Decision = Accept(dest: Path) | Reject

  /**
   * The content check of `download_file`: a destination whose lower-cased
   * suffix is allowed is kept when the sniffed type starts with the expected
   * primary type; any other destination takes the first allowed suffix whose
   * MIME type equals the sniffed one, or is rejected.
   */
  function Decide(dest: Path, mime: string, allowed: Table): Decision
    requires Name(dest) != ""
  {
    match Lookup(allowed, Lower(Suffix(Name(dest))))
    case Some(expected) => if StartsWith(mime, PrimaryType(expected)) then Accept(dest) else Reject
    case None =>
      match Adopt(allowed, mime)
      case Some(e) => Accept(ReplaceSuffix(dest, e))
      case None => Reject
  }

  /** With an allowed suffix, the file is kept under its name exactly when the primary type matches. */
  lemma DecideKnownSuffix(dest: Path, mime: string, allowed: Table)
    requires Name(dest) != ""
    requires Lower(Suffix(Name(dest))) in Keys(allowed)
    ensures var expected := Lookup(allowed, Lower(Suffix(Name(dest)))).value;
      && (Decide(dest, mime, allowed) == Accept(dest) <==> StartsWith(mime, PrimaryType(expected)))
      && (Decide(dest, mime, allowed) == Reject <==> !StartsWith(mime, PrimaryType(expected)))
  {
  }

  /** Some allowed MIME type equals the sniffed one exactly when a suffix is adopted. */
  lemma AdoptFindsAny(t: Table, mime: string)
    ensures Adopt(t, mime).Some? <==> exists i :: 0 <= i < |t| && t[i].1 == mime
  {
    if forall j :: 0 <= j < |t| ==> t[j].1 != mime {
      AdoptNone(t, mime);
    }
  }

  /** Without an allowed suffix, the file is kept exactly when some allowed MIME type equals the sniffed one, under the first such suffix. */
  lemma DecideOtherSuffix(dest: Path, mime: string, allowed: Table)
    requires Name(dest) != ""
    requires Lower(Suffix(Name(dest))) !in Keys(allowed)
    ensures Decide(dest, mime, allowed).Accept? <==> exists i :: 0 <= i < |allowed| && allowed[i].1 == mime
    ensures forall i :: 0 <= i < |allowed| && allowed[i].1 == mime && (forall j :: 0 <= j < i ==> allowed[j].1 != mime) ==>
      Decide(dest, mime, allowed) == Accept(ReplaceSuffix(dest, allowed[i].0))
  {
    DecideUnknownSuffix(dest, mime, allowed);
    AdoptFindsAny(allowed, mime);
    forall i | 0 <= i < |allowed| && allowed[i].1 == mime && (forall j :: 0 <= j < i ==> allowed[j].1 != mime)
      ensures Adopt(allowed, mime) == Some(allowed[i].0)
    {
      AdoptFirst(allowed, mime, i);
    }
  }

  lemma DecideUnknownSuffix(dest: Path, mime: string, allowed: Table)
    requires Name(dest) != ""
    requires Lower(Suffix(Name(dest))) !in Keys(allowed)
    ensures Decide(dest, mime, allowed) == if Adopt(allowed, mime).Some? then Accept(ReplaceSuffix(dest, Adopt(allowed, mime).value)) else Reject
  {
  }

  predicate LowerKeys(t: Table) {
    forall i :: 0 <= i < |t| ==> Lower(t[i].0) == t[i].0
  }

  /**
   * A kept file stays in the destination's directory and ends in an allowed
   * suffix; when that suffix was adopted, its MIME type is the sniffed one.
   */
  lemma DecideAccepted(dest: Path, mime: string, allowed: Table)
    requires Name(dest) != "" && SimpleKeys(allowed) && LowerKeys(allowed) && UniqueKeys(allowed)
    requires Decide(dest, mime, allowed).Accept?
    ensures var final := Decide(dest, mime, allowed).dest;
      && |final| == |dest| && final[..|dest| - 1] == dest[..|dest| - 1]
      && Lower(Suffix(Name(final))) in Keys(allowed)
      && (final != dest ==> Lookup(allowed, Lower(Suffix(Name(final)))) == Some(mime))
  {
    var ext := Lower(Suffix(Name(dest)));
    if Lookup(allowed, ext).None? {
      var e := Adopt(allowed, mime).value;
      var i :| 0 <= i < |allowed| && allowed[i] == (e, mime);
      WithSuffixRoundTrip(Name(dest), e);
      var final := ReplaceSuffix(dest, e);
      assert Name(final) == WithSuffix(Name(dest), e);
      assert Lower(e) == e;
      assert Keys(allowed)[i] == e;
      LookupAt(allowed, i);
    }
  }

  /** `ALL_EXTENSIONS` keys are lower case. */
  lemma AllExtensionsLowerKeys()
    ensures LowerKeys(AllExtensions)
  {
    forall i | 0 <= i < |AllExtensions| ensures Lower(AllExtensions[i].0) == AllExtensions[i].0 {
      var k := AllExtensions[i].0;
      assert forall j :: 0 <= j < |k| ==> k[j] == '.' || 'a' <= k[j] <= 'z';
    }
  }

  /** An allow-list drawn from `ALL_EXTENSIONS` has lower-case keys. */
  lemma SubTableLowerKeys(t: Table)
    requires SubTable(t)
    ensures LowerKeys(t)
  {
    AllExtensionsLowerKeys();
    forall i | 0 <= i < |t| ensures Lower(t[i].0) == t[i].0 {
      var k := t[i].0;
      assert k in Keys(AllExtensions);
      var j :| 0 <= j < |AllExtensions| && Keys(AllExtensions)[j] == k;
    }
  }

  /** A file sniffed as `text/html` or `text/markdown` under an unknown suffix is saved as `.html` or `.md`. */
  lemma DecideAdoptsFirstInTableOrder(dest: Path)
    requires Name(dest) != "" && Lower(Suffix(Name(dest))) !in Keys(AllExtensions)
    ensures Decide(dest, "text/html", AllExtensions) == Accept(ReplaceSuffix(dest, ".html"))
    ensures Decide(dest, "text/markdown", AllExtensions) == Accept(ReplaceSuffix(dest, ".md"))
    ensures Decide(dest, "application/pdf", AllExtensions) == Accept(ReplaceSuffix(dest, ".pdf"))
  {
    FirstEntryOf("application/pdf", 0);
    DecideAdoptsAt(dest, "application/pdf", 0);
    FirstEntryOf("text/markdown", 3);
    DecideAdoptsAt(dest, "text/markdown", 3);
    FirstEntryOf("text/html", 5);
    DecideAdoptsAt(dest, "text/html", 5);
  }

  /** The first entries of `ALL_EXTENSIONS` for PDF, Markdown and HTML. */
  lemma FirstEntryOf(mime: string, i: nat)
    requires (mime, i) in {("application/pdf", 0), ("text/markdown", 3), ("text/html", 5)}
    ensures i < |AllExtensions| && AllExtensions[i].1 == mime
    ensures forall j :: 0 <= j < i ==> AllExtensions[j].1 != mime
    ensures AllExtensions[i].0 == if i == 0 then ".pdf" else if i == 3 then ".md" else ".html"
  {
  }

  /** Under an unknown suffix the download takes the extension of the first entry for its type. */
  lemma DecideAdoptsAt(dest: Path, mime: string, i: nat)
    requires Name(dest) != "" && Lower(Suffix(Name(dest))) !in Keys(AllExtensions)
    requires i < |AllExtensions| && AllExtensions[i].1 == mime
    requires forall j :: 0 <= j < i ==> AllExtensions[j].1 != mime
    ensures Decide(dest, mime, AllExtensions) == Accept(ReplaceSuffix(dest, AllExtensions[i].0))
  {
    DecideUnknownSuffix(dest, mime, AllExtensions);
    AdoptFirst(AllExtensions, mime, i);
  }

  /** `mime.split('/')[0]` of `type/subtype` is `type`. */
  lemma PrimaryTypeOf(primary: string, sub: string)
    requires '/' !in primary
    ensures PrimaryType(primary + "/" + sub) == primary
  {
    SplitConcat(primary, sub, '/');
  }

  lemma TxtEntry()
    ensures Lookup(AllExtensions, Lower(".txt")) == Some("text/plain")
  {
    assert Lower(".txt") == ".txt";
    LookupAt(AllExtensions, 7);
  }

  lemma PdfEntry()
    ensures Lookup(AllExtensions, Lower(".pdf")) == Some("application/pdf")
  {
    assert Lower(".pdf") == ".pdf";
    LookupAt(AllExtensions, 0);
  }

  lemma TextPrimary()
    ensures PrimaryType("text/plain") == "text"
  {
    assert "text/plain" == "text" + "/" + "plain";
    PrimaryTypeOf("text", "plain");
  }

  lemma ApplicationPrimary()
    ensures PrimaryType("application/pdf") == "application"
  {
    assert "application/pdf" == "application" + "/" + "pdf";
    PrimaryTypeOf("application", "pdf");
  }

  lemma DecideWithEntry(dest: Path, mime: string, allowed: Table, expected: string)
    requires Name(dest) != "" && Lookup(allowed, Lower(Suffix(Name(dest)))) == Some(expected)
    ensures Decide(dest, mime, allowed) == if StartsWith(mime, PrimaryType(expected)) then Accept(dest) else Reject
  {
  }

  /** A `.txt` destination whose body is sniffed as a PDF is rejected. */
  lemma DecideRejectsPdfAsText(dest: Path, stem: string, mime: string)
    requires stem != "" && '.' !in stem && Name(dest) == stem + ".txt"
    requires mime == "application/pdf"
    ensures Decide(dest, mime, AllExtensions) == Reject
  {
    assert Lookup(AllExtensions, Lower(Suffix(Name(dest)))) == Some("text/plain") by {
      SuffixOfPlainName(stem, ".txt");
      TxtEntry();
    }
    PdfIsNotText();
    DecideWithEntry(dest, mime, AllExtensions, "text/plain");
  }

  lemma PdfIsNotText()
    ensures !StartsWith("application/pdf", PrimaryType("text/plain"))
  {
    TextPrimary();
    assert "application/pdf"[0] == 'a';
  }

  /** Only the primary type is checked: a `.pdf` destination whose body is a ZIP archive is kept. */
  lemma DecideKeepsZipAsPdf(dest: Path, stem: string, mime: string)
    requires stem != "" && '.' !in stem && Name(dest) == stem + ".pdf"
    requires mime == "application/zip"
    ensures Decide(dest, mime, AllExtensions) == Accept(dest)
  {
    assert Lookup(AllExtensions, Lower(Suffix(Name(dest)))) == Some("application/pdf") by {
      SuffixOfPlainName(stem, ".pdf");
      PdfEntry();
    }
    ZipIsApplication();
    DecideWithEntry(dest, mime, AllExtensions, "application/pdf");
  }

  lemma ZipIsApplication()
    ensures StartsWith("application/zip", PrimaryType("application/pdf"))
  {
    ApplicationPrimary();
    assert "application/zip"[..11] == "application";
  }

  lemma SuffixOfPlainName(stem: string, e: string)
    requires stem != "" && '.' !in stem && |e| == 4 && e[0] == '.' && '.' !in e[1..]
    ensures Suffix(stem + e) == e
  {
    var n := stem + e;
    assert n[|stem| + 1..] == e[1..];
    RFindAt(n, '.', |stem|);
  }

  datatype AttemptResult = Returned(saved: bool) | Raised

  /** The files after one `download_file` attempt. */
  function AttemptFiles(files: set<Path>, dest: Path, allowed: Table, f: Fetch): set<Path>
    requires Name(dest) != ""
  {
    match f
    case RequestError => files
    case StreamError => files + {TmpPath(dest)}
    case Body(mime) =>
      match Decide(dest, mime, allowed)
      case Accept(final) => files - {TmpPath(dest)} + {final}
      case Reject => files - {TmpPath(dest)}
  }

  /** `download_file` with the network and libmagic replaced by `fetched`. */
  method DownloadFile(fs: FileSystem, dest: Path, allowed: Table, fetched: Fetch) returns (r: AttemptResult)
    requires Name(dest) != ""
    modifies fs
    ensures fs.files == AttemptFiles(old(fs.files), dest, allowed, fetched)
    ensures r == Raised <==> !fetched.Body?
    ensures fetched.Body? ==> r == Returned(Decide(dest, fetched.mime, allowed).Accept?)
  {
    if fetched.RequestError? {
      return Raised;
    }
    var tmp := TmpPath(dest);
    fs.Create(tmp);
    if fetched.StreamError? {
      return Raised;
    }
    var mime := fetched.mime;
    var ext := Lower(Suffix(Name(dest)));
    var final := dest;
    var expected := Lookup(allowed, ext);
    if expected.Some? {
      if !StartsWith(mime, PrimaryType(expected.value)) {
        fs.Unlink(tmp);
        return Returned(false);
      }
    } else {
      var i := 0;
      while i < |allowed| && allowed[i].1 != mime
        invariant 0 <= i <= |allowed|
        invariant Adopt(allowed[i..], mime) == Adopt(allowed, mime)
      {
        assert allowed[i..][1..] == allowed[i + 1..];
        i := i + 1;
      }
      if i == |allowed| {
        assert allowed[i..] == [];
        fs.Unlink(tmp);
        return Returned(false);
      }
      assert allowed[i..][0] == allowed[i];
      final := ReplaceSuffix(dest, allowed[i].0);
    }
    fs.Rename(tmp, final);
    return Returned(true);
  }

  /** The files after attempts `0 .. n - 1`. */
  function FilesAfter(files: set<Path>, dest: Path, allowed: Table, fetch: nat -> Fetch, n: nat): set<Path>
    requires Name(dest) != ""
  {
    if n == 0 then files else AttemptFiles(FilesAfter(files, dest, allowed, fetch, n - 1), dest, allowed, fetch(n - 1))
  }

  /** The retry loop of `download_with_retry` for a destination already chosen. */
  method RetryDownload(fs: FileSystem, dest: Path, allowed: Table, attempts: int, fetch: nat -> Fetch)
    returns (saved: bool, tries: nat, sleeps: seq<nat>)
    requires Name(dest) != ""
    modifies fs
    ensures tries <= Attempts(attempts) && (attempts > 0 ==> tries > 0)
    ensures forall k :: 0 <= k < tries - 1 ==> !fetch(k).Body?
    ensures tries < Attempts(attempts) ==> fetch(tries - 1).Body?
    ensures saved ==> tries > 0 && fetch(tries - 1).Body? && Decide(dest, fetch(tries - 1).mime, allowed).Accept?
    ensures tries > 0 && fetch(tries - 1).Body? && Decide(dest, fetch(tries - 1).mime, allowed).Accept? ==> saved
    ensures sleeps == Backoff(if tries == 0 then 0 else tries - 1)
    ensures fs.files == FilesAfter(old(fs.files), dest, allowed, fetch, tries)
  {
    var delay: nat := 1;
    saved, tries, sleeps := false, 0, [];
    var i := 1;
    while i <= attempts
      invariant 1 <= i && tries == i - 1 <= Attempts(attempts)
      invariant forall k :: 0 <= k < tries ==> !fetch(k).Body?
      invariant i <= attempts ==> sleeps == Backoff(tries)
      invariant i > attempts ==> sleeps == Backoff(if tries == 0 then 0 else tries - 1)
      invariant delay == Pow2(|sleeps|)
      invariant !saved
      invariant fs.files == FilesAfter(old(fs.files), dest, allowed, fetch, tries)
    {
      var r := DownloadFile(fs, dest, allowed, fetch(i - 1));
      tries := i;
      if r.Returned? {
        assert sleeps == Backoff(tries - 1);
        return r.saved, tries, sleeps;
      }
      if i < attempts {
        assert Backoff(tries) == Backoff(tries - 1) + [delay];
        sleeps := sleeps + [delay];
        delay := delay * 2;
      } else {
        return false, tries, sleeps;
      }
      i := i + 1;
    }
  }

  /** `download_with_retry`: attempt `k` (from 0) sees `fetch(k)`; pauses are recorded. */
  method DownloadWithRetry(fs: FileSystem, outdir: Path, url: string, allowed: Table, attempts: int, token: Token,
                           fetch: nat -> Fetch)
    returns (saved: bool, tries: nat, sleeps: seq<nat>)
    requires SimpleKeys(allowed)
    modifies fs
    ensures var dest := Destination(outdir, url, allowed, token);
      && tries <= Attempts(attempts) && (attempts > 0 ==> tries > 0)
      && (forall k :: 0 <= k < tries - 1 ==> !fetch(k).Body?)
      && (tries < Attempts(attempts) ==> fetch(tries - 1).Body?)
      && (saved <==> tries > 0 && fetch(tries - 1).Body? && Decide(dest, fetch(tries - 1).mime, allowed).Accept?)
      && sleeps == Backoff(if tries == 0 then 0 else tries - 1)
      && fs.files == FilesAfter(old(fs.files), dest, allowed, fetch, tries)
    ensures tries == Tries(attempts, fetch)
    ensures saved == Saved(outdir, url, allowed, attempts, token, fetch)
  {
    var dest := Destination(outdir, url, allowed, token);
    saved, tries, sleeps := RetryDownload(fs, dest, allowed, attempts, fetch);
    TriesUnique(attempts, fetch, tries);
  }

  /** The number of attempts `download_with_retry` makes: up to the first that gets a body, or all of them. */
  function Tries(attempts: int, fetch: nat -> Fetch): (t: nat)
    ensures t <= Attempts(attempts) && (attempts > 0 ==> t > 0)
    ensures forall k :: 0 <= k < t - 1 ==> !fetch(k).Body?
    ensures t < Attempts(attempts) ==> fetch(t - 1).Body?
  {
    TriesFrom(fetch, 0, Attempts(attempts))
  }

  function TriesFrom(fetch: nat -> Fetch, k: nat, n: nat): (t: nat)
    requires k <= n
    ensures k <= t <= n && (k < n ==> k < t)
    ensures forall j :: k <= j < t - 1 ==> !fetch(j).Body?
    ensures t < n ==> fetch(t - 1).Body?
    decreases n - k
  {
    if k == n then n
    else if fetch(k).Body? then k + 1
    else TriesFrom(fetch, k + 1, n)
  }

  /** Whether `download_with_retry` returns `True`: the last attempt got a body and the file was kept. */
  predicate Saved(outdir: Path, url: string, allowed: Table, attempts: int, token: Token, fetch: nat -> Fetch)
    requires SimpleKeys(allowed)
  {
    var t := Tries(attempts, fetch);
    t > 0 && fetch(t - 1).Body? && Decide(Destination(outdir, url, allowed, token), fetch(t - 1).mime, allowed).Accept?
  }

  /** Any count of attempts that fails all but the last and stops at the first body is `Tries`. */
  lemma TriesUnique(attempts: int, fetch: nat -> Fetch, t: nat)
    requires t <= Attempts(attempts) && (attempts > 0 ==> t > 0)
    requires forall k :: 0 <= k < t - 1 ==> !fetch(k).Body?
    requires t < Attempts(attempts) ==> fetch(t - 1).Body?
    ensures t == Tries(attempts, fetch)
  {
    if t > 0 {
      TriesFromAt(fetch, 0, Attempts(attempts), t);
    }
  }

  lemma {:induction false} TriesFromAt(fetch: nat -> Fetch, k: nat, n: nat, t: nat)
    requires k < t <= n
    requires forall j :: k <= j < t - 1 ==> !fetch(j).Body?
    requires t < n ==> fetch(t - 1).Body?
    ensures TriesFrom(fetch, k, n) == t
    decreases t - k
  {
    if k < t - 1 {
      TriesFromAt(fetch, k + 1, n, t);
    }
  }

  /** `p` is one component below `outdir`; that component may still be `..`, as a destination's can. */
  predicate Below(p: Path, outdir: Path) {
    |p| == |outdir| + 1 && p[..|outdir|] == outdir
  }

  /** `p` is a file directly inside `outdir`: one component below it, named neither `""`, `.` nor `..`. */
  predicate Inside(p: Path, outdir: Path) {
    Below(p, outdir) && Name(p) != "" && Name(p) != "." && Name(p) != ".."
  }

  /** A name of at least three characters is a proper file name. */
  lemma LongNameInside(p: Path, outdir: Path)
    requires Below(p, outdir) && |Name(p)| >= 3
    ensures Inside(p, outdir)
  {
  }

  /**
   * One attempt only adds or removes files directly inside the destination's
   * directory, even when the destination itself is named `..`: the `.part`
   * file and every kept name carry a suffix.
   */
  lemma AttemptStaysInside(files: set<Path>, dest: Path, outdir: Path, allowed: Table, f: Fetch)
    requires SimpleKeys(allowed) && Name(dest) != "" && Below(dest, outdir)
    ensures forall p :: (p in AttemptFiles(files, dest, allowed, f) <==> p in files) || Inside(p, outdir)
  {
    LongNameInside(TmpPath(dest), outdir);
    if f.Body? && Decide(dest, f.mime, allowed).Accept? {
      if Lookup(allowed, Lower(Suffix(Name(dest)))).Some? {
        KnownSuffixInside(dest, outdir, allowed);
      } else {
        AdoptInKeys(allowed, f.mime);
        AdoptedInside(dest, outdir, allowed, Adopt(allowed, f.mime).value);
      }
    }
  }

  /** A destination whose suffix is allowed is itself a proper name: its suffix has at least two characters. */
  lemma KnownSuffixInside(dest: Path, outdir: Path, allowed: Table)
    requires SimpleKeys(allowed) && Name(dest) != "" && Below(dest, outdir)
    requires Lookup(allowed, Lower(Suffix(Name(dest)))).Some?
    ensures Inside(dest, outdir)
  {
    var n := Name(dest);
    KeyIsSimple(allowed, Lower(Suffix(n)));
    assert |n| == |Stem(n)| + |Suffix(n)|;
    LongNameInside(dest, outdir);
  }

  /** Renaming to an allowed suffix gives a proper name. */
  lemma AdoptedInside(dest: Path, outdir: Path, allowed: Table, e: string)
    requires SimpleKeys(allowed) && Name(dest) != "" && Below(dest, outdir) && e in Keys(allowed)
    ensures Inside(ReplaceSuffix(dest, e), outdir)
  {
    KeyIsSimple(allowed, e);
    assert Name(ReplaceSuffix(dest, e)) == Stem(Name(dest)) + e;
    LongNameInside(ReplaceSuffix(dest, e), outdir);
  }

  /** An adopted suffix is one of the table's keys. */
  lemma AdoptInKeys(t: Table, mime: string)
    ensures Adopt(t, mime).Some? ==> Adopt(t, mime).value in Keys(t)
  {
    if Adopt(t, mime).Some? {
      var i :| 0 <= i < |t| && t[i] == (Adopt(t, mime).value, mime);
      assert Keys(t)[i] == t[i].0;
    }
  }

  lemma {:induction false} FilesAfterStaysInside(files: set<Path>, dest: Path, outdir: Path, allowed: Table,
                                                 fetch: nat -> Fetch, n: nat)
    requires SimpleKeys(allowed) && Name(dest) != "" && Below(dest, outdir)
    ensures forall p :: (p in FilesAfter(files, dest, allowed, fetch, n) <==> p in files) || Inside(p, outdir)
  {
    if n > 0 {
      FilesAfterStaysInside(files, dest, outdir, allowed, fetch, n - 1);
      AttemptStaysInside(FilesAfter(files, dest, allowed, fetch, n - 1), dest, outdir, allowed, fetch(n - 1));
    }
  }

  /** Whatever the attempts see, `download_with_retry` changes only files directly inside the output directory. */
  lemma DownloadStaysInside(files: set<Path>, outdir: Path, url: string, allowed: Table, token: Token,
                            fetch: nat -> Fetch, n: nat)
    requires SimpleKeys(allowed)
    ensures var dest := Destination(outdir, url, allowed, token);
      forall p :: (p in FilesAfter(files, dest, allowed, fetch, n) <==> p in files) || Inside(p, outdir)
  {
    var dest := Destination(outdir, url, allowed, token);
    FilesAfterStaysInside(files, dest, outdir, allowed, fetch, n);
  }

  /** A kept document is present under its final name and its `.part` file is gone. */
  lemma SavedFileExists(files: set<Path>, dest: Path, allowed: Table, mime: string)
    requires Name(dest) != "" && Decide(dest, mime, allowed).Accept?
    ensures Decide(dest, mime, allowed).dest in AttemptFiles(files, dest, allowed, Body(mime))
    ensures Decide(dest, mime, allowed).dest != TmpPath(dest) ==> TmpPath(dest) !in AttemptFiles(files, dest, allowed, Body(mime))
  {
  }

  /** A stream failure on the last attempt leaves the `.part` file behind. */
  lemma StreamFailureLeavesPart(files: set<Path>, dest: Path, allowed: Table, fetch: nat -> Fetch, n: nat)
    requires Name(dest) != "" && n > 0 && fetch(n - 1) == StreamError
    ensures TmpPath(dest) in FilesAfter(files, dest, allowed, fetch, n)
  {
  }
}
