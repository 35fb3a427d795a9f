/**
 * The coordinator in `main`: choose the allow-list, collect candidate URLs
 * with the search loop, stop when there are none, download every candidate
 * and count the successes.
 *
 * Downloads run one after another here; `main` submits them to a thread
 * pool, and only the order-independent count of successes is kept.
 */
module Pipeline {
  import opened Wrappers
  import opened Text
  import opened Extensions
  import opened Paths
  import opened Engines
  import opened Planner
  import opened Download

  /** The number of downloads per URL: the default of `download_with_retry`. */
  const DownloadAttempts := 3

  /** The number of `True` results among the completed downloads. */
  method CountSuccesses(completed: seq<bool>) returns (n: nat)
    ensures n == multiset(completed)[true]
    ensures n <= |completed|
    ensures n == |completed| <==> forall i :: 0 <= i < |completed| ==> completed[i]
  {
    n := 0;
    var i := 0;
    while i < |completed|
      invariant 0 <= i <= |completed|
      invariant n == multiset(completed[..i])[true] && n <= i
      invariant n == i <==> forall j :: 0 <= j < i ==> completed[j]
    {
      assert completed[..i + 1] == completed[..i] + [completed[i]];
      if completed[i] {
        n := n + 1;
      }
      i := i + 1;
    }
    assert completed[..i] == completed;
  }

  /** The allow-list `main` uses for the `--only` value `only`: `ALL_EXTENSIONS`, or what `parse_only` makes of it. */
  function AllowedFor(only: Option<string>): (r: Result<Table, ConfigError>)
    ensures r.Success? ==> SimpleKeys(r.value) && UniqueKeys(r.value)
  {
    if only.None? || only.value == "" then
      AllExtensionsSimpleKeys();
      Success(AllExtensions)
    else
      ParseSuccess(AllExtensions, Split(only.value, ','), []);
      var r := ParseOnlySpec(only.value);
      if r.Success? then SubTableSimpleKeys(r.value); r else r
  }

  /** `ALL_EXTENSIONS if not args.only else parse_only(args.only)`. */
  method ChooseAllowed(only: Option<string>) returns (r: Result<Table, ConfigError>)
    ensures only.None? || only == Some("") ==> r == Success(AllExtensions)
    ensures only.Some? && only.value != "" ==> r == ParseOnlySpec(only.value)
    ensures r.Success? ==> SimpleKeys(r.value) && UniqueKeys(r.value)
    ensures r == AllowedFor(only)
  {
    if only.None? || only.value == "" {
      AllExtensionsSimpleKeys();
      return Success(AllExtensions);
    }
    r := ParseOnly(AllExtensions, only.value);
    if r.Success? {
      SubTableSimpleKeys(r.value);
    }
  }

  /** Every candidate downloaded in turn, with its own token and its own attempts. */
  method DownloadAll(fs: FileSystem, outdir: Path, docs: seq<string>, allowed: Table, tokens: nat -> Token,
                     fetch: string -> nat -> Fetch)
    returns (completed: seq<bool>)
    requires SimpleKeys(allowed)
    modifies fs
    ensures completed == SavedList(outdir, docs, allowed, tokens, fetch)
    ensures fs.files == FilesAfterDownloads(old(fs.files), outdir, docs, allowed, tokens, fetch, |docs|)
  {
    completed := [];
    var i: nat := 0;
    while i < |docs|
      invariant i <= |docs|
      invariant completed == Prefix(Verdicts(outdir, docs, allowed, tokens, fetch), i)
      invariant fs.files == FilesAfterDownloads(old(fs.files), outdir, docs, allowed, tokens, fetch, i)
    {
      var saved := DownloadOne(fs, outdir, docs, allowed, tokens, fetch, i);
      completed := completed + [saved];
      i := i + 1;
    }
  }

  /** The `i`-th download: its verdict and its files, as the step functions give them. */
  method DownloadOne(fs: FileSystem, outdir: Path, docs: seq<string>, allowed: Table, tokens: nat -> Token,
                     fetch: string -> nat -> Fetch, i: nat)
    returns (saved: bool)
    requires SimpleKeys(allowed) && i < |docs|
    modifies fs
    ensures saved == Verdicts(outdir, docs, allowed, tokens, fetch)(i)
    ensures fs.files == DownloadStep(outdir, docs, allowed, tokens, fetch)(old(fs.files), i)
  {
    var tries, sleeps;
    saved, tries, sleeps := DownloadWithRetry(fs, outdir, docs[i], allowed, DownloadAttempts, tokens(i), fetch(docs[i]));
  }

  /** `[f(0), ..., f(n - 1)]`. */
  function Prefix<T>(f: nat -> T, n: nat): (r: seq<T>)
    ensures |r| == n
  {
    if n == 0 then [] else Prefix(f, n - 1) + [f(n - 1)]
  }

  lemma {:induction false} PrefixAt<T>(f: nat -> T, n: nat)
    ensures forall i :: 0 <= i < n ==> Prefix(f, n)[i] == f(i)
  {
    if n > 0 {
      PrefixAt(f, n - 1);
    }
  }

  /** The verdict of the `i`-th download (false past the last candidate). */
  function Verdicts(outdir: Path, docs: seq<string>, allowed: Table, tokens: nat -> Token, fetch: string -> nat -> Fetch)
    : nat -> bool
    requires SimpleKeys(allowed)
  {
    (i: nat) => i < |docs| && Saved(outdir, docs[i], allowed, DownloadAttempts, tokens(i), fetch(docs[i]))
  }

  /** The verdicts of all downloads, in candidate order. */
  function SavedList(outdir: Path, docs: seq<string>, allowed: Table, tokens: nat -> Token, fetch: string -> nat -> Fetch)
    : (r: seq<bool>)
    requires SimpleKeys(allowed)
    ensures |r| == |docs|
  {
    Prefix(Verdicts(outdir, docs, allowed, tokens, fetch), |docs|)
  }

  /** Entry `i` of the verdicts is what `download_with_retry` returns for the `i`-th candidate. */
  lemma SavedListAt(outdir: Path, docs: seq<string>, allowed: Table, tokens: nat -> Token, fetch: string -> nat -> Fetch)
    requires SimpleKeys(allowed)
    ensures forall i :: 0 <= i < |docs| ==>
      SavedList(outdir, docs, allowed, tokens, fetch)[i] == Saved(outdir, docs[i], allowed, DownloadAttempts, tokens(i), fetch(docs[i]))
  {
    PrefixAt(Verdicts(outdir, docs, allowed, tokens, fetch), |docs|);
  }

  /** The files after downloading the `i`-th candidate, starting from the files `f`. */
  function DownloadStep(outdir: Path, docs: seq<string>, allowed: Table, tokens: nat -> Token, fetch: string -> nat -> Fetch)
    : (set<Path>, nat) -> set<Path>
    requires SimpleKeys(allowed)
  {
    (f: set<Path>, i: nat) =>
      if i < |docs| then
        FilesAfter(f, Destination(outdir, docs[i], allowed, tokens(i)), allowed, fetch(docs[i]), Tries(DownloadAttempts, fetch(docs[i])))
      else f
  }

  /** `step` applied for `0 .. n - 1` in turn. */
  function Steps(files: set<Path>, step: (set<Path>, nat) -> set<Path>, n: nat): set<Path> {
    if n == 0 then files else step(Steps(files, step, n - 1), n - 1)
  }

  /** The files after downloading the first `n` candidates in turn. */
  function FilesAfterDownloads(files: set<Path>, outdir: Path, docs: seq<string>, allowed: Table, tokens: nat -> Token,
                               fetch: string -> nat -> Fetch, n: nat): set<Path>
    requires SimpleKeys(allowed)
  {
    Steps(files, DownloadStep(outdir, docs, allowed, tokens, fetch), n)
  }

  /** Steps that each change only files directly inside `outdir` do so together. */
  lemma {:induction false} StepsStayInside(files: set<Path>, step: (set<Path>, nat) -> set<Path>, outdir: Path, n: nat)
    requires forall f, i, p :: (p in step(f, i) <==> p in f) || Inside(p, outdir)
    ensures forall p :: (p in Steps(files, step, n) <==> p in files) || Inside(p, outdir)
  {
    if n > 0 {
      StepsStayInside(files, step, outdir, n - 1);
    }
  }

  /** One download changes only files directly inside the output directory. */
  lemma DownloadStepStaysInside(outdir: Path, docs: seq<string>, allowed: Table, tokens: nat -> Token,
                                fetch: string -> nat -> Fetch)
    requires SimpleKeys(allowed)
    ensures forall f, i, p :: (p in DownloadStep(outdir, docs, allowed, tokens, fetch)(f, i) <==> p in f) || Inside(p, outdir)
  {
    forall f: set<Path>, i: nat
      ensures forall p :: (p in DownloadStep(outdir, docs, allowed, tokens, fetch)(f, i) <==> p in f) || Inside(p, outdir)
    {
      if i < |docs| {
        DownloadStaysInside(f, outdir, docs[i], allowed, tokens(i), fetch(docs[i]), Tries(DownloadAttempts, fetch(docs[i])));
      }
    }
  }

  /** However many candidates are downloaded, only files directly inside the output directory change. */
  lemma DownloadsStayInside(files: set<Path>, outdir: Path, docs: seq<string>, allowed: Table,
                            tokens: nat -> Token, fetch: string -> nat -> Fetch, n: nat)
    requires SimpleKeys(allowed)
    ensures forall p :: (p in FilesAfterDownloads(files, outdir, docs, allowed, tokens, fetch, n) <==> p in files) || Inside(p, outdir)
  {
    DownloadStepStaysInside(outdir, docs, allowed, tokens, fetch);
    StepsStayInside(files, DownloadStep(outdir, docs, allowed, tokens, fetch), outdir, n);
  }

  datatype Outcome = ConfigFailed(error: ConfigError) | NoCandidates | Done(downloaded: nat, total: nat)

  /**
   * `main` after argument parsing: `search` answers the engines' queries,
   * `tokens(i)` is the fresh token for the `i`-th candidate and
   * `fetch(u)(k)` is what attempt `k` of downloading `u` sees.
   */
  method Run(fs: FileSystem, search: Oracle, primary: Engine, subject: string, only: Option<string>, max: int,
             outdir: Path, tokens: nat -> Token, fetch: string -> nat -> Fetch)
    returns (outcome: Outcome, docs: seq<string>)
    modifies fs
    ensures outcome.ConfigFailed? <==> only.Some? && only.value != "" && ParseOnlySpec(only.value).Failure?
    ensures outcome.ConfigFailed? ==> docs == [] && fs.files == old(fs.files)
    ensures outcome.NoCandidates? ==> docs == [] && fs.files == old(fs.files)
    ensures outcome.Done? ==> docs != [] && outcome.total == |docs| && outcome.downloaded <= outcome.total
    ensures !outcome.ConfigFailed? ==> exists allowed :: Candidates(search, primary, subject, only, max, allowed, docs)
    ensures NoDuplicates(docs) && |docs| <= Max(0, max)
    ensures forall p :: (p in fs.files <==> p in old(fs.files)) || Inside(p, outdir)
    ensures outcome.Done? ==> AllowedFor(only).Success?
    ensures outcome.Done? ==> var allowed := AllowedFor(only).value;
      && outcome.downloaded == multiset(SavedList(outdir, docs, allowed, tokens, fetch))[true]
      && fs.files == FilesAfterDownloads(old(fs.files), outdir, docs, allowed, tokens, fetch, |docs|)
  {
    var chosen := ChooseAllowed(only);
    if chosen.Failure? {
      return ConfigFailed(chosen.error), [];
    }
    var allowed := chosen.value;
    var log;
    docs, log := SearchCandidates(search, primary, subject, allowed, max);
    assert Candidates(search, primary, subject, only, max, allowed, docs);
    if docs == [] {
      return NoCandidates, docs;
    }
    var completed := DownloadAll(fs, outdir, docs, allowed, tokens, fetch);
    DownloadsStayInside(old(fs.files), outdir, docs, allowed, tokens, fetch, |docs|);
    var downloaded := CountSuccesses(completed);
    outcome := Done(downloaded, |docs|);
  }

  /** `docs` are the candidates the search loop collects with the allow-list chosen for `only`. */
  predicate Candidates(search: Oracle, primary: Engine, subject: string, only: Option<string>, max: int, allowed: Table,
                       docs: seq<string>)
  {
    ChosenAllowed(only, allowed) && docs == Plan(search, FallbackOrder(primary), subject, Keys(allowed), max, []).0
  }

  /** The allow-list `main` uses for the `--only` value `only`. */
  predicate ChosenAllowed(only: Option<string>, allowed: Table) {
    AllowedFor(only) == Success(allowed)
  }
}
