# webdownloader in Dafny

A model of the acquisition pipeline of `wd.py` (webdownloader). It collects document URLs for a subject by running one `filetype:` query per allowed extension. Each query goes to the search engines in fallback order. The pipeline then downloads each candidate with retries and keeps a file only when its sniffed content type fits its extension.

The model has these modules:

- `Extensions` has the extension table `ALL_EXTENSIONS` and `parse_only`, the parser of the `--only` allow-list.
- `Paths` has the `pathlib` and `urlparse` behaviour the downloader relies on: name, suffix, stem, `with_suffix`, and the path of a URL. It also has `sanitize_filename` and the choice of a download's destination path.
- `Retry` has the bounded search retry `_get_with_retry`, with its doubling pauses.
- `Engines` has the engine registry and fallback order. It also has the result extraction of the DuckDuckGo, Bing and Google engines once their link lists are given, including DuckDuckGo's `uddg=` redirect unwrapping and URL percent-decoding.
- `Download` has `download_file` and `download_with_retry`:
  - the content-verification decision;
  - the `.part` temporary file;
  - renaming to the final name;
  - the retry loop.

  The file system is a class holding the set of existing paths.
- `Planner` has the search loop of `main`: fallback per query, accumulation of new matching URLs, and the cap on their number.
- `Pipeline` has the rest of `main`: choice of the allow-list, the stop when no candidates are found, the downloads, and the count of successes.

The world outside the program is given as inputs:

- HTTP responses are oracles indexed by attempt number.
- Each engine's parsed anchor list is a sequence.
- Each engine's answer to a query is a function of engine and query.
- The MIME type sniffed by libmagic comes with each download attempt.
- The fresh `uuid4().hex` token is a parameter.
- Pauses are recorded in a list instead of slept.

Two behaviours of the code are modelled as written:

- A download attempt whose body stream fails part-way leaves its `.part` file behind (`Download.StreamFailureLeavesPart`).
- A stem of `..` is kept, so a URL such as `https://example.com/...xyz` with `.xyz` not allowed gets the destination `outdir/..` (`Paths.DotDotStemIsParent`). Every file written for it still lands inside the output directory (`Download.AttemptStaysInside`).

Two defects of the code are each modelled as written in a member of their own and corrected everywhere else (see Findings):

- DuckDuckGo's redirect unwrapping (`wd.py:93`) is shown as written by `Engines.UnwrapAsWrittenMissesRedirect`. `Engines.DuckDuckGoSearch` uses the corrected unwrap.
- A stem that sanitizes to `.` (`wd.py:184-188`) puts the download for `https://example.com/..pdf` beside the output directory instead of inside it, as written (`Paths.DotStemEscapesOutdir`). `Download.DownloadWithRetry`, `Download.DownloadStaysInside` and `Pipeline.Run` use the corrected destination.

A file is *inside* the output directory when it is one path component below it, and that component is neither empty, `.` nor `..`.

## Model

| member | source | states |
|---|---|---|
| Extensions.Lookup | wd.py:164 | A key is found exactly when it is one of the table's keys. |
| Extensions.ParseOnly | wd.py:144-152 | Fails exactly when some comma-separated token is not a known extension. It then reports the first unknown token, normalised. Otherwise it returns a sub-table of `ALL_EXTENSIONS`: no duplicate keys, same MIME types, keys in order of first mention. |
| Extensions.ParseTokenList | wd.py:146-152 | The token loop: it agrees with the fold `ParseTokens` and has the same failure and success characterisation. |
| Extensions.ParseFailure | wd.py:146-150 | The fold fails if and only if some token is unknown, and its error names the first unknown token. |
| Extensions.ParseSuccess | wd.py:146-152 | On success the result is a sub-table of the reference table, keyed by the tokens' keys in order of first occurrence. |
| Extensions.PutKeepsSubTable | wd.py:151 | Storing a known key with its reference MIME type keeps a sub-table. An existing key keeps its position; a new one goes last. |
| Extensions.DistinctProperties | wd.py:146-151 | The keys in order of first mention have no duplicates and are exactly the keys mentioned. |
| Extensions.KeyOfPlainSuffix | wd.py:147-148 | A dot followed by lower-case letters is left unchanged by strip, lower and leading-dot removal. |
| Extensions.AllExtensionKeysNormalize | wd.py:25-34 | Every `ALL_EXTENSIONS` key is a fixed point of token normalisation. |
| Extensions.AllExtensionKeysHaveNoComma | wd.py:25-34 | No `ALL_EXTENSIONS` key contains a comma. |
| Extensions.ParseKeys | wd.py:146-152 | Parsing the keys of a sub-table succeeds with a sub-table with exactly those keys. |
| Extensions.ParseTokensRoundTrip | wd.py:144-152 | Splitting and parsing the comma-joined keys of a non-empty sub-table returns that sub-table. |
| Extensions.ParseOnlyRoundTrip | wd.py:144-152 | `parse_only(",".join(t))` returns `t` for every non-empty allow-list `t` drawn from `ALL_EXTENSIONS`. |
| Extensions.SameKeysSameTable | wd.py:151 | Two sub-tables of the same reference table with the same keys in the same order are equal. |
| Extensions.SubTablePlainKeys | wd.py:146-151 | Every key of an allow-list drawn from `ALL_EXTENSIONS` has no comma and is a fixed point of token normalisation. |
| Text.LStripProperties | wd.py:147 | `lstrip()` keeps a suffix, what remains does not start with whitespace, and every character it removes is whitespace. |
| Text.LStripCharProperties | wd.py:147 | `lstrip(".")` keeps a suffix, what remains does not start with `.`, and every character it removes is a dot. |
| Text.RStripRemovesSpaces | wd.py:141 | `rstrip()` keeps a prefix, what remains does not end in whitespace, and every character it removes is whitespace. |
| Text.JoinSplit | wd.py:146 | Joining the pieces of `s.split(sep)` with `sep` gives `s` back. |
| Text.SplitJoin | wd.py:146 | Splitting the `sep`-join of pieces without `sep` gives the pieces back. |
| Text.SplitConcat | wd.py:146 | Splitting `a + sep + b`, with no `sep` in `a`, gives `a` followed by the pieces of `b`. |
| Paths.PathOf | wd.py:185 | The path part of a URL after its scheme holds no `?` and no `#`. |
| Download.FileSystem.constructor | wd.py:155-180 | A file system starts with the given set of files. |
| Paths.Suffix | wd.py:163 | `PurePath.suffix`: empty, or a dot followed by at least one character and no further dot. |
| Paths.Stem | wd.py:184 | `PurePath.stem`: the stem followed by the suffix is the name, and a non-empty name has a non-empty stem. |
| Paths.PathWithSuffix | wd.py:158 | `with_suffix` raises on an invalid suffix and on an empty name. Otherwise it changes only the last component. |
| Paths.WithSuffixRoundTrip | wd.py:172 | After `with_suffix(e)` with a plain suffix, the suffix is `e` and the stem is unchanged. |
| Paths.WithSuffixComponent | wd.py:188 | Replacing the suffix of a slash-free name gives a single path component that is not `.`. |
| Paths.PartName | wd.py:158 | `dest.suffix + '.part'` is a valid suffix, and `with_suffix` with it appends `.part` to the name. |
| Paths.KeptPartsAppend | wd.py:186 | Dropping empty and `.` parts distributes over concatenation. |
| Paths.SingleComponent | wd.py:186 | A slash-free name other than `""` and `.` is one path component. |
| Paths.PathNameChild | wd.py:184 | The name of `dir/n` is `n` for a plain name `n`. |
| Paths.KeepCharsSubsequence | wd.py:140-141 | The character filter keeps an order-preserving subsequence of allowed characters. |
| Paths.KeepCharsCounts | wd.py:140-141 | Every allowed character keeps all its occurrences and every other character loses all of them. |
| Paths.KeepCharsIdentity | wd.py:140-141 | The filter leaves a string of allowed characters unchanged. |
| Paths.Sanitize | wd.py:139-141 | The result is an order-preserving subsequence of the input. It holds only letters, digits, space, `.`, `_` and `-`, and does not end in a space. |
| Paths.SanitizeKeeps | wd.py:141 | `rstrip` removes only trailing spaces from the filtered string. |
| Paths.SanitizeFixedPoint | wd.py:139-141 | A string is unchanged by sanitizing if and only if all its characters are allowed and it does not end in a space. |
| Paths.SanitizeIdempotent | wd.py:139-141 | Sanitizing twice equals sanitizing once. |
| Paths.LStripControl | wd.py:185 | `urlsplit`'s strip of leading C0 controls and spaces: a suffix of the input that starts above U+0020. |
| Paths.RemoveUnsafeIdentity | wd.py:185 | Removing tab, CR and LF leaves a URL without them unchanged. |
| Paths.NetlocLength | wd.py:185 | The network location ends at the first `/`, `?` or `#`. |
| Paths.StripParams | wd.py:185 | Removing `;params` from the last segment leaves a prefix of the path. |
| Paths.UrlPath | wd.py:185 | `urlparse(url).path` holds no `?` and no `#`. |
| Paths.FindAt | wd.py:185 | `find` returns the first occurrence. |
| Paths.RFindAt | wd.py:163 | `rfind` returns the last occurrence. |
| Paths.NetlocLengthAt | wd.py:185 | For `host/path`, the host is the network location. |
| Paths.UrlPathOfPlainUrl | wd.py:185 | The path of `https://host/path` is `path` for a host without delimiters and a plain path. |
| Paths.PlainUrlIsClean | wd.py:185 | Such a URL is unchanged by the control-character cleanup. |
| Paths.PlainUrlScheme | wd.py:185 | Its scheme is `https` and the rest starts with `//`. |
| Paths.PlainUrlRest | wd.py:185 | Its path is what follows the host. |
| Paths.NameAsWritten | wd.py:184 | The name the code gives a download (sanitized stem or token) is never empty and holds no `/`. |
| Paths.BaseName | wd.py:184 | As above, but the token also replaces a stem that sanitizes to `.`. The result is a single path component other than `.`. |
| Paths.Destination | wd.py:184-188 | The destination is one path component below the output directory, and that component is never empty and never `.`. It is `..` for a `..` stem whose URL suffix is not allowed. |
| Paths.DestinationSuffix | wd.py:185-188 | The destination name ends in the URL path's lower-cased suffix exactly when that suffix is allowed. Otherwise it is the bare name. |
| Paths.DestinationAgrees | wd.py:184-188 | Whenever the stem is not `.`, the corrected destination equals the one the code computes. |
| Paths.KeyIsSimple | wd.py:187-188 | A key of a table with plain keys is a plain suffix. |
| Paths.AllExtensionsSimpleKeys | wd.py:25-34 | Every `ALL_EXTENSIONS` key is a dot followed by letters. |
| Paths.SubTableSimpleKeys | wd.py:222 | So is every key of an allow-list drawn from `ALL_EXTENSIONS`. |
| Paths.PlainUrlName | wd.py:184-185 | For `https://host/n`, the name of the URL is `n` and its suffix is `n`'s lower-cased suffix. |
| Paths.DotStemName | wd.py:184-185 | For `https://host/..pdf`, the code's name is `.` and the URL suffix is `.pdf`. |
| Paths.DotStemParts | wd.py:184 | `..pdf` has stem `.` and suffix `.pdf`, and `.` is unchanged by sanitizing. |
| Paths.DotComponents | wd.py:186 | `outdir / "."` is `outdir`. |
| Paths.DotStemAsWritten | wd.py:184-188 | For that URL the code's destination is `outdir.with_suffix(".pdf")`. |
| Paths.DotStemEscapesOutdir | wd.py:184-188 | For that URL the code's destination is `outdir.with_suffix(".pdf")`. It replaces the directory's own last component, so the file is not inside it, and with an output directory of `.` it raises `ValueError`. |
| Paths.DotStemStaysInside | wd.py:184-188 | The corrected destination of that URL is `outdir / (token + ".pdf")`. |
| Paths.DotDotStemIsParent | wd.py:184-188 | For `https://host/...xyz` with `.xyz` not allowed, the destination is `outdir / ".."`, as in the code. |
| Paths.DotDotStemParts | wd.py:184 | `...xyz` has stem `..` and suffix `.xyz`, and `..` is unchanged by sanitizing. |
| Paths.SameDestination | wd.py:184-188 | `a.v1.pdf` and `a.v2.pdf` on the same host get the same destination, `outdir/a.pdf`. |
| Paths.VersionedPdfDestination | wd.py:184-188 | The destination of `a.vN.pdf` is `outdir/a.pdf`. |
| Paths.VersionedPdfNames | wd.py:184-185 | The name of `a.vN.pdf` is `a.vN` and its URL suffix is `.pdf`. |
| Paths.VersionedPdfParts | wd.py:184 | `a.vN.pdf` has stem `a.vN` and suffix `.pdf`, and the stem is unchanged by sanitizing. |
| Retry.Backoff | wd.py:75-77 | One pause per failed attempt but the last. |
| Retry.BackoffTotal | wd.py:61-77 | The pauses over `n` failed attempts add up to 2^n − 1 seconds. |
| Retry.FirstSuccess | wd.py:62-70 | The first successful attempt in a range, with every attempt before it failed. When it is absent, every attempt in the range failed. |
| Retry.GetWithRetry | wd.py:60-78 | At most `max_attempts` requests. It returns the first successful response, or nothing once all attempts have failed. A 429, other HTTP errors and request errors are treated alike. The pauses are 1, 2, 4, … between attempts only, so `max_attempts − 1` of them when all fail. |
| Retry.NoSuccessBefore | wd.py:62-78 | With no success in a range, no first success is found there. |
| Retry.FirstSuccessAt | wd.py:62-69 | The first success is the earliest successful attempt. |
| Engines.WithoutCount | wd.py:236 | Filtering out an engine that occurs once removes exactly that one occurrence. |
| Engines.WithoutOrder | wd.py:236 | The filtered list keeps registration order, has no duplicates and no longer contains the removed engine. |
| Engines.WithoutAbsent | wd.py:236 | Filtering out an absent engine changes nothing. |
| Engines.WithoutSubset | wd.py:236 | The filtered list holds only registered engines. |
| Engines.FallbackOrderProperties | wd.py:236 | The order starts with the primary engine, then the others in registration order, and names every engine exactly once. |
| Engines.RegistryProperties | wd.py:132-136 | `ENGINES` has no duplicates and contains every engine. |
| Engines.PrimaryFirst | wd.py:236 | Moving any registered engine to the front of the list keeps each engine exactly once. |
| Engines.HexDigit | wd.py:95 | Writing a value as a hex digit and reading it back gives the same value. |
| Engines.UnquoteQuoteChar | wd.py:95 | Unquoting the percent-encoding of one ASCII character gives that character back. |
| Engines.Quote | wd.py:95 | Percent-encoding leaves no `&`, so an encoded value stays within its query parameter. |
| Engines.UnquoteQuote | wd.py:95 | `unquote(quote(s)) == s` for every ASCII string. |
| Engines.UnwrapRedirect | wd.py:92-96 | The corrected unwrap returns the target of `/l/?uddg=<quoted target>`, with or without further parameters. |
| Engines.UnwrapUddgAlone | wd.py:92-96 | The corrected unwrap of `/l/?uddg=q`, with `q` free of `&`, is `unquote(q)`. |
| Engines.UnwrapUddgThen | wd.py:92-96 | The same holds when further parameters follow `&`. |
| Engines.UnwrapAsWrittenMissesRedirect | wd.py:93 | The code's `href[3:]` keeps the `?`, so `/l/?uddg=<quoted target>` comes back unchanged instead of unwrapped. |
| Engines.SplitFirstPrefix | wd.py:93 | The first piece of a split is a prefix of the string. |
| Engines.UnwrapAgrees | wd.py:92-96 | When the query does not start with `uddg=`, the code and the correction give the same link. |
| Engines.UnwrapHref | wd.py:92-96 | The loop over the `&`-separated parts computes the corrected unwrap. |
| Engines.DuckDuckGoSearch | wd.py:84-100 | With no response the result is `[]`. Otherwise it holds the unwrapped hrefs of the fetched anchors in order. The cap is checked after each append, so there are at most `max_results` links when that is positive, and one when it is not. |
| Engines.SliceTo | wd.py:111 | Python's `[:k]` gives a prefix of length `min(k, n)`, or `max(0, n + k)` for negative `k`. |
| Engines.BingSearch | wd.py:106-111 | With no response the result is `[]`. Otherwise it is the first `max_results` hrefs in document order. |
| Engines.AbsoluteLinksLength | wd.py:123-126 | Each result block gives at most one link. |
| Engines.AbsoluteLinksSound | wd.py:124-126 | Every kept link is the href of some block and does not start with `/`. |
| Engines.AbsoluteLinksAppend | wd.py:123-126 | Link extraction distributes over concatenation of block lists. |
| Engines.GoogleLinks | wd.py:122-128 | The block loop, checking the cap after each block: with a positive cap it returns the first `max_results` links of all blocks; with a cap below one it returns the links of the first block only. |
| Engines.LinksWithinCap | wd.py:127-128 | While the loop runs, the links held never exceed a positive cap. |
| Engines.CapTake | wd.py:127-128 | Stopping with exactly `max_results` links, or after the last block, gives the first `max_results` links of all blocks. |
| Engines.GoogleStopsAtFirst | wd.py:127-128 | With a cap below one the loop stops after the first block. |
| Engines.GoogleSearch | wd.py:117-129 | With no response the result is `[]`. Otherwise it is the links of blocks with an anchor whose href does not start with `/`, in order. It stops once `max_results` are held; with a cap below one only the first block is looked at. |
| Download.FileSystem.Create | wd.py:159 | `open(tmp, 'wb')` makes `tmp` exist. |
| Download.FileSystem.Unlink | wd.py:167 | `unlink(missing_ok=True)` makes the path absent. |
| Download.FileSystem.Rename | wd.py:178 | `rename` removes the source and makes the destination exist. |
| Download.ReplaceSuffix | wd.py:172 | `with_suffix` keeps the directory and the number of components. |
| Download.TmpPath | wd.py:158 | The temporary file is the destination's name followed by `.part`, in the same directory. |
| Download.Adopt | wd.py:170-172 | An adopted suffix is an allowed key whose MIME type equals the sniffed one. |
| Download.AdoptFirst | wd.py:170-173 | The adopted suffix is the first in table order whose MIME type matches exactly. |
| Download.AdoptNone | wd.py:174-177 | With no exact MIME match, nothing is adopted. |
| Download.AdoptFindsAny | wd.py:170-177 | A suffix is adopted if and only if some allowed MIME type equals the sniffed one. |
| Download.DecideKnownSuffix | wd.py:164-168 | With an allowed suffix, the file is kept under its own name exactly when the sniffed type starts with the expected primary type, and rejected otherwise. |
| Download.DecideOtherSuffix | wd.py:169-177 | With any other suffix, the file is kept exactly when some allowed MIME type equals the sniffed one. It is then renamed to the first such suffix in table order. |
| Download.DecideAccepted | wd.py:163-178 | A kept file stays in the destination's directory and ends in an allowed suffix. An adopted suffix maps to exactly the sniffed MIME type. |
| Download.AllExtensionsLowerKeys | wd.py:25-34 | `ALL_EXTENSIONS` keys are lower case. |
| Download.SubTableLowerKeys | wd.py:222 | So are the keys of every allow-list drawn from it. |
| Download.DecideAdoptsAt | wd.py:169-177 | Under `ALL_EXTENSIONS` with an unknown suffix, a type first listed at entry `i` adopts that entry's extension. |
| Download.DecideAdoptsFirstInTableOrder | wd.py:169-173 | Under `ALL_EXTENSIONS`, an unknown suffix with `text/html` becomes `.html` (not `.htm`). `text/markdown` becomes `.md` (not `.markdown`), and `application/pdf` becomes `.pdf`. |
| Download.PrimaryTypeOf | wd.py:165 | `split('/')[0]` of `type/subtype` is `type`. |
| Download.DecideRejectsPdfAsText | wd.py:164-168 | A `.txt` destination whose body is sniffed as `application/pdf` is rejected. |
| Download.DecideKeepsZipAsPdf | wd.py:164-166 | A `.pdf` destination whose body is sniffed as `application/zip` is kept, because only the primary type is compared. |
| Download.SuffixOfPlainName | wd.py:163 | A dot-free stem followed by a four-character suffix has that suffix. |
| Download.DownloadFile | wd.py:155-180 | A request error raises and leaves the files unchanged. A stream error raises and leaves the `.part` file. A body is sniffed and decided: on acceptance the `.part` file is renamed to the final name and `True` is returned; on rejection it is deleted and `False` is returned. |
| Download.RetryDownload | wd.py:189-200 | At most `attempts` tries; earlier tries all raised. A returned verdict comes back at once, without retry. After `attempts` raised tries it returns `False`. Pauses are 1, 2, 4, … between tries only, and the files are those after the tries made. |
| Download.DownloadWithRetry | wd.py:183-200 | The same, for the destination computed from the URL. The number of tries is `Tries` and the verdict is `Saved`: the first try that gets a body decides, through the content check of that destination. |
| Download.Tries | wd.py:189-200 | The tries made: at most `attempts`, at least one when `attempts` is positive, all but the last without a body, and the last with a body unless every attempt was used. |
| Download.TriesUnique | wd.py:189-200 | Those three properties determine the number of tries uniquely. |
| Download.AttemptStaysInside | wd.py:158-178 | For a destination one component below a directory, even one named `..`, one attempt adds or removes only files inside that directory: the `.part` file and every kept name carry a suffix. |
| Download.FilesAfterStaysInside | wd.py:189-200 | The same holds for any number of attempts. |
| Download.DownloadStaysInside | wd.py:183-200 | Whatever the network and the sniffer return, downloading a URL to its corrected destination changes only files directly inside the output directory. The destination as written can escape it (Findings, second row). |
| Download.SavedFileExists | wd.py:178 | A kept document exists under its final name, and its `.part` file is gone. |
| Download.StreamFailureLeavesPart | wd.py:159-161 | When the last attempt fails while streaming, the `.part` file is left behind. |
| Planner.FallbackHit | wd.py:244-256 | If engine `i` is the first with results, the engines before it were each searched and each followed by a pause. None after it is queried, and its results are used. |
| Planner.FallbackMiss | wd.py:244-256 | If no engine has results, each is searched once and followed by a pause, and the result is empty. |
| Planner.SeenAppend | wd.py:244-256 | The results a log shows distribute over concatenation of logs. |
| Planner.FallbackSeen | wd.py:244-256 | The fallback's results are exactly the non-empty list its log shows. |
| Planner.AbsorbProperties | wd.py:249-253 | Accumulation keeps what was held and adds no duplicates. It stops at the cap, adds only URLs that lower-cased end with the extension, and keeps their order. |
| Planner.NewMatchesMembers | wd.py:249-250 | A URL is a new match exactly when it is a result, lower-cased ends with the extension, and is not yet held. |
| Planner.NewMatchesDistinct | wd.py:250 | The held URLs followed by the new matches repeat no URL. |
| Planner.AbsorbIsCappedNewMatches | wd.py:249-253 | Accumulation appends the new matches in result order, cut after `max - len(doc_urls)` of them, and after one when the cap is already reached. |
| Planner.AbsorbComplete | wd.py:249-253 | When accumulation ends below the cap, every matching result is held. |
| Planner.PlanBounds | wd.py:237-253 | The search loop keeps the URLs it started with and adds no duplicates. It ends with at most `max` URLs, unless it started with more. |
| Planner.PlanSources | wd.py:242-253 | Every collected URL was returned for the query of some extension and, lower-cased, ends with that extension. |
| Planner.SubsequenceMember | wd.py:250 | An element of a subsequence is an element of the sequence. |
| Planner.PlanOrder | wd.py:244-253 | The collected URLs keep the order in which the searches returned them. |
| Planner.PlanStopsAtCap | wd.py:240-241 | Once the cap is reached, no later extension is searched: the remaining extensions change neither the URLs nor the log. |
| Planner.Accumulate | wd.py:249-253 | The inner loop computes the accumulation. New URLs match the extension and come from the result list, duplicates are never added, and the cap holds. Ending below the cap, it holds every matching result. |
| Planner.SearchExtension | wd.py:244-256 | The engine loop for one extension yields the fallback's log and the accumulation of its results. |
| Planner.PlanProperties | wd.py:235-256 | From no URLs, the search loop's list is bounded by `max` and duplicate-free. It is in discovery order, and every URL has an allowed suffix. |
| Planner.SearchCandidates | wd.py:235-256 | The nested loops compute the search plan for the primary-first engine order, with the same guarantees. |
| Pipeline.CountSuccesses | wd.py:263-268 | The count is the number of `True` results, whatever their order. It equals the total exactly when every download succeeded. |
| Pipeline.ChooseAllowed | wd.py:222 | A missing or empty `--only` selects `ALL_EXTENSIONS`; any other value is parsed by `parse_only`. The chosen keys are plain, unique suffixes. |
| Pipeline.AllowedFor | wd.py:222 | The allow-list `main` uses: every key of a successful choice is a plain suffix, and no key repeats. |
| Pipeline.DownloadAll | wd.py:263-266 | The `i`-th verdict is `download_with_retry`'s verdict for the `i`-th candidate, and the files are those after the downloads one after the other. |
| Pipeline.DownloadOne | wd.py:264-266 | One candidate's download: its verdict and its files are the `i`-th step of the verdict and file folds. |
| Pipeline.SavedListAt | wd.py:263-268 | Entry `i` of the verdict list is `Saved` for candidate `i` with its token and its attempts. |
| Pipeline.DownloadsStayInside | wd.py:263-268 | After any number of downloads, only files directly inside the output directory have changed. |
| Pipeline.Run | wd.py:222-270 | An unknown `--only` token fails before any search. No candidates means no downloads. Otherwise every candidate is downloaded, and the count is the number of candidates whose download `Saved` a file. The files are those after the downloads in turn. The candidates are the search plan's, bounded and duplicate-free, and only files inside the output directory change. |

## Left out

- HTTP and HTML: `requests.get`, timeouts, the User-Agent rotation and BeautifulSoup's CSS selection are inputs. Each response is an attempt-indexed oracle giving a status and the selected hrefs, and a request exception is one of its outcomes.
- libmagic: the sniffed MIME type is part of each download attempt's input. An exception raised by `magic.from_file` is not modelled; the code does not catch it, so it would escape `download_with_retry`.
- `time.sleep`: pauses are recorded as numbers of seconds instead of slept.
- Concurrency: the thread pool in `main` is replaced by sequential downloads. Only the order-independent count of successes is kept, so interleavings of two downloads of the same destination are not modelled.
- `argparse`, `logging`, `datetime`, `mkdir`, `sys.exit` and the naming of the default output directory: the output directory and the options are parameters. `sys.exit(1)` is the `NoCandidates` outcome, and `--workers` has no effect in a sequential model.
- `uuid.uuid4().hex`: the fresh token is a parameter, any 32 lower-case hex digits.
- Unicode: `str.isalnum` and `str.lower` are restricted to ASCII, while `str.isspace` uses Python's full whitespace list.
- Engines.Unquote: decodes each `%XX` to the single character with that code. Multi-byte UTF-8 sequences are not combined, which is exact for ASCII targets only.
- Paths.UrlPath: follows `urlsplit` for scheme, network location, query, fragment and `;params`. It does not model the `ValueError`s for malformed IPv6 brackets or NFKC-decomposing network locations.
- Paths.Destination: `..` components are kept as they are and not resolved against the parent directory. A destination named `..` is never written itself; only the files derived from it are, and those are inside the output directory.
- Paths: paths are sequences of components, with no drive or root. An absolute output directory is modelled by its components.
- Download.FileSystem.Rename: does not model an `OSError` from `rename`, such as renaming onto a non-empty directory. The code would retry that attempt.
- Engines.DuckDuckGoSearch: uses the corrected unwrap of the first Findings row (`href[4:]`), not the `href[3:]` of wd.py:93. `Engines.UnwrapAsWrittenMissesRedirect` shows what the code as written returns instead.
- Download.DownloadWithRetry: uses the corrected destination of the second Findings row. `Paths.DestinationAgrees` shows it equals the code's destination whenever the stem is not `.`.
- Download.DownloadWithRetry: `attempts ≤ 0` returns `None` in the code and `false` here. Both count as not downloaded.
- Retry.GetWithRetry and the engines: `max_results` is not sent to DuckDuckGo or Bing, and Google's `num` parameter is not modelled. Only the caps applied to the extracted links are.
- Planner.Event: the log records each search with the list it returned, and each pause; the log messages themselves are left out.
- Pipeline.Run: uses the corrected destination of `Paths.Destination`, so the run never writes outside the output directory. `download_with_retry` as written can (Findings).

## Findings

| source | as written | input that shows it | evidently intended | confidence | as-written member | corrected member |
|---|---|---|---|---|---|---|
| wd.py:93 | `href[3:].split('&')` keeps the leading `?`, so the first parameter reads `?uddg=…` and never starts with `uddg=`. | The usual DuckDuckGo result link `/l/?uddg=https%3A%2F%2Fexample.com%2Fa.pdf&rut=…` is returned unchanged. | `href[4:]`, so that the first `uddg=` parameter is found and its value unquoted. | not executed | Engines.UnwrapAsWrittenMissesRedirect | Engines.UnwrapRedirect |
| wd.py:184-188 | The stem of `Path(url)` can sanitize to `.`, and `outdir / "."` is `outdir` itself. The destination then becomes `outdir.with_suffix(ext)`. | For `https://example.com/..pdf` with `.pdf` allowed, output directory `out` gives destination `out.pdf` beside `out`. The output directory `.` makes `with_suffix` raise `ValueError`. | Every download lands inside the output directory; a `.` stem falls back to the fresh token like an empty one. | not executed | Paths.DotStemEscapesOutdir | Paths.DotStemStaysInside |
