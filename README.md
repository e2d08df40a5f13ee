# Yupoo album downloader, modelled in Dafny

`Script.py` logs into a password-protected Yupoo album and saves the full-size image behind
each thumbnail. Once the browser is replaced by inputs, four decisions remain, and this
project models each of them and proves what the script promises about it:

- **Resolver** (`resolver.dfy`, `get_final_image_url`). It reads the viewer `<img>`'s `src`,
  then `data-origin`, then `data-src`, and stops at the first value that is present,
  non-empty and not a `data:image` placeholder. `data-src` comes back verbatim. The model
  also records which attributes were read, so "looks at no other attribute" can be stated.
- **Fetcher** (`fetcher.dfy`, `get_image_bytes`). An empty value gives `None`. An inline
  `data:image/` value is decoded locally from the text after its first comma. Any other
  value is rewritten: `//` gets `https:`, and whatever still lacks `http` is joined against
  the page URL. It is then fetched with one GET that carries the page as `Referer`. An
  exception becomes a `Failed` result naming its cause.
- **Naming** (`naming.dfy`). The extension is `os.path.splitext` of the resolved value, as
  `posixpath` computes it, with `.jpg` as the fallback. The file name is
  `NOMBREDEARCHIVO_{idx}_de_{total}{ext}`.
- **Walker** (`walker.dfy`, `download_big_images`). A method with a `for` loop over the
  thumbnails, numbered from 1. The total is fixed before the loop. A thumbnail that yields
  nothing is skipped, and a viewer that never opens ends the walk. The method is proved
  equal to a specification function, `SavedFiles`. The properties of the walk are lemmas
  about that function.

`text.dfy` holds the Python string operations the script uses (`startswith`, `in`,
`split(",", 1)`, `str(int)`) and the `rfind` that `splitext` relies on. `base.dfy` holds
`Option` and bytes.

The browser, the HTTP transport and two library calls are inputs:

- `Thumb.viewer` is what a click on the thumbnail leads to: the viewer's attribute map, or a
  time-out.
- `Thumb.server` answers the session's GET for that thumbnail.
- `Session.pageUrl` is `page.url`.
- `Library.join` stands for `urljoin`, and `Library.decode` for `b64decode`; `None` means
  the decode raised.

Two behaviours of the script worth knowing:

- **Query strings.** `splitext` keeps a query string in the extension, so `photo.png?x=1`
  is saved with extension `.png?x=1`, not `.png` (`QueryStringExample`).
- **Viewer time-out.** The wait for the viewer (line 86) is outside the `try`, so a time-out
  there ends the whole walk rather than skipping one item (`DownloadBigImages`,
  `completed == false`).

## Model

| member | source | states |
|---|---|---|
| Resolver.FinalImageUrl | Script.py:7-27 | `get_final_image_url`, returning the value and the attributes it read. Its contract is `FinalImageUrlConsults`, and `ResolverIsFirstUsable` ties it to the list form of the rule. |
| Resolver.FinalImageUrlConsults | Script.py:7-27 | The attributes are read in the order `src`, `data-origin`, `data-src`. Reading stops after the first usable one, in both directions of each case. The value returned is the last attribute read. |
| Resolver.SrcWins | Script.py:17-19 | A present, non-empty, non-`data:image` `src` is returned exactly, and only `src` is read. |
| Resolver.DataOriginWins | Script.py:22-24 | With an unusable `src`, a usable `data-origin` is returned exactly. |
| Resolver.DataSrcVerbatim | Script.py:26-27 | With both unusable, `data-src` is returned as it is: absent, empty or inline alike. |
| Resolver.ResolverReadsOnlyConsulted | Script.py:17-27 | Two elements that agree on the attributes read resolve alike, whatever other attributes they carry. |
| Resolver.FirstUsable | Script.py:16-27 | The list form of the rule: the result is the fallback, or a usable candidate from the list. |
| Resolver.FirstUsableIsFirst | Script.py:16-24 | The list form returns candidate `k` when it is usable and every earlier one is not. |
| Resolver.FirstUsableFallsThrough | Script.py:26-27 | With no usable candidate, the list form returns the fallback unchecked. |
| Resolver.ResolverIsFirstUsable | Script.py:7-27 | The chain of guarded returns equals the first-usable rule over `[src, data-origin]` with fallback `data-src`. |
| Fetcher.Normalize | Script.py:45-51 | `//x` becomes `https://x`, which starts with `http`. Another `http` URL is unchanged. Anything else is `join(page.url, url)`. |
| Fetcher.GetImageBytes | Script.py:29-58 | `get_image_bytes`, with the GET answered by `server`. Its contract is `GetImageBytesCases`. |
| Fetcher.GetImageBytesCases | Script.py:29-58 | Absent or empty input gives `NoSource` with no request (iff). Inline input sends no request (iff). Inline input without a comma fails (iff). Otherwise the result is the decode of the text after the first comma. Non-inline input sends exactly one GET, for the normalised URL, with `Referer` = page URL. Its reply decides the result: the body when ok; an error carrying the status and URL when not ok; a transport failure when it raised. |
| Fetcher.NormalizedShape | Script.py:46-51 | A normalised URL starts with `http` or is what the join returned. |
| Fetcher.NormalizeIdempotent | Script.py:46-51 | Normalising an `http` result again changes nothing. |
| Fetcher.AbsoluteNeedsNoJoin | Script.py:46-51 | `//` and `http` URLs never reach the join: two joins give the same result for them. |
| Fetcher.ProtocolRelativeExample | Script.py:46-47 | `//cdn.example/x.jpg` is requested as `https://cdn.example/x.jpg`. |
| Fetcher.OkBodyUnchanged | Script.py:54-58 | An ok reply's body is returned unchanged, whatever its status code. |
| Text.StartsWith | Script.py:18 | `str.startswith`. Its contract is `StartsWithChars`. |
| Text.StartsWithChars | Script.py:18 | `startswith` holds iff the prefix is no longer than the string and matches it character by character. |
| Text.Contains | Script.py:111 | `p in s` for strings. Its contract is `ContainsAt`. |
| Text.ContainsAt | Script.py:111 | `p in s` holds iff `p` occurs in `s` at some offset. |
| Text.IndexOf | Script.py:42 | The first comma that `split(",", 1)` cuts at: `None` iff there is none; otherwise a comma with none before it. |
| Text.AfterFirstComma | Script.py:42 | `None` exactly when there is no comma (Python's IndexError). Otherwise the text after the first comma. |
| Text.LastIndexOf | Script.py:110 | `rfind`: -1 iff the character is absent; otherwise its position, with none after it. |
| Text.Decimal | Script.py:118 | `str(n)`: a non-empty run of digits without a leading zero. |
| Text.DecimalRoundTrip | Script.py:118 | Reading the digits back gives `n`. |
| Text.DecimalInjective | Script.py:118 | Different ordinals give different digit strings. |
| Naming.Basename | Script.py:110 | The basename `splitext` looks at, everything after the last `/`. Its contract is `BasenameTail`. |
| Naming.BasenameTail | Script.py:110 | The basename is a tail of the path with no `/` in it. |
| Naming.SplitExt | Script.py:110 | Root and extension concatenate to the input. The extension is empty, or starts with its only dot and holds no `/`. |
| Naming.SplitExtFindsExtension | Script.py:110 | The extension is non-empty iff the basename has a dot after some non-dot character. |
| Naming.SplitNameAtLastDot | Script.py:110 | For `dir/stem.tail`, with `stem` not starting with a dot and no dot in `tail`, the extension is `.tail`. |
| Naming.LeadingDotsAreNoExtension | Script.py:110 | A basename of leading dots followed by a name without dots has no extension; the root is the whole input. |
| Naming.HiddenFileExample | Script.py:110 | `img/..hidden` gets no extension. |
| Naming.Extension | Script.py:110-112 | The extension the script gives a file. Its contract is `ExtensionRule`. |
| Naming.ExtensionRule | Script.py:110-112 | The extension is non-empty and starts with `.`. It is `.jpg` or a suffix of the raw value. It is `.jpg` when `splitext` finds none or the value contains `data:image`. Otherwise it is the `splitext` extension. |
| Naming.ExtensionKeepsQuery | Script.py:110-112 | The extension runs from the last dot to the end of the value, so a query string stays attached. |
| Naming.QueryStringExample | Script.py:110-112 | `photo.png?x=1` gives `.png?x=1`. |
| Naming.NoDotFallsBack | Script.py:110-112 | `https://site.example/album/42` falls back to `.jpg`. |
| Naming.FileName | Script.py:118 | The f-string `NOMBREDEARCHIVO_{idx}_de_{num_thumbs}{ext}`. Its contract is `FileNameShape` and `FileNameInjective`. |
| Naming.FileNameShape | Script.py:118 | The name starts with `NOMBREDEARCHIVO_{idx}_de_` and ends with `{total}{ext}`. |
| Naming.FileNameInjective | Script.py:118 | A name built with dotted extensions determines its ordinal, total and extension. |
| Naming.OrdinalPrefixUnique | Script.py:118 | A name starts with `NOMBREDEARCHIVO_{i}_de_` for one ordinal `i` only. |
| Naming.FileNameExample | Script.py:117-118 | Thumbnail 1 of 29, saved as JPEG, is `NOMBREDEARCHIVO_1_de_29.jpg`. |
| Walker.Outcome | Script.py:83-122 | What one thumbnail gives the walk. Its contract is `OutcomeWritesFetchedBytes`, and `SaveImage` is its method form. |
| Walker.OutcomeWritesFetchedBytes | Script.py:83-122 | A thumbnail writes a file iff its viewer opens, the resolver gives a non-empty value and the download gives non-empty data. The file holds those bytes, under `FileName(idx, total, ext of the raw value)`. |
| Walker.OutcomeFile | Script.py:83-122 | A thumbnail's file is its downloaded, non-empty bytes, named `FileName(idx, total, ext)` with `ext` taken from the resolved value. |
| Walker.OutcomeNumbered | Script.py:118 | A thumbnail's file name carries its own ordinal. |
| Walker.SaveImage | Script.py:89-122 | One loop pass after the viewer opens gives exactly that thumbnail's outcome. |
| Walker.ProcessThumb | Script.py:89-122 | After thumbnail `idx`, the written files are those of the first `idx` thumbnails. |
| Walker.DownloadBigImages | Script.py:69-129 | `completed` iff every viewer opened. The written files are `SavedFiles` of the thumbnails before the first time-out, numbered from 1, each named against the total counted before the loop. |
| Walker.Reached | Script.py:79-86 | The walk reaches every thumbnail before the first time-out, and stops at that one. |
| Walker.ReachedFirstTimeout | Script.py:85-86 | A time-out at position `n`, after `n` opened viewers, ends the walk there. |
| Walker.SavedFiles | Script.py:79-122 | The files the loop writes, in order. Its contract is `SavedFilesAreKeptOutcomes`, and `DownloadBigImages` is proved equal to it. |
| Walker.SavedFilesAreKeptOutcomes | Script.py:79-122 | The loop's files, accumulated from the back, equal the outcomes filtered from the front. |
| Walker.SavedFilesAppend | Script.py:79-107 | The files of a run split into two parts are those of the parts, the second numbered on from the first. A skipped thumbnail leaves the later ones as they are. |
| Walker.SavedFilesSnoc | Script.py:79-122 | One more thumbnail appends its own file, if any, at the end. |
| Walker.SavedFileHasOrigin | Script.py:79-122 | Every written file is the outcome of one thumbnail at the ordinal of its position. |
| Walker.SuccessIsSaved | Script.py:109-122 | Every thumbnail that yields a file has it written. |
| Walker.SuccessInPrefix | Script.py:79-122 | Among the first `n` thumbnails, every one that yields a file has it written. |
| Walker.WalkFileNamed | Script.py:74-122 | Take a thumbnail at position `k + 1` that the walk reached and that yields a file. That file is written, holds the downloaded bytes and is named `NOMBREDEARCHIVO_{k + 1}_de_{len(thumbs)}{ext}`. |
| Walker.OneFilePerSuccess | Script.py:109-122 | The number of files written equals the number of thumbnails that yield one. |
| Walker.SavedNameIs | Script.py:74-118 | Every written file is named `NOMBREDEARCHIVO_{k}_de_{total}{ext}`, where `k` is an ordinal of the walk, `total` is the same for all files and `ext` is dotted. |
| Walker.NumberedSeparates | Script.py:118 | Files carrying different ordinals have different names. |
| Walker.SavedNamesDistinct | Script.py:118-122 | No two files of a walk share a name, so none overwrites another. |

## Left out

- Playwright is not modelled: the login, `goto`, `wait_for_selector`, `click` and `query_selector(_all)`. The thumbnails and what their viewers show are inputs, and `page.url` is a fixed string.
- The `run` entry point and the `__main__` block (lines 131-165) are not modelled; they are setup with fixed strings.
- `urljoin` and `b64decode` are function parameters; their internals (RFC 3986 section 5.2, RFC 4648 section 4) are not modelled. `Fetcher.Normalize` can therefore state only that a relative value is passed to the join, not what the join returns.
- The HTTP transport, cookies and authentication are not modelled. A reply is an (ok, status, body) triple, or `Unreachable` when the request raised.
- The filesystem is not modelled: `os.makedirs`, `os.path.join`, `open`/`write`. The walk returns the sequence of (name, bytes) files it writes.
- The `time.sleep` delays are left out.
- The logging label `data-id or str(idx)` and the `print` calls are left out; they change no behaviour.
- Naming.SplitExt: models `posixpath.splitext`, the `os.path` of POSIX systems. On Windows, `os.path` is `ntpath`, whose `splitext` also treats `\` as a separator, so `a.png?p=x\y` would get `.jpg` there rather than `.png?p=x\y`.
- Walker.DownloadBigImages: closing the viewer (lines 94-95, 105-106, 127-128) is assumed to succeed. In the script a time-out of those waits, or an exception from `click`, would also end the walk.
- Walker.DownloadBigImages: the a-priori wait for the thumbnails (line 69) is assumed to succeed. Its time-out would end the run before the loop.
- Exceptions other than those `Fetcher.FetchError` names are not modelled. An example is one raised by `get_attribute`.
