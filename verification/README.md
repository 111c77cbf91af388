# comicScrape, modelled in Dafny

comicScrape is a PHP script that keeps a local comics library up to date. For every line of
its titles file it does the following:

- It works out the search term and the title.
- It scans the title's directory for the highest issue number already owned.
- It gathers the catalog's search result pages for the search term.
- It then downloads the next issues one after another: issue `n + 1`, `n + 2`, and so on.
  This continues until the result pages hold no link for the next issue, or until an issue
  page offers neither a download link nor a readable gallery.

At the end it prints a summary of every file saved.

This project models that core as pure functions over immutable data. The modules follow the
script's steps:

| module | what it models |
|---|---|
| `Text` | PHP's `rtrim`, `explode`, `strtolower`, `stristr`/`strpos` and string truthiness, plus the small regex building blocks: literal runs, greedy character-class runs, leftmost match |
| `Numbers` | decimal printing and `(int)` parsing of digits, `sprintf("%03d")` |
| `UrlCodec` | `urlencode` and `urldecode` |
| `Titles` | the `search term\|title` line format |
| `Library` | the owned-issue scan and the next wanted issue |
| `Target` | `create_target_url`, and the match of the pattern it builds against the result pages |
| `Search` | the page cap and the early stop of the search loop |
| `IssuePage` | the `Download Now` and `Read Online` anchors, and the image list of the online reader |
| `Filenames` | `is_zip`, `get_real_filename`, and the names the script composes itself |
| `Acquire` | the per-title acquisition loop |
| `Run` | the loop over all titles, and the summary |

The regular expressions the script builds are modelled as explicit deterministic matchers:

- Each matcher finds the leftmost match.
- Greedy runs stop at the first character outside their class.
- Where backtracking could matter, the function's doc comment says why it cannot change the result.

The network, the directory listing and the slug library are parameters of the model:

| parameter | stands for |
|---|---|
| `fetch` | `file_get_contents` of a URL |
| `download` | the download with a referer, giving headers and body |
| `listDir` | `scandir` |
| `slugify` | `Slugify::slugify` |

Each is a deterministic function of its arguments.

## Model

| member | source | states |
|---|---|---|
| Text.RTrim | comicScrape.php:104 | `rtrim` keeps a prefix of the text that does not end in a trim character, and drops only trim characters. |
| Text.Split | comicScrape.php:106 | `explode` gives pieces that join back to the text with the delimiter, none holding the delimiter. There is more than one piece exactly when the delimiter occurs. |
| Titles.ParseTitleLine | comicScrape.php:104-111 | The search term is the text before the first `\|` (or the trimmed line). The title agrees with the script's whenever the script's title is truthy (neither `""` nor `"0"`). The title is never empty when the search term has non-space text. The title never ends in whitespace. |
| Titles.ParseTitleLineAsWritten | comicScrape.php:104-111 | The script's parse as written. Without a `\|` the line is right-trimmed for both fields. With one, the search term is the `\|`-free text before the first `\|`. The title never ends in whitespace. |
| Titles.ParsePair | comicScrape.php:105-111 | For `a\|b` the search term is `a`. The title is `rtrim(b)` when `b` is truthy, and `rtrim(a)` otherwise. |
| Titles.LaterFieldsIgnored | comicScrape.php:106 | Fields after the second `\|` do not change the parse. |
| Titles.PairLine | comicScrape.php:104-111 | A line `a\|t\n`, as `file()` returns it, gives search term `a` and title `t`. |
| Titles.OnceAndFuture | comicScrape.php:102-107 | The example from the source's own comment: `Once and Future\|Once & Future` is searched as `Once and Future` and filed as `Once & Future`. |
| Titles.PairAgree | comicScrape.php:107-111 | The corrected pair parse differs from the script's only where the script's title is falsy, and it always gives a non-empty title for a non-blank search term. |
| Titles.EmptyTitleAsWritten | comicScrape.php:107-111 | `a\|\n` yields an empty title as written, and title `a` once corrected. |
| Library.LatestIssueOwned | comicScrape.php:120-126 | The result is the largest issue number any file name captures, or 0. Every captured number is at most the result, and the result is either 0 or captured by some file. |
| Library.OwnedMaxUnique | comicScrape.php:120-126 | Only one number has that property, so the scan's answer is determined by the listing. |
| Library.OrderIndependent | comicScrape.php:121 | Listings with the same names give the same latest issue, whatever their order. Reversing the listing, as the script does, changes nothing. |
| Library.WantedIssue | comicScrape.php:128 | The wanted issue is one more than the largest number owned, so it is at least 1. |
| Library.NothingOwned | comicScrape.php:120-128 | A directory without a matching name gives latest issue 0 and wanted issue 1. |
| Library.AddOwned | comicScrape.php:120-126 | Adding a file that captures issue `w` makes the latest issue the maximum of the old one and `w`. |
| Library.IssueInNameAt | comicScrape.php:122-123 | When `<title>\s+#?v?(\d+)` (case-insensitive) captures a number from a file name, the title has no `/`, and the number is the capture at the leftmost position where the pattern matches. |
| Library.IssueInNameNone | comicScrape.php:122-123 | When nothing is captured, either the title holds `/` (which breaks the pattern's delimiter) or the pattern matches at no position of the name. |
| Library.NamedIssue | comicScrape.php:122-123 | A name `<title> <digits><non-digit…>` is read as the number those digits spell. |
| Numbers.ParseIntToString | comicScrape.php:123 | Reading back the decimal form of `n` gives `n`. |
| Numbers.Pad3 | comicScrape.php:243 | `%03d` is all digits, at least three long, reads back as `n`, and is the plain decimal form from 100 on. |
| Numbers.LengthBound | comicScrape.php:176 | A number has at most `k` digits exactly when it is below `10^k`. |
| UrlCodec.UrlEncode | comicScrape.php:141 | `urlencode` leaves only letters, digits, `-`, `_`, `.`, `+` and `%` in the text, so the term cannot end or split the query. |
| UrlCodec.UrlDecode | comicScrape.php:283 | `urldecode` never makes a text longer. |
| UrlCodec.DecodeEncode | comicScrape.php:141 | `urldecode(urlencode(s)) == s`. |
| UrlCodec.DecodePlain | comicScrape.php:283 | Text without `%` or `+` is left alone by `urldecode`. |
| Target.EscapeSlashes | comicScrape.php:293 | `str_replace('/', '\/', …)` never shortens the text, and every slash in its result comes right after a backslash. |
| Target.CreateTargetUrl | comicScrape.php:290-296 | Un-escaping the result gives `<siteUrl>/[^/]+/<slug>-<wanted>-\d{4}`. Every slash in it is escaped. Without backslashes in the inputs, it can sit between `/` delimiters. |
| Target.UnescapeEscape | comicScrape.php:293 | Escaping the slashes loses nothing: un-escaping gives the input back. |
| Target.PatternDelimited | comicScrape.php:292-293 | Without backslashes in the site URL and slug, the escaped pattern holds no unescaped `/`, so PHP reads it whole. |
| Target.FindTarget | comicScrape.php:176-177 | A match fits in the pages and is longer than the wanted issue's digits, since it holds them. |
| Target.FindTargetAt | comicScrape.php:176-177 | A match comes from a well-delimited pattern. It is the text of the pages at the leftmost position where the pattern matches. |
| Target.FindTargetNone | comicScrape.php:176-177 | No match is found exactly when the pattern is not well delimited or no position of the pages matches. |
| Target.MatchIsUrl | comicScrape.php:176-177 | Text the pattern matches is a target URL built from the site URL, some non-empty segment without `/`, `<slug>-<wanted>-` and four digits. |
| Target.FoundWhenPresent | comicScrape.php:176 | Pages that contain such a URL always yield a match. |
| Target.FoundInLonger | comicScrape.php:143-156 | A match in some pages is still a match when more pages are appended. |
| Target.MatchInLonger | comicScrape.php:143-154 | A match at a position ends at the same place when text is appended. |
| Search.PageCap | comicScrape.php:133-137 | The cap is one page for a series already started (wanted issue above 1) when the configuration asks for it, and the configured depth otherwise. |
| Search.SearchUrlDistinct | comicScrape.php:140-141 | Different page numbers give different search URLs. |
| Search.PageInCorpus | comicScrape.php:140-143 | Page `i` sits whole in the corpus, right after the pages before it. |
| Search.CorpusGrows | comicScrape.php:138-143 | The corpus of fewer pages is a prefix of the corpus of more. |
| Search.GatherPages | comicScrape.php:131-160 | The search fetches pages 1, 2, … in order and never beyond the cap. With the early stop off, it fetches all pages up to the cap. It stops before the cap only with the early stop on and a match present. With the early stop on, no shorter corpus already held the match. When the configuration asks for one page per started series, a series already started fetches at most one page. |
| Search.StopPage | comicScrape.php:138-157 | The first page up to the cap whose corpus holds a match for the wanted issue, or the cap: every earlier corpus holds none. |
| Search.PagesFetched | comicScrape.php:131-160 | A page count the stopping rule admits always exists. |
| Search.StopRuleUnique | comicScrape.php:131-160 | The stopping rule admits only one page count, so the pages a search fetches are fixed by the inputs. |
| Search.EarlyStopSound | comicScrape.php:148-157 | Stopping early loses nothing: the match would still be there after any further page. |
| IssuePage.FindHref | comicScrape.php:184-196 | A link found is non-empty and quote-free. |
| IssuePage.FindHrefAt | comicScrape.php:184-196 | A link found is the capture at the leftmost position where the anchor pattern matches. |
| IssuePage.FindHrefNone | comicScrape.php:184-196 | No link is found exactly when the anchor pattern matches at no position. |
| IssuePage.AnchorRoundTrip | comicScrape.php:184-186 | A page starting with `href="<url>" title="<caption>"` yields `<url>`. |
| IssuePage.GalleryImages | comicScrape.php:200 | Every image URL found is non-empty and space-free. |
| IssuePage.GalleryEmpty | comicScrape.php:200-203 | No image is found exactly when the gallery pattern matches at no position. |
| IssuePage.GalleryRoundTrip | comicScrape.php:200-205 | A reader page made of image tags yields exactly those images, in order. |
| IssuePage.PageFilesDistinct | comicScrape.php:204-205 | The pages are saved as `1.jpg`, `2.jpg`, …, no two under the same name. |
| Filenames.IsZip | comicScrape.php:344-347 | A body counts as a zip archive exactly when the signature `PK\x01\x02` occurs in it. |
| Filenames.ZipWherever | comicScrape.php:344-347 | Wherever the signature sits, the body is a zip archive. |
| Filenames.ShortIsNotZip | comicScrape.php:344-347 | A body shorter than four bytes is never a zip archive. |
| Filenames.ArchiveExtension | comicScrape.php:242 | The extension is `.cbz` exactly for a zip archive, and `.cbr` exactly otherwise. |
| Filenames.LastSegment | comicScrape.php:283-284 | What `\/([^\/]+)$` captures is non-empty and slash-free. |
| Filenames.LastSegmentSpec | comicScrape.php:283-284 | The capture is the end of the text, right after a slash. Nothing is captured exactly when no position matches. |
| Filenames.LastSegmentOf | comicScrape.php:283-284 | The name after the last slash of a URL is what is captured. |
| Filenames.TrailingSlash | comicScrape.php:283-284 | A header ending in `/` names no file. |
| Filenames.IsLocationSpec | comicScrape.php:281 | A header counts as a location header exactly when `location`, in any mix of cases, occurs in it. |
| Filenames.LocationAnyCase | comicScrape.php:281 | `Location:`, `location:` and `LOCATION:` all count, wherever the word sits. |
| Filenames.RealFilename | comicScrape.php:276-287 | A name comes back only from a header mentioning `location`, and it is non-empty and slash-free. |
| Filenames.FirstLocationWins | comicScrape.php:279-285 | Only the first `location` header counts. Headers before and after it do not matter, even when it names no file. |
| Filenames.NoLocation | comicScrape.php:286-287 | Without a `location` header, no name comes back. |
| Filenames.ResolveFilename | comicScrape.php:238-245 | The server's name is used when it is truthy. Otherwise the name is `<title> <%03d wanted><ext>`. The name is never empty. |
| Filenames.FallbackOwned | comicScrape.php:243 | A composed name is read back by the owned-issue scan as the issue it was saved for. |
| Filenames.GalleryOwned | comicScrape.php:207 | So is the name of a gallery archive. |
| Acquire.StepAt | comicScrape.php:176-258 | One pass meets the pass description (`Acquire.PassSpec`). No match exactly when the pages hold no link for the wanted issue. A bail exactly when there is a match, no truthy download link and no reader images. A truthy link saves the download under its resolved name in the title's directory. Otherwise reader images save `<title> <%03d wanted>.cbr` there. A saved path always lies in the title's directory. |
| Acquire.PassSpecUnique | comicScrape.php:176-258 | The pass description leaves exactly one outcome per pass. |
| Acquire.NoLinksBail | comicScrape.php:186-215 | A detail page with neither a download link nor a reader link ends the loop. |
| Acquire.SavedBounded | comicScrape.php:172-176 | An issue can only be saved while its number's digits fit in the pages, so the loop ends. |
| Acquire.LoopFrom | comicScrape.php:167-261 | The next wanted issue is the starting one plus the number saved. |
| Acquire.LoopTrace | comicScrape.php:167-261 | Issue `start + k` is the one saved `k`-th. The loop stops at the first pass that saves nothing, and says why (no match, or bail). |
| Acquire.AcquireTrace | comicScrape.php:167-261 | The same trace for the script's own passes. |
| Acquire.AcquireTitle | comicScrape.php:167-261 | The loop as a method computes the trace above. |
| Acquire.AcquireLoop | comicScrape.php:167-261 | The loop's `while (true)` with `continue`/`break` computes the same outcome as the recursive definition. |
| Acquire.VisitIssue | comicScrape.php:176-258 | The script's pass, with its early exits, meets the pass description: no match, bail, download saved under its resolved name, or reader archive, each exactly in its case. |
| Acquire.SavedInTitleDir | comicScrape.php:207-248 | Every path saved for a title lies in that title's directory. |
| Acquire.NothingFound | comicScrape.php:260 | Pages without a link for the wanted issue end the title at once, with nothing saved. |
| Acquire.OwnedAfterSave | comicScrape.php:243 | After a composed name is saved, the next run wants a later issue. |
| Acquire.OwnedAfterGallery | comicScrape.php:207 | So it does after a gallery archive is saved. |
| Run.ProcessTitle | comicScrape.php:92-261 | One title is handled end to end. The line is parsed. The first wanted issue is one past the largest owned in the title's directory. The pages are the result pages up to the point the search loop's stopping rule fixes: the cap, or the first page whose corpus holds the wanted issue when the early stop is on. What is saved is the acquisition loop's outcome on those pages, which is what the line saves (`Run.LineSaves`), all inside the title's directory. |
| Run.RunTitles | comicScrape.php:91-267 | Every line is handled in order: the `j`-th list saved is exactly what line `j` saves (`Run.LineSaves`), and the saved list is those lists one after another. Every path lies in the directory of its own line's title. The summary reads back line by line. |
| Run.SummaryLines | comicScrape.php:264-267 | Split at line breaks, the summary is the header, the count line, then one ` <path>` line per saved file in order, and a final empty piece. |
| Run.ListingLines | comicScrape.php:265-267 | The listing part alone, split at line breaks, gives back each path after a space, in order. |
| Run.CountReadsBack | comicScrape.php:264 | The digits before ` downloaded issues.` parse to the number of files saved. |

## Left out

- Command-line option parsing and the `-a` handling that appends a title to the titles file (lines 1-101) are left out. They are I/O around the core.
- Reading the configuration file is left out; `Search.Config` holds its fields as given.
- Creating the title directory (`mkdir`) is left out. Writing files and `savedpage.txt` is left out too.
- Running `rar`, fetching the gallery's pages and writing them are left out. These are side effects. Only the page names (`IssuePage.PageFiles`) and the archive's name are modelled.
- The download progress callback, the ANSI colour output, `echo` and the `mail` of the summary are left out. The model has no output.
- The HTTP request headers (referer and user agent) are left out. The download oracle takes the referer, and the oracle's answer is all the model uses.
- The network, `scandir` and the Slugify library are oracles, as described above. A fetch that fails is an empty page, as `@file_get_contents` concatenated with `.=` gives.
- Library.IssueInName: of the regex metacharacters the title may hold, only `.` is treated as one. `/` is treated as breaking the delimiter. Other metacharacters (`(`, `[`, `+`, …) in titles are treated as plain text, because their effect on PCRE is not modelled.
- Target.FindTarget: the same holds for the site URL and the slug, where only `.` is a metacharacter. A backslash in them makes the delimiter check (`Target.Delimited`) decide whether PCRE accepts the pattern at all.
- Numbers.ParseIntToString: PHP's `(Int)` saturates at `PHP_INT_MAX` for any digit run whose value exceeds 9223372036854775807, whatever its length. The model uses unbounded naturals, because issue numbers that large do not occur in file names.
- Acquire.StepAt: a detail page without a `Read Online` link makes the script call `file_get_contents(null)`. PHP 7 warns and returns `false`, so the pass bails, and the model does that. PHP 8 throws a `ValueError` instead, which ends the whole run without a summary. The model does not describe that abort.
- Run.ProcessTitle: it parses the line with the corrected `Titles.ParseTitleLine` (see Findings). It differs from the script whenever `Titles.ParseTitleLineAsWritten(line).title` is not truthy, that is, `""` or `"0"` (`Titles.PairAgree`). Examples: `a|` with a line break and `a| ` with a line break give the script the title `""`, filed in `<comicDirectory>/` itself. `a|0` with a line break gives the script the title `"0"`, filed in `<comicDirectory>/0`. The model files all three under `<comicDirectory>/a`.
- Run.RunTitles: the same difference for every such line, through `Run.LineSaves`, `Run.ProcessTitle` and `Run.TitleDirs`.
- Acquire.VisitIssue: a failed download (`file_get_contents` returning `false`) is an oracle response with an empty body. `$http_response_header` is the oracle's header list.
- Case-insensitive matching folds ASCII letters only. PHP's `/i` without `/u` does the same for single bytes.

## Findings

| source | as written | input that shows it | evidently intended | confidence | as-written member | corrected member |
|---|---|---|---|---|---|---|
| comicScrape.php:104-111 | `$title = $filename ? $filename : $searchterm;` tests the second field before `rtrim`, and `file()` keeps the line break | the line `Saga\|` followed by a line break: the second field is `"\n"`, which is truthy, so the title becomes `""` after `rtrim` and the directory is the comics directory itself | an empty second field falls back to the search term, giving title `Saga` | not executed | Titles.EmptyTitleAsWritten | Titles.ParseTitleLine, proved equal to the script's parse wherever the script's title is truthy by Titles.PairAgree |

`Run` uses the corrected `Titles.ParseTitleLine`. `Titles.ParseTitleLineAsWritten` keeps the script's behaviour next to it.
