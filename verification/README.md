# Web scraper core, modelled in Dafny

This is a model of the logic inside a small desktop web scraper. The user
types a URL and chooses a data type: Headings, Links, Text Content or Images.
A background worker (`ScraperThread` in scraper.py) fetches and parses the
page and extracts that kind of data. It reports back through signals:

- one terminal `finished(text)` or `error(message)`;
- in Images mode, an `images_found(list)` of (URL, bytes) pairs emitted before
  `finished`.

The GUI shell (app.py) contributes two pieces of logic:

- it normalises the typed URL before a scrape starts;
- when the user saves found images, it names each file after its URL and
  renames it `base_1ext`, `base_2ext`, … until the name is free, so that no
  existing file is overwritten.

The files:

- `optional.dfy` holds the `Option` type.
- `text.dfy` models the Python string operations the code relies on:
  `str.isspace`, `strip()`, `rstrip(c)`, `split(c)`, `join`, `s * n`, the decimal
  rendering of an `int` and `rfind`.
- `seqs.dfy` holds order-preserving filtering. It models BeautifulSoup's
  `find_all` over a document and the `if` clause of a list comprehension.
- `scraper.dfy` models `ScraperThread.run`. A run is the sequence of signals it
  emits, in order. The method `Run` keeps the source's loops and is proved
  equal to the function `Outcome`, and the lemmas about each mode are stated
  on `Outcome`. The fetch and parse are one input: a failure with its text,
  or the document as a sequence of elements (tag, concatenated text,
  attributes). Each image download is asked of an oracle from URL to optional
  bytes.
- `app.dfy` models URL normalisation (`start_scraping`) and the save loop of
  `on_images_found`. The save directory is a `Directory` object whose set of
  names grows as files are written. Each write is an oracle outcome for the
  chosen name.

## Model

| member | source | states |
|---|---|---|
| `Scraper.Run` | scraper.py:23-80 | The emitted signals are exactly `Outcome` of the page, the mode and the downloads, so every run emits one terminal `finished` or `error`, preceded at most by a non-empty `images_found` that is then followed by `finished`. |
| `Scraper.Outcome` | scraper.py:23-80 | Every run ends with exactly one terminal signal; the only signal that may precede it is a non-empty `images_found`, and then the run finishes. |
| `Scraper.WellFormedRun` | scraper.py:33-80 | In a well-formed run only the last signal is terminal, so no signal follows a `finished` or an `error`. |
| `Scraper.FetchFailureIsError` | scraper.py:24-27 | A failed fetch, HTTP status or parse ends the run with one `error` carrying the failure's text and nothing else. |
| `Scraper.HeadingLevel` | scraper.py:38 | The level read from an h1-h6 tag's digit lies in 1..6 and is the number the tag names. |
| `Scraper.HeadingLine` | scraper.py:39-42 | A heading line is 2(level - 1) spaces, then the five characters `[H<digit>] ` for the level, then the text, and nothing else. |
| `Scraper.HeadingLineParses` | scraper.py:38-42 | A heading line is two spaces per level below 1, then `[H<level>] `, then the text; level and text can be read back from the line. |
| `Scraper.RenderHeading` | scraper.py:38-42 | One heading's line ends with its stripped text, after a prefix two characters longer per level. |
| `Scraper.RenderAll` | scraper.py:37-42 | Rendering a list of headings gives one line per heading. |
| `Scraper.RenderAllAppend` | scraper.py:37-42 | Rendering keeps order: the lines of a concatenation are the lines of each part in turn. |
| `Scraper.HeadingLines` | scraper.py:37-42 | Headings mode renders at most one line per heading. |
| `Scraper.HeadingLinesReadBack` | scraper.py:40-42 | Every rendered heading line reads back as a level and a non-blank text. |
| `Scraper.HeadingLinesAppend` | scraper.py:37-43 | Heading lines follow document order: the lines of a concatenation are those of its first part followed by those of its second. |
| `Scraper.HeadingLinesSnoc` | scraper.py:37-42 | One more heading adds its rendered line exactly when its stripped text is not empty. |
| `Scraper.HeadingLinesEmpty` | scraper.py:41-47 | No line is produced exactly when every heading's stripped text is empty. |
| `Scraper.CollectHeadingLines` | scraper.py:36-43 | The loop builds exactly the rendered lines of the non-blank headings, in document order. |
| `Scraper.HeadingsOutcome` | scraper.py:30-48 | Headings mode fails with "No headings found on the page" exactly when there is no h1-h6 element; it fails with "No non-empty headings found on the page" exactly when there are headings but all are blank; otherwise it finishes with the lines joined by newlines and emits no error. |
| `Scraper.LinkLine` | scraper.py:51 | A link line is the stripped text, then ` - `, then the `href` value, and nothing else. |
| `Scraper.LinkLines` | scraper.py:50-52 | Links mode gives at most one line per element. |
| `Scraper.LinkLinesStartWithText` | scraper.py:51-52 | Every link line begins with a non-whitespace character, the first of the link's stripped text, and is at least four characters long: one of text plus the three of ` - `. |
| `Scraper.LinksTextEmpty` | scraper.py:50-52 | The joined link lines are empty exactly when no anchor with an `href` has non-blank text. |
| `Scraper.LinksOutcome` | scraper.py:49-52 | Links mode always finishes, with `text - href` lines joined by newlines; with no qualifying anchor it finishes with the empty text rather than an error. |
| `Scraper.ParagraphTexts` | scraper.py:54-55 | There is one text per paragraph, blank ones included. |
| `Scraper.ParagraphTextsStripped` | scraper.py:55 | Every paragraph text is stripped: empty, or without whitespace at either end. |
| `Scraper.TextContent` | scraper.py:55 | Without paragraphs the result is empty; one paragraph gives its text alone; with two or more, a blank line follows the first text even when the paragraphs are blank. |
| `Scraper.TextContentLength` | scraper.py:53-55 | n paragraphs, blank ones included, give n stripped texts and exactly n - 1 blank-line separators. |
| `Scraper.TwoParagraphs` | scraper.py:54-55 | Two paragraphs give their stripped texts around one blank line. |
| `Scraper.BaseUrl` | scraper.py:65 | The joined first three slash-separated components are a prefix of the page URL holding at most two slashes (all of them when it has fewer), ending where the next slash or the URL ends. |
| `Scraper.ResolveSrc` | scraper.py:61-68 | The resolved URL ends with `src`; a `src` starting with `http://` or `https://` is unchanged. |
| `Scraper.ResolveSrcPrefix` | scraper.py:61-68 | What precedes `src` is nothing for an absolute `src`; for a root-relative one, the scheme-and-host prefix of the page URL; otherwise the page URL without all its trailing slashes, followed by exactly one slash. |
| `Scraper.HostUrlBase` | scraper.py:65 | The base of `scheme//host/path` is `scheme//host`. |
| `Scraper.ResolveRootRelative` | scraper.py:64-66 | A `/`-prefixed `src` on `scheme//host/path` resolves to `scheme//host` followed by `src`. |
| `Scraper.ResolvePlainRelative` | scraper.py:67-68 | A relative `src` on a page URL without a trailing slash is appended after one slash. |
| `Scraper.SourcesOf` | scraper.py:60-61 | `img['src']` is taken once per image element: there is one source per image. |
| `Scraper.ImageSources` | scraper.py:57-61 | The sources visited are at most one per element of the page. |
| `Scraper.ImageSourcesAreSrcs` | scraper.py:57-61 | A string is a visited source exactly when some `img` element of the page carries it as its `src`. |
| `Scraper.ImageSourcesAppend` | scraper.py:57-61 | Sources follow document order: those of a concatenation are those of its first part followed by those of its second. |
| `Scraper.ImageFor` | scraper.py:61-72 | One image element contributes at most one image, whose bytes are non-empty and are what its download returned. |
| `Scraper.DownloadedImages` | scraper.py:58-72 | The list has at most one entry per image element, and each entry's bytes are non-empty and are what the download of its URL returned. |
| `Scraper.ResolvedCons` | scraper.py:60-68 | The resolved URLs of a list are the first source's resolved URL followed by those of the rest. |
| `Scraper.ImageForPairs` | scraper.py:70-72 | One source contributes an image exactly when its resolved URL's download is usable, and then that image carries the URL and the downloaded bytes. |
| `Scraper.PairsWithAppend` | scraper.py:60-72 | Images paired with URLs position by position stay paired when two such lists are concatenated. |
| `Scraper.DownloadedImagesAreUsableDownloads` | scraper.py:70-72 | The kept images are exactly the resolved URLs whose download returned non-empty bytes, in document order, each paired with those bytes. |
| `Scraper.DownloadedImagesAppend` | scraper.py:60-72 | The images kept from two runs of elements are those of the first followed by those of the second. |
| `Scraper.DownloadedImagesSnoc` | scraper.py:60-72 | One more image element adds exactly what that element contributes. |
| `Scraper.DownloadImages` | scraper.py:57-72 | The loop builds exactly the downloaded-images list of the image elements' sources. |
| `Scraper.FoundMessage` | scraper.py:76 | The summary is `Found `, the digits of the count, ` images`; the count can be read back from it. |
| `Scraper.ImagesOutcome` | scraper.py:56-78 | Images mode finishes with `Found K images`, where K counts the downloads that returned non-empty bytes and is at most the number of images. `images_found` is emitted, before `finished`, exactly when K > 0, and carries exactly those images. A failed download never ends the run with an error. |
| `Scraper.UnknownModeFinishesEmpty` | scraper.py:29-78 | A data type that is none of the four finishes with the empty text. |
| `App.NormalizeUrl` | app.py:498-503 | Blank input gives nothing. Otherwise the result is the stripped input when that starts with `http://` or `https://`, and exactly `https://` followed by the stripped input when it does not; the result always has a scheme. |
| `App.NormalizeUrlIdempotent` | app.py:498-503 | Normalising a normalised URL gives it back unchanged. |
| `App.StartScraping` | app.py:497-517 | Blank input starts no scrape; otherwise the worker runs on the normalised URL and emits what `Outcome` says. |
| `App.BeforeQuery` | app.py:560 | The part before the first `?`: a prefix of the URL, free of `?`, followed in the URL by `?` when shorter. |
| `App.Basename` | app.py:560 | The basename is a suffix free of `/`, preceded in the path by `/` when shorter. |
| `App.SplitExt` | app.py:566 | Base and extension concatenate to the name. The extension is empty or one dot followed by no dot and no slash. It is non-empty exactly when the last path component has a dot after some non-dot character, so it starts at the last dot of the component. |
| `App.FileNameFor` | app.py:560-562 | The first name tried is never empty and holds no `/` and no `?`. |
| `App.FallbackName` | app.py:561-562 | The fallback name is `image_`, the digits of n, `.jpg`; n can be read back from it. |
| `App.FallbackNameIsPlain` | app.py:561-562 | The fallback name `image_<n>.jpg` holds no `/` and no `?`. |
| `App.Candidate` | app.py:569 | A candidate is longer than the base and extension together. |
| `App.CandidateParts` | app.py:569 | A candidate is the base, `_`, the digits of the counter, and the extension; the counter can be read back from it. |
| `App.CandidateInjective` | app.py:569 | Different counters give different candidate names. |
| `App.CandidateIsNotName` | app.py:566-569 | No candidate equals the original name. |
| `App.FreeName` | app.py:564-570 | The chosen name is not in the directory. It is the file name itself when that is free; otherwise it is `base_kext` for the least k >= 1 whose name is free, every earlier candidate being taken. The loop terminates. |
| `App.Directory.Write` | app.py:572-573 | A successful write adds exactly the written name to the directory. A failed one adds it when `open` created the file before the error, and otherwise changes nothing. No other name changes. |
| `App.SaveImage` | app.py:559-577 | The chosen name was not in the directory. On success exactly that name is added. On failure it is added only if the file was created before the error, and the message is `\nError saving image <url>: <reason>`. |
| `App.SavedMessage` | app.py:579 | The final message is `\nSuccessfully saved `, the digits of the count, ` images to ` and the directory; the count can be read back from it. |
| `App.TurnSnoc` | app.py:558-577 | One more image and its chosen name extend the records by that write alone: its name joins the added names when the write left a file, the saved count rises by one exactly when it succeeded, and an error message naming the image is appended exactly when it failed. |
| `App.FreshInTurnAddsDistinct` | app.py:564-573 | When every name was fresh at its turn, no added name was in the directory before, and the directory gains one name per write that left a file. |
| `App.SavedCountBounds` | app.py:572-574 | No more writes succeed than leave a file, and no more leave a file than there are images. |
| `App.ErrorMessagesShape` | app.py:576-577 | There is one error message per failed write, and each starts with `\nError saving image `. |
| `App.SavedRecords` | app.py:556-579 | The records of a loop whose names were fresh add up: the directory grows by one name per write that left a file, and the messages are one per failed write, each with the error prefix, then the final one. |
| `App.SaveEach` | app.py:558-577 | The loop picks for each image, in turn, a name not in the directory as the earlier writes left it. The directory gains exactly the names whose writes succeeded or failed after creating the file. The saved count is the number of successful writes, and the error messages are those of the failed writes, each naming its image and its reason, in image order. |
| `App.SaveImages` | app.py:556-579 | Everything `App.SaveEach` states, then the final message `\nSuccessfully saved <count> images to <dir>`. No existing name disappears. The directory grows by exactly the number of writes that left a file, which is at least the saved count and at most the number of images. There is one error message per failed image before the final one. |
| `Text.Strip` | scraper.py:40 | The stripped text is the middle of the input, with whitespace only around it, starting and ending with a non-space character, and empty exactly when the input is all whitespace. |
| `Text.StripOfTrimmed` | app.py:498 | A string that starts and ends with a non-space character is its own strip. |
| `Text.RStripChar` | scraper.py:68 | `rstrip('/')` gives a prefix that does not end in `/`, and everything it removed is `/`. |
| `Text.Repeat` | scraper.py:39 | `s * k` is k times as long as `s` and uses only characters of `s`. |
| `Text.Join` | scraper.py:45 | Joining nothing gives the empty string; otherwise the join begins with the first part. |
| `Text.JoinCons` | scraper.py:45 | Joining a part in front of a non-empty list puts exactly one separator after it. |
| `Text.Split` | scraper.py:65 | A split has at least one part and no part holds the separator. |
| `Text.SplitJoin` | scraper.py:65 | Joining the parts of a split with the separator gives the string back. |
| `Text.CountCharJoin` | scraper.py:65 | Joining n separator-free parts puts exactly n - 1 separators in the result. |
| `Text.JoinLength` | scraper.py:55 | The length of a join is the parts' total length plus one separator per gap. |
| `Text.Decimal` | scraper.py:76 | `str(n)` is a non-empty string of digits without a leading zero. |
| `Text.DecimalRoundTrip` | scraper.py:76 | Reading `str(n)` back as a number gives n. |
| `Text.LastIndex` | app.py:560 | `rfind` gives -1 or an index holding the character, with none after it. |
| `Seqs.Filter` | scraper.py:31 | The selection keeps exactly the elements that satisfy the condition. |
| `Seqs.FilterAppend` | scraper.py:50-52 | Filtering a concatenation gives the filtered parts in order, so document order is kept. |
| `Seqs.FilterCons` | scraper.py:31 | A leading element is kept first exactly when it qualifies. |
| `Seqs.FilterEmpty` | scraper.py:32 | Nothing is selected exactly when no element qualifies. |

## Left out

- The HTTP requests (`requests.get`, `raise_for_status`) and the BeautifulSoup/lxml parse are library calls. The page is an input: a failure with the exception's text, or the element sequence in document order. Each element's `.text` is given already concatenated.
- `download_image` (scraper.py:15-21) is an oracle from URL to optional bytes. Two image elements that resolve to the same URL therefore get the same download outcome, which a real network need not give.
- Exception messages (`str(e)`) are opaque strings supplied by the oracles.
- QThread and pyqtSignal threading are not modelled. Only the order in which one run emits its signals is.
- What the shell does with the signals (`on_scraping_finished`, `on_scraping_error` and its `Error: ` prefix) is left out. So are the spinner, button states and placeholder text. These are presentation only.
- The confirmation dialog and the directory chooser of `on_images_found` are left out. `App.SaveImages` is the branch taken after "Yes" and a non-empty directory choice.
- Paths follow POSIX rules only; Windows `ntpath` is not modelled. `App.SplitExt` models `posixpath.splitext` in full, including its rule that a name whose part before the last dot is all dots (`.bashrc`) has no extension. This is more than a plain last-dot split.
- `os.path.join(save_dir, name)` is not modelled as a string: a chosen name never holds `/`, so the directory is modelled as the set of names in it. That set must include every name `os.path.exists` sees, `.` and `..` among them.
- A broken symbolic link, which `os.path.exists` reports as absent, is not distinguished from a missing name.
- The bytes written to each file are not recorded, and neither is whether a file left by a failed write is complete. Only the name the write adds is.
- App.SaveImage: states that the chosen name is fresh. It does not restate which name `App.FreeName` chooses for `App.FileNameFor` of the image's URL; `App.FreeName`'s own contract says that. `App.SaveEach` and `App.SaveImages` therefore state each image's name as fresh at its turn, not as the particular free name derived from its URL.
- Names in the directory are compared exactly. A case-insensitive file system, where `os.path.exists` finds `a.png` once `A.png` is written, is not modelled: there the source would pick `a_1.png` while the model may pick `a.png`.
- The write oracle gives one outcome per path. An image whose write failed without creating the file, and a later image that picks the same name, therefore get the same failure, which a real disk need not give.
- theme.py, main.py, the loading spinner's drawing, the help, about and demo windows, and the theme stylesheets are UI or bootstrap code with no logic to verify.
