/**
  The background extraction worker (`ScraperThread` in scraper.py).

  One run fetches the page, parses it and, depending on the selected data type,
  extracts headings, links, paragraph text or images. The worker reports through
  signals: a terminal `finished(text)` or `error(message)`, and for images an
  `images_found(list)` emitted before `finished`. A run is modelled as the
  sequence of signals it emits, in order.

  The fetch and the HTML parse are library calls: their outcome is the `Page`
  parameter (a failure with the exception's text, or the parsed document as the
  sequence of its elements in document order). Each image download is asked of
  an oracle from URL to optional bytes.
 */
module Scraper {
  import opened Optional
  import opened Text
  import opened Seqs

  newtype Byte = b: int | 0 <= b < 256

  type Bytes = seq<Byte>

  /** One element of the parsed document: its tag name, its text (the
      concatenated text of all its descendants, BeautifulSoup's `.text`) and
      its attributes. */
  datatype Element = Element(tag: string, text: string, attrs: map<string, string>)

  /** Outcome of `requests.get` + `raise_for_status` + `BeautifulSoup(...)`. */
  datatype Page = FetchFailed(reason: string) | Parsed(elements: seq<Element>)

  /** One downloaded image: its resolved URL and the bytes received. */
  datatype Image = Image(url: string, data: Bytes)

  /** The signals a `ScraperThread` emits. */
  datatype Signal = Finished(text: string) | Error(message: string) | ImagesFound(images: seq<Image>)

  const NoHeadings := "No headings found on the page"
  const NoNonEmptyHeadings := "No non-empty headings found on the page"

  const HeadingTags: set<string> := {"h1", "h2", "h3", "h4", "h5", "h6"}

  predicate IsHeading(e: Element) { e.tag in HeadingTags }

  /** `find_all('a', href=True)`: anchors that carry an `href` attribute. */
  predicate IsAnchor(e: Element) { e.tag == "a" && "href" in e.attrs }

  predicate IsParagraph(e: Element) { e.tag == "p" }

  /** `find_all('img', src=True)`: images that carry a `src` attribute. */
  predicate IsImage(e: Element) { e.tag == "img" && "src" in e.attrs }

  /** The element's text is not blank once stripped. */
  predicate HasText(e: Element) { Strip(e.text) != [] }

  // ---------------------------------------------------------------------------
  // Headings

  /** `int(h.name[1])`: the level a heading tag names. */
  function HeadingLevel(tag: string): (level: nat)
    requires tag in HeadingTags
    ensures 1 <= level <= 6 && tag == "h" + Decimal(level)
  {
    DigitValue(tag[1])
  }

  /** `f"{indent}[H{level}] {text}"` with `indent = "  " * (level - 1)`: two
      spaces per level below 1, then the five characters `[H<digit>] `, then the text. */
  function HeadingLine(level: nat, text: string): (r: string)
    requires 1 <= level <= 6
    ensures var n := 2 * (level - 1);
            && |r| == n + 5 + |text|
            && (forall i :: 0 <= i < n ==> r[i] == ' ')
            && r[n..n + 5] == ['[', 'H', DigitChar(level), ']', ' ']
            && r[n + 5..] == text
  {
    var indent := Repeat("  ", level - 1);
    assert forall i :: 0 <= i < |indent| ==> indent[i] == ' ' by {
      forall i | 0 <= i < |indent| ensures indent[i] == ' ' {
        assert indent[i] in indent;
      }
    }
    assert Decimal(level) == [DigitChar(level)];
    indent + "[H" + Decimal(level) + "] " + text
  }

  /** Reads a rendered heading line back: the indentation width and the
      `[H<level>]` tag must agree, and what follows `"] "` is the text. */
  function ParseHeadingLine(line: string): Option<(nat, string)> {
    var n := LeadingBlanks(line);
    if n % 2 == 0 && n + 5 <= |line| && line[n..n + 2] == "[H" && IsDigit(line[n + 2])
       && DigitValue(line[n + 2]) == n / 2 + 1 && n / 2 + 1 <= 6 && line[n + 3..n + 5] == "] "
    then Some((n / 2 + 1, line[n + 5..]))
    else None
  }

  /** A heading line is indented by two spaces per level below 1 and tagged with
      the same level; level and text can be recovered from it. */
  lemma HeadingLineParses(level: nat, text: string)
    requires 1 <= level <= 6
    ensures ParseHeadingLine(HeadingLine(level, text)) == Some((level, text))
  {
    var line := HeadingLine(level, text);
    var n := 2 * (level - 1);
    assert line[n] == '[';
    assert LeadingBlanks(line) == n;
    assert line[n..n + 2] == "[H";
    assert line[n + 2] == DigitChar(level);
    assert line[n + 3..n + 5] == "] ";
  }

  /** The line for one heading: an indent-and-tag prefix two characters longer
      per level, then the heading's stripped text. */
  function RenderHeading(h: Element): (r: string)
    requires IsHeading(h)
    ensures |r| == 2 * HeadingLevel(h.tag) + 3 + |Strip(h.text)|
    ensures r[|r| - |Strip(h.text)|..] == Strip(h.text)
  {
    HeadingLine(HeadingLevel(h.tag), Strip(h.text))
  }

  /** The rendered lines of a list of headings, one each, in order. */
  function RenderAll(kept: seq<Element>): (r: seq<string>)
    requires forall h :: h in kept ==> IsHeading(h)
    ensures |r| == |kept|
  {
    assert forall i :: 0 <= i < |kept| ==> kept[i] in kept;
    seq(|kept|, i requires 0 <= i < |kept| => RenderHeading(kept[i]))
  }

  lemma RenderAllAppend(a: seq<Element>, b: seq<Element>)
    requires forall h :: h in a ==> IsHeading(h)
    requires forall h :: h in b ==> IsHeading(h)
    ensures forall h :: h in a + b ==> IsHeading(h)
    ensures RenderAll(a + b) == RenderAll(a) + RenderAll(b)
  {
    var r := RenderAll(a + b);
    forall i | 0 <= i < |r| ensures r[i] == (RenderAll(a) + RenderAll(b))[i] {
      if i < |a| {
        assert (a + b)[i] == a[i];
      } else {
        assert (a + b)[i] == b[i - |a|];
      }
    }
  }

  /** The lines Headings mode renders: one per heading whose stripped text is
      not empty, in document order. */
  function HeadingLines(hs: seq<Element>): (r: seq<string>)
    requires forall h :: h in hs ==> IsHeading(h)
    ensures |r| <= |hs|
  {
    RenderAll(Filter(HasText, hs))
  }

  /** Every line Headings mode produces reads back as a heading level and a
      non-blank text. */
  lemma HeadingLinesReadBack(hs: seq<Element>)
    requires forall h :: h in hs ==> IsHeading(h)
    ensures forall i :: 0 <= i < |HeadingLines(hs)| ==>
              ParseHeadingLine(HeadingLines(hs)[i]).Some? && ParseHeadingLine(HeadingLines(hs)[i]).value.1 != []
  {
    var kept := Filter(HasText, hs);
    forall i | 0 <= i < |kept|
      ensures ParseHeadingLine(HeadingLines(hs)[i]).Some? && ParseHeadingLine(HeadingLines(hs)[i]).value.1 != []
    {
      assert kept[i] in kept;
      assert HeadingLines(hs)[i] == HeadingLine(HeadingLevel(kept[i].tag), Strip(kept[i].text));
      HeadingLineParses(HeadingLevel(kept[i].tag), Strip(kept[i].text));
    }
  }

  /** Heading lines follow document order: the lines of a concatenation are the
      lines of its first part followed by those of its second. */
  lemma HeadingLinesAppend(a: seq<Element>, b: seq<Element>)
    requires forall h :: h in a ==> IsHeading(h)
    requires forall h :: h in b ==> IsHeading(h)
    ensures forall h :: h in a + b ==> IsHeading(h)
    ensures HeadingLines(a + b) == HeadingLines(a) + HeadingLines(b)
  {
    FilterAppend(HasText, a, b);
    RenderAllAppend(Filter(HasText, a), Filter(HasText, b));
  }

  lemma HeadingLinesSnoc(hs: seq<Element>, i: nat)
    requires forall h :: h in hs ==> IsHeading(h)
    requires i < |hs|
    ensures forall h :: h in hs[..i + 1] ==> IsHeading(h)
    ensures forall h :: h in hs[..i] ==> IsHeading(h)
    ensures IsHeading(hs[i])
    ensures HeadingLines(hs[..i + 1])
            == HeadingLines(hs[..i]) + (if HasText(hs[i]) then [RenderHeading(hs[i])] else [])
  {
    assert hs[..i + 1] == hs[..i] + [hs[i]];
    assert hs[i] in hs;
    HeadingLinesAppend(hs[..i], [hs[i]]);
    assert Filter(HasText, [hs[i]]) == (if HasText(hs[i]) then [hs[i]] else []) + Filter(HasText, []);
  }

  /** No heading line is produced exactly when every heading is blank. */
  lemma HeadingLinesEmpty(hs: seq<Element>)
    requires forall h :: h in hs ==> IsHeading(h)
    ensures HeadingLines(hs) == [] <==> forall h :: h in hs ==> !HasText(h)
  {
    FilterEmpty(HasText, hs);
  }

  /** The `for h in headings` loop of Headings mode, building `heading_texts`. */
  method CollectHeadingLines(headings: seq<Element>) returns (headingTexts: seq<string>)
    requires forall h :: h in headings ==> IsHeading(h)
    ensures headingTexts == HeadingLines(headings)
  {
    headingTexts := [];
    for i := 0 to |headings|
      invariant headingTexts == HeadingLines(headings[..i])
    {
      var h := headings[i];
      assert h in headings;
      var level := HeadingLevel(h.tag);
      var text := Strip(h.text);
      if text != [] {
        headingTexts := headingTexts + [HeadingLine(level, text)];
      }
      HeadingLinesSnoc(headings, i);
    }
    assert headings[..|headings|] == headings;
  }

  // ---------------------------------------------------------------------------
  // Links and text content

  /** `f"{link.text.strip()} - {link['href']}"`: the stripped text, then
      ` - `, then the `href` value. */
  function LinkLine(a: Element): (r: string)
    requires IsAnchor(a)
    ensures var t, href := Strip(a.text), a.attrs["href"];
            && |r| == |t| + 3 + |href|
            && r[..|t|] == t && r[|t|..|t| + 3] == " - " && r[|t| + 3..] == href
  {
    Strip(a.text) + " - " + a.attrs["href"]
  }

  /** The comprehension of Links mode: anchors with an `href` whose stripped text
      is not empty, in document order. */
  function LinkLines(es: seq<Element>): (r: seq<string>)
    ensures |r| <= |es|
  {
    var anchors := Filter(IsAnchor, es);
    var listed := Filter(HasText, anchors);
    assert forall i :: 0 <= i < |listed| ==> listed[i] in anchors && HasText(listed[i]) by {
      forall i | 0 <= i < |listed| ensures listed[i] in anchors && HasText(listed[i]) {
        assert listed[i] in listed;
      }
    }
    seq(|listed|, i requires 0 <= i < |listed| => LinkLine(listed[i]))
  }

  /** Every link line starts with non-blank text, then ` - `. */
  lemma LinkLinesStartWithText(es: seq<Element>)
    ensures forall i :: 0 <= i < |LinkLines(es)| ==> |LinkLines(es)[i]| >= 4 && !IsSpace(LinkLines(es)[i][0])
  {
    var listed := Filter(HasText, Filter(IsAnchor, es));
    forall i | 0 <= i < |listed| ensures |LinkLines(es)[i]| >= 4 && !IsSpace(LinkLines(es)[i][0]) {
      assert listed[i] in listed;
      assert LinkLines(es)[i] == LinkLine(listed[i]);
    }
  }

  /** The Links result is empty exactly when no anchor with an `href` has
      non-blank text; that case is a success, not an error. */
  lemma LinksTextEmpty(es: seq<Element>)
    ensures Join("\n", LinkLines(es)) == "" <==> forall e :: e in es ==> !(IsAnchor(e) && HasText(e))
  {
    var anchors := Filter(IsAnchor, es);
    FilterEmpty(HasText, anchors);
    var lines := LinkLines(es);
    if lines != [] {
      assert |lines[0]| > 0;
    }
  }

  /** The comprehension of Text Content mode: every paragraph's stripped text,
      blank ones included. */
  function ParagraphTexts(es: seq<Element>): (r: seq<string>)
    ensures |r| == |Filter(IsParagraph, es)|
  {
    var ps := Filter(IsParagraph, es);
    seq(|ps|, i requires 0 <= i < |ps| => Strip(ps[i].text))
  }

  /** Every paragraph text is stripped: empty, or without whitespace at either end. */
  lemma ParagraphTextsStripped(es: seq<Element>)
    ensures forall i :: 0 <= i < |ParagraphTexts(es)| ==>
              var t := ParagraphTexts(es)[i];
              t == [] || (!IsSpace(t[0]) && !IsSpace(t[|t| - 1]))
  {
  }

  /** Text Content mode's result: empty without paragraphs, the one
      paragraph's text alone, and otherwise a blank line after the first
      paragraph's text even when a paragraph is blank. */
  function TextContent(es: seq<Element>): (r: string)
    ensures ParagraphTexts(es) == [] ==> r == ""
    ensures |ParagraphTexts(es)| == 1 ==> r == ParagraphTexts(es)[0]
    ensures |ParagraphTexts(es)| >= 2 ==> ParagraphTexts(es)[0] + "\n\n" <= r
  {
    Join("\n\n", ParagraphTexts(es))
  }

  /** n paragraphs give their texts separated by exactly n - 1 blank lines. */
  lemma TextContentLength(es: seq<Element>)
    requires Filter(IsParagraph, es) != []
    ensures |ParagraphTexts(es)| == |Filter(IsParagraph, es)|
    ensures |TextContent(es)| == TotalLength(ParagraphTexts(es)) + 2 * (|Filter(IsParagraph, es)| - 1)
  {
    JoinLength("\n\n", ParagraphTexts(es));
  }

  // ---------------------------------------------------------------------------
  // Images

  predicate HasScheme(url: string) {
    "http://" <= url || "https://" <= url
  }

  function Min(a: nat, b: nat): nat { if a < b then a else b }

  /** `'/'.join(url.split('/')[:3])`: the scheme and host part of the URL, that
      is the longest prefix holding at most two slashes. */
  function BaseUrl(url: string): (r: string)
    ensures r <= url
    ensures |r| < |url| ==> url[|r|] == '/'
    ensures CountChar(r, '/') == Min(CountChar(url, '/'), 2)
  {
    var parts := Split(url, '/');
    var head := parts[..Min(|parts|, 3)];
    BaseUrlFacts(url, parts, head);
    Join("/", head)
  }

  lemma BaseUrlFacts(url: string, parts: seq<string>, head: seq<string>)
    requires parts == Split(url, '/') && head == parts[..Min(|parts|, 3)]
    ensures var r := Join("/", head);
            r <= url && (|r| < |url| ==> url[|r|] == '/')
            && CountChar(r, '/') == Min(CountChar(url, '/'), 2)
  {
    SplitJoin(url, '/');
    CountCharJoin(parts, '/');
    assert forall p :: p in head ==> p in parts;
    CountCharJoin(head, '/');
    if |parts| > 3 {
      assert parts == head + parts[3..];
      JoinAppend("/", head, parts[3..]);
    } else {
      assert head == parts;
    }
  }

  /** The relative-URL handling of Images mode (scraper.py lines 61-68). */
  function ResolveSrc(pageUrl: string, src: string): (r: string)
    ensures |src| <= |r| && r[|r| - |src|..] == src
    ensures HasScheme(src) ==> r == src
  {
    if HasScheme(src) then src
    else if "/" <= src then BaseUrl(pageUrl) + src
    else RStripChar(pageUrl, '/') + "/" + src
  }

  /** What comes before `src` in a resolved URL: nothing for an absolute `src`;
      the scheme and host of the page for a root-relative one; otherwise the page
      URL without any of its trailing slashes, followed by one slash. */
  lemma ResolveSrcPrefix(pageUrl: string, src: string)
    ensures var r := ResolveSrc(pageUrl, src);
            var p := r[..|r| - |src|];
            && (HasScheme(src) ==> p == "")
            && (!HasScheme(src) && "/" <= src ==>
                  p <= pageUrl && CountChar(p, '/') == Min(CountChar(pageUrl, '/'), 2)
                  && (|p| < |pageUrl| ==> pageUrl[|p|] == '/'))
            && (!HasScheme(src) && !("/" <= src) ==>
                  |p| >= 1 && p[|p| - 1] == '/' && p[..|p| - 1] <= pageUrl
                  && (|p| >= 2 ==> p[|p| - 2] != '/')
                  && forall i :: |p| - 1 <= i < |pageUrl| ==> pageUrl[i] == '/')
  {
    var r := ResolveSrc(pageUrl, src);
    if !HasScheme(src) {
      if "/" <= src {
        assert r[..|r| - |src|] == BaseUrl(pageUrl);
      } else {
        var q := RStripChar(pageUrl, '/');
        assert r == q + "/" + src;
        assert r[..|r| - |src|] == q + "/";
        assert (q + "/")[..|q|] == q;
      }
    }
  }

  /** The download result `if img_data:` accepts: present and non-empty. */
  predicate Usable(d: Option<Bytes>) { d.Some? && d.value != [] }

  /** `img['src']` for each image element, in order: one source per image. */
  function SourcesOf(images: seq<Element>): (r: seq<string>)
    requires forall e :: e in images ==> IsImage(e)
    ensures |r| == |images|
  {
    seq(|images|, i requires 0 <= i < |images| && IsImage(images[i]) => images[i].attrs["src"])
  }

  /** The sources `for img in soup.find_all('img', src=True)` visits. */
  function ImageSources(es: seq<Element>): (r: seq<string>)
    ensures |r| <= |es|
  {
    SourcesOf(Filter(IsImage, es))
  }

  /** The sources are exactly the `src` values of the page's `img` elements
      that carry one. */
  lemma ImageSourcesAreSrcs(es: seq<Element>)
    ensures forall s :: s in ImageSources(es) <==> exists e :: e in es && IsImage(e) && e.attrs["src"] == s
  {
    var images := Filter(IsImage, es);
    forall s | s in ImageSources(es) ensures exists e :: e in es && IsImage(e) && e.attrs["src"] == s {
      var i :| 0 <= i < |images| && ImageSources(es)[i] == s;
      assert images[i] in images;
    }
    forall e | e in es && IsImage(e) ensures e.attrs["src"] in ImageSources(es) {
      var i :| 0 <= i < |images| && images[i] == e;
      assert ImageSources(es)[i] == e.attrs["src"];
    }
  }

  /** Sources follow document order: those of a concatenation are those of
      its first part followed by those of its second. */
  lemma ImageSourcesAppend(a: seq<Element>, b: seq<Element>)
    ensures ImageSources(a + b) == ImageSources(a) + ImageSources(b)
  {
    FilterAppend(IsImage, a, b);
  }

  /** Images mode's `image_data_list`: for each source, in order, the resolved
      URL and the bytes, when the download gave non-empty bytes. */
  function DownloadedImages(pageUrl: string, srcs: seq<string>, download: string -> Option<Bytes>): (r: seq<Image>)
    ensures |r| <= |srcs|
    ensures forall im :: im in r ==> im.data != [] && download(im.url) == Some(im.data)
  {
    if srcs == [] then [] else ImageFor(pageUrl, srcs[0], download) + DownloadedImages(pageUrl, srcs[1..], download)
  }

  /** What one image element contributes to `image_data_list`. */
  function ImageFor(pageUrl: string, src: string, download: string -> Option<Bytes>): (r: seq<Image>)
    ensures |r| <= 1
    ensures forall im :: im in r ==> im.data != [] && download(im.url) == Some(im.data)
  {
    var url := ResolveSrc(pageUrl, src);
    var d := download(url);
    if Usable(d) then [Image(url, d.value)] else []
  }

  /** Resolved URLs of the sources, in order. */
  function Resolved(pageUrl: string, srcs: seq<string>): seq<string> {
    seq(|srcs|, i requires 0 <= i < |srcs| => ResolveSrc(pageUrl, srcs[i]))
  }

  /** Images paired position by position with URLs: the same number, each
      image carrying its URL and the bytes that URL's download returned. */
  predicate PairsWith(images: seq<Image>, urls: seq<string>, download: string -> Option<Bytes>) {
    |images| == |urls|
    && forall k :: 0 <= k < |urls| ==> images[k].url == urls[k] && download(urls[k]) == Some(images[k].data)
  }

  lemma PairsWithAppend(r1: seq<Image>, ok1: seq<string>, r2: seq<Image>, ok2: seq<string>, download: string -> Option<Bytes>)
    requires PairsWith(r1, ok1, download) && PairsWith(r2, ok2, download)
    ensures PairsWith(r1 + r2, ok1 + ok2, download)
  {
    var r, ok := r1 + r2, ok1 + ok2;
    forall k | 0 <= k < |ok| ensures r[k].url == ok[k] && download(ok[k]) == Some(r[k].data) {
      if k >= |ok1| {
        assert r[k] == r2[k - |ok1|] && ok[k] == ok2[k - |ok1|];
      }
    }
  }

  lemma ResolvedCons(pageUrl: string, srcs: seq<string>)
    requires srcs != []
    ensures Resolved(pageUrl, srcs) == [ResolveSrc(pageUrl, srcs[0])] + Resolved(pageUrl, srcs[1..])
  {
    assert Resolved(pageUrl, srcs)[1..] == Resolved(pageUrl, srcs[1..]);
  }

  /** One source contributes its resolved URL's image exactly when that download is usable. */
  lemma ImageForPairs(pageUrl: string, src: string, download: string -> Option<Bytes>)
    ensures var u := ResolveSrc(pageUrl, src);
            PairsWith(ImageFor(pageUrl, src, download), if Usable(download(u)) then [u] else [], download)
  {
  }

  /** The kept images are exactly the usable downloads among the resolved URLs,
      in document order, each with the bytes its download returned. */
  lemma {:induction false} DownloadedImagesAreUsableDownloads(pageUrl: string, srcs: seq<string>, download: string -> Option<Bytes>)
    ensures PairsWith(DownloadedImages(pageUrl, srcs, download),
                      Filter((u: string) => Usable(download(u)), Resolved(pageUrl, srcs)), download)
  {
    var p := (u: string) => Usable(download(u));
    if srcs != [] {
      var u, rest := ResolveSrc(pageUrl, srcs[0]), Resolved(pageUrl, srcs[1..]);
      DownloadedImagesAreUsableDownloads(pageUrl, srcs[1..], download);
      ResolvedCons(pageUrl, srcs);
      FilterCons(p, u, rest);
      var head := if p(u) then [u] else [];
      ImageForPairs(pageUrl, srcs[0], download);
      PairsWithAppend(ImageFor(pageUrl, srcs[0], download), head,
                      DownloadedImages(pageUrl, srcs[1..], download), Filter(p, rest), download);
    }
  }

  lemma {:induction false} DownloadedImagesAppend(pageUrl: string, a: seq<string>, b: seq<string>, download: string -> Option<Bytes>)
    ensures DownloadedImages(pageUrl, a + b, download)
            == DownloadedImages(pageUrl, a, download) + DownloadedImages(pageUrl, b, download)
  {
    if a == [] {
      assert a + b == b;
    } else {
      assert (a + b)[0] == a[0];
      assert (a + b)[1..] == a[1..] + b;
      DownloadedImagesAppend(pageUrl, a[1..], b, download);
    }
  }

  lemma DownloadedImagesSnoc(pageUrl: string, srcs: seq<string>, i: nat, download: string -> Option<Bytes>)
    requires i < |srcs|
    ensures DownloadedImages(pageUrl, srcs[..i + 1], download)
            == DownloadedImages(pageUrl, srcs[..i], download) + ImageFor(pageUrl, srcs[i], download)
  {
    assert srcs[..i + 1] == srcs[..i] + [srcs[i]];
    DownloadedImagesAppend(pageUrl, srcs[..i], [srcs[i]], download);
    assert DownloadedImages(pageUrl, [srcs[i]], download) == ImageFor(pageUrl, srcs[i], download) + [];
  }

  /** The `for img in images` loop of Images mode, building `image_data_list`. */
  method DownloadImages(pageUrl: string, images: seq<Element>, download: string -> Option<Bytes>)
    returns (imageDataList: seq<Image>)
    requires forall e :: e in images ==> IsImage(e)
    ensures imageDataList == DownloadedImages(pageUrl, SourcesOf(images), download)
  {
    ghost var srcs := SourcesOf(images);
    imageDataList := [];
    for i := 0 to |images|
      invariant imageDataList == DownloadedImages(pageUrl, srcs[..i], download)
    {
      assert images[i] in images;
      var imgUrl := ResolveSrc(pageUrl, images[i].attrs["src"]);
      var imgData := download(imgUrl);
      ghost var before := imageDataList;
      if imgData.Some? && imgData.value != [] {
        imageDataList := imageDataList + [Image(imgUrl, imgData.value)];
      }
      assert imageDataList == before + ImageFor(pageUrl, srcs[i], download);
      DownloadedImagesSnoc(pageUrl, srcs, i, download);
    }
    assert srcs[..|images|] == srcs;
  }

  /** `f"Found {len(image_data_list)} images"` */
  function FoundMessage(count: nat): (r: string)
    ensures |r| >= 14 && r[..6] == "Found " && r[|r| - 7..] == " images"
    ensures AllDigits(r[6..|r| - 7]) && DecimalValue(r[6..|r| - 7]) == count
  {
    var d := Decimal(count);
    DecimalRoundTrip(count);
    var r := "Found " + d + " images";
    assert r[6..|r| - 7] == d;
    r
  }

  // ---------------------------------------------------------------------------
  // A whole run

  predicate IsTerminal(s: Signal) { s.Finished? || s.Error? }

  /** Every run ends with exactly one terminal signal; the only signal that may
      precede it is a non-empty `images_found`, and then the run finishes. */
  predicate WellFormedRun(signals: seq<Signal>)
    ensures WellFormedRun(signals) ==> forall i :: 0 <= i < |signals| - 1 ==> !IsTerminal(signals[i])
  {
    && |signals| >= 1
    && IsTerminal(signals[|signals| - 1])
    && (|signals| == 1
        || (|signals| == 2 && signals[0].ImagesFound? && signals[0].images != [] && signals[1].Finished?))
  }

  /** The signals `ScraperThread(url, dataType).run()` emits, in order. */
  function Outcome(url: string, dataType: string, page: Page, download: string -> Option<Bytes>): (signals: seq<Signal>)
    ensures WellFormedRun(signals)
  {
    match page
    case FetchFailed(reason) => [Error(reason)]
    case Parsed(es) =>
      if dataType == "Headings" then
        var headings := Filter(IsHeading, es);
        if headings == [] then [Error(NoHeadings)]
        else
          var lines := HeadingLines(headings);
          if lines == [] then [Error(NoNonEmptyHeadings)] else [Finished(Join("\n", lines))]
      else if dataType == "Links" then [Finished(Join("\n", LinkLines(es)))]
      else if dataType == "Text Content" then [Finished(TextContent(es))]
      else if dataType == "Images" then
        var found := DownloadedImages(url, ImageSources(es), download);
        (if found != [] then [ImagesFound(found)] else []) + [Finished(FoundMessage(|found|))]
      else [Finished("")]
  }

  /** `ScraperThread.run`: each `emit` appends a signal; the early `return`s of
      Headings mode end the run after its error. */
  method Run(url: string, dataType: string, page: Page, download: string -> Option<Bytes>)
    returns (signals: seq<Signal>)
    ensures signals == Outcome(url, dataType, page, download)
  {
    signals := [];
    if page.FetchFailed? {
      signals := signals + [Error(page.reason)];
      return;
    }
    var soup := page.elements;
    var result := "";
    if dataType == "Headings" {
      var headings := Filter(IsHeading, soup);
      if headings == [] {
        signals := signals + [Error(NoHeadings)];
        return;
      }
      var headingTexts := CollectHeadingLines(headings);
      if headingTexts != [] {
        result := Join("\n", headingTexts);
      } else {
        signals := signals + [Error(NoNonEmptyHeadings)];
        return;
      }
    } else if dataType == "Links" {
      result := Join("\n", LinkLines(soup));
    } else if dataType == "Text Content" {
      result := TextContent(soup);
    } else if dataType == "Images" {
      var images := Filter(IsImage, soup);
      var imageDataList := DownloadImages(url, images, download);
      if imageDataList != [] {
        signals := signals + [ImagesFound(imageDataList)];
      }
      result := FoundMessage(|imageDataList|);
    }
    signals := signals + [Finished(result)];
  }

  // ---------------------------------------------------------------------------
  // Properties of a run

  /** A failed fetch or parse ends the run with the failure's text and nothing else. */
  lemma FetchFailureIsError(url: string, dataType: string, reason: string, download: string -> Option<Bytes>)
    ensures Outcome(url, dataType, FetchFailed(reason), download) == [Error(reason)]
  {
  }

  /** Headings mode fails with its first message exactly when the page has no
      h1-h6 element, fails with its second exactly when it has some but all are
      blank, and finishes otherwise; it never emits both an error and `finished`. */
  lemma HeadingsOutcome(url: string, es: seq<Element>, download: string -> Option<Bytes>)
    ensures var out := Outcome(url, "Headings", Parsed(es), download);
            && (out == [Error(NoHeadings)] <==> forall e :: e in es ==> !IsHeading(e))
            && (out == [Error(NoNonEmptyHeadings)] <==>
                  (exists e :: e in es && IsHeading(e)) && forall e :: e in es && IsHeading(e) ==> !HasText(e))
            && (out[0].Finished? <==> exists e :: e in es && IsHeading(e) && HasText(e))
            && (out[0].Finished? ==> out == [Finished(Join("\n", HeadingLines(Filter(IsHeading, es))))])
  {
    var headings := Filter(IsHeading, es);
    FilterEmpty(IsHeading, es);
    HeadingLinesEmpty(headings);
  }

  /** Links mode always finishes; its text is empty exactly when no anchor with
      an `href` has non-blank text. */
  lemma LinksOutcome(url: string, es: seq<Element>, download: string -> Option<Bytes>)
    ensures var out := Outcome(url, "Links", Parsed(es), download);
            && out == [Finished(Join("\n", LinkLines(es)))]
            && (out[0].text == "" <==> forall e :: e in es ==> !(IsAnchor(e) && HasText(e)))
  {
    LinksTextEmpty(es);
  }

  /** Images mode always finishes with `Found K images`, where K counts the
      image elements whose download returned non-empty bytes; `images_found`
      carries exactly those K images, and is emitted, before `finished`, only
      when K > 0. A failed download never ends the run. */
  lemma ImagesOutcome(url: string, es: seq<Element>, download: string -> Option<Bytes>)
    ensures var out := Outcome(url, "Images", Parsed(es), download);
            var srcs := ImageSources(es);
            var ok := Filter((u: string) => Usable(download(u)), Resolved(url, srcs));
            && out[|out| - 1] == Finished(FoundMessage(|ok|))
            && |ok| <= |Filter(IsImage, es)|
            && (|out| == 2 <==> |ok| > 0)
            && (|out| == 2 ==> out[0] == ImagesFound(DownloadedImages(url, srcs, download)))
  {
    DownloadedImagesAreUsableDownloads(url, ImageSources(es), download);
  }

  /** A data type other than the four known ones finishes with an empty result. */
  lemma UnknownModeFinishesEmpty(url: string, dataType: string, es: seq<Element>, download: string -> Option<Bytes>)
    requires dataType !in {"Headings", "Links", "Text Content", "Images"}
    ensures Outcome(url, dataType, Parsed(es), download) == [Finished("")]
  {
  }

  /** Two paragraphs give their stripped texts around one blank line: "Hello"
      and "  World  " give "Hello\n\nWorld". */
  lemma TwoParagraphs(p: Element, q: Element)
    requires IsParagraph(p) && IsParagraph(q)
    ensures TextContent([p, q]) == Strip(p.text) + "\n\n" + Strip(q.text)
  {
    assert [p, q][1..] == [q];
    assert Filter(IsParagraph, [q]) == [q] + Filter(IsParagraph, []);
    assert Filter(IsParagraph, [p, q]) == [p, q];
    var texts := ParagraphTexts([p, q]);
    assert texts == [Strip(p.text), Strip(q.text)];
    assert texts[1..] == [Strip(q.text)];
    assert Join("\n\n", texts) == texts[0] + "\n\n" + Join("\n\n", texts[1..]);
  }

  /** The parts of `scheme//host/...` split at slashes begin with the scheme,
      an empty part and the host. */
  lemma HostUrlParts(scheme: string, host: string, path: string)
    requires '/' !in scheme && '/' !in host
    requires path == [] || path[0] == '/'
    ensures var parts := Split(scheme + "//" + host + path, '/');
            parts[..Min(|parts|, 3)] == [scheme, [], host]
  {
    var url := scheme + "//" + host + path;
    assert url == scheme + ['/'] + ([] + ['/'] + (host + path));
    SplitFirst(scheme, [] + ['/'] + (host + path), '/');
    SplitFirst([], host + path, '/');
    if path == [] {
      SplitNoSeparator(host, '/');
      assert host + path == host;
    } else {
      assert host + path == host + ['/'] + path[1..];
      SplitFirst(host, path[1..], '/');
    }
  }

  /** The base of `scheme//host/...` is `scheme//host`. */
  lemma HostUrlBase(scheme: string, host: string, path: string)
    requires '/' !in scheme && '/' !in host
    requires path == [] || path[0] == '/'
    ensures BaseUrl(scheme + "//" + host + path) == scheme + "//" + host
  {
    HostUrlParts(scheme, host, path);
    assert [scheme, [], host][1..] == [[], host];
    assert [[], host][1..] == [host];
    assert Join("/", [host]) == host;
    assert Join("/", [[], host]) == [] + "/" + host;
    assert Join("/", [scheme, [], host]) == scheme + "/" + ([] + "/" + host);
  }

  /** A root-relative `src` on a page `scheme//host/...` resolves to
      `scheme//host` followed by `src`: on https://ex.com/page, "/a.png" becomes
      https://ex.com/a.png. */
  lemma ResolveRootRelative(scheme: string, host: string, path: string, src: string)
    requires '/' !in scheme && '/' !in host
    requires path == [] || path[0] == '/'
    requires "/" <= src
    ensures ResolveSrc(scheme + "//" + host + path, src) == scheme + "//" + host + src
  {
    HostUrlBase(scheme, host, path);
    assert src[0] == '/';
    assert !HasScheme(src);
  }

  /** A plain relative `src` on a page URL that does not end in a slash is
      appended after one slash: on https://ex.com/page, "a.png" becomes
      https://ex.com/page/a.png. */
  lemma ResolvePlainRelative(pageUrl: string, src: string)
    requires pageUrl != [] && pageUrl[|pageUrl| - 1] != '/'
    requires !HasScheme(src) && !("/" <= src)
    ensures ResolveSrc(pageUrl, src) == pageUrl + "/" + src
  {
  }
}
