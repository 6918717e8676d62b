/**
  The two pieces of logic in the GUI shell (app.py): normalising the URL typed by
  the user before a scrape starts (`start_scraping`), and naming and writing the
  downloaded images into a chosen directory without overwriting anything
  (`on_images_found`).

  Paths follow POSIX rules (`posixpath.basename`, `posixpath.splitext`). The save
  directory is modelled by the set of names it contains; writing a file is an
  oracle outcome for the chosen name.
 */
module App {
  import opened Optional
  import opened Text
  import Scraper

  // ---------------------------------------------------------------------------
  // start_scraping

  /** `url.strip()`, nothing for blank input, and `https://` in front of a URL
      that starts with neither `http://` nor `https://`. */
  function NormalizeUrl(input: string): (r: Option<string>)
    ensures r.None? <==> AllSpace(input)
    ensures r.Some? ==> Scraper.HasScheme(r.value)
    ensures r.Some? ==> Strip(input) <= r.value || r.value == "https://" + Strip(input)
    ensures r.Some? && Scraper.HasScheme(Strip(input)) ==> r.value == Strip(input)
    ensures r.Some? && !Scraper.HasScheme(Strip(input)) ==> r.value == "https://" + Strip(input)
  {
    var url := Strip(input);
    if url == [] then None
    else if Scraper.HasScheme(url) then Some(url)
    else Some("https://" + url)
  }

  /** Normalising a normalised URL changes nothing. */
  lemma NormalizeUrlIdempotent(input: string)
    requires NormalizeUrl(input).Some?
    ensures NormalizeUrl(NormalizeUrl(input).value) == NormalizeUrl(input)
  {
    var url := Strip(input);
    var v := NormalizeUrl(input).value;
    assert v[|v| - 1] == url[|url| - 1];
    assert !IsSpace(v[0]);
    StripOfTrimmed(v);
  }

  /** `start_scraping`: blank input starts nothing; otherwise the worker runs on
      the normalised URL, whose fetch outcome `fetch` supplies. */
  method StartScraping(text: string, dataType: string, fetch: string -> Scraper.Page,
                       download: string -> Option<Scraper.Bytes>)
    returns (signals: Option<seq<Scraper.Signal>>)
    ensures signals.None? <==> AllSpace(text)
    ensures signals.Some? ==>
              var url := NormalizeUrl(text).value;
              signals.value == Scraper.Outcome(url, dataType, fetch(url), download)
  {
    var url := NormalizeUrl(text);
    if url.None? {
      return None;
    }
    var emitted := Scraper.Run(url.value, dataType, fetch(url.value), download);
    signals := Some(emitted);
  }

  // ---------------------------------------------------------------------------
  // File names

  /** `url.split('?')[0]`: everything before the first `?`. */
  function BeforeQuery(url: string): (r: string)
    ensures r <= url
    ensures forall i :: 0 <= i < |r| ==> r[i] != '?'
    ensures |r| < |url| ==> url[|r|] == '?'
  {
    var parts := Split(url, '?');
    BeforeQueryFacts(url, parts);
    parts[0]
  }

  lemma BeforeQueryFacts(url: string, parts: seq<string>)
    requires parts == Split(url, '?')
    ensures parts[0] <= url && '?' !in parts[0]
    ensures |parts[0]| < |url| ==> url[|parts[0]|] == '?'
  {
    SplitJoin(url, '?');
    assert parts[0] in parts;
    if |parts| > 1 {
      assert Join("?", parts) == parts[0] + "?" + Join("?", parts[1..]);
    }
  }

  /** `posixpath.basename(p)`: what follows the last `/`. */
  function Basename(p: string): (r: string)
    ensures |r| <= |p| && r == p[|p| - |r|..]
    ensures forall i :: 0 <= i < |r| ==> r[i] != '/'
    ensures |r| < |p| ==> p[|p| - |r| - 1] == '/'
  {
    p[LastIndex(p, '/') + 1..]
  }

  /** `posixpath.splitext(p)`: the extension runs from the last `.` of the last
      path component, unless everything before that dot in the component is dots
      (so `.bashrc` has no extension). */
  function SplitExt(p: string): (r: (string, string))
    ensures r.0 + r.1 == p
    ensures r.1 == [] || (r.1[0] == '.' && forall i :: 1 <= i < |r.1| ==> r.1[i] != '.' && r.1[i] != '/')
    ensures r.1 != [] <==> exists i, j :: LastIndex(p, '/') < j < i < |p| && p[i] == '.' && p[j] != '.'
  {
    var sep := LastIndex(p, '/');
    var dot := LastIndex(p, '.');
    if dot > sep && exists i :: sep + 1 <= i < dot && p[i] != '.' then (p[..dot], p[dot..])
    else (p, [])
  }

  /** The name tried first for an image: the basename of its URL without the query
      string, or `image_{saved_count + 1}.jpg` when that is empty. */
  function FileNameFor(url: string, savedCount: nat): (r: string)
    ensures r != []
    ensures forall i :: 0 <= i < |r| ==> r[i] != '/' && r[i] != '?'
  {
    var name := Basename(BeforeQuery(url));
    BasenameHasNoQuery(url);
    FallbackNameIsPlain(savedCount + 1);
    if name == [] then FallbackName(savedCount + 1) else name
  }

  /** `f"image_{n}.jpg"`: `image_`, the digits of n, `.jpg`. */
  function FallbackName(n: nat): (r: string)
    ensures |r| >= 11 && r[..6] == "image_" && r[|r| - 4..] == ".jpg"
    ensures AllDigits(r[6..|r| - 4]) && DecimalValue(r[6..|r| - 4]) == n
  {
    var d := Decimal(n);
    DecimalRoundTrip(n);
    var r := "image_" + d + ".jpg";
    assert r[6..|r| - 4] == d;
    r
  }

  lemma FallbackNameIsPlain(n: nat)
    ensures forall i :: 0 <= i < |FallbackName(n)| ==> FallbackName(n)[i] != '/' && FallbackName(n)[i] != '?'
  {
    var d := Decimal(n);
    var r := FallbackName(n);
    forall i | 0 <= i < |r| ensures r[i] != '/' && r[i] != '?' {
      if i < 6 {
        assert r[i] == "image_"[i];
      } else if i < 6 + |d| {
        assert r[i] == d[i - 6];
      } else {
        assert r[i] == ".jpg"[i - 6 - |d|];
      }
    }
  }

  lemma BasenameHasNoQuery(url: string)
    ensures var name := Basename(BeforeQuery(url));
            forall i :: 0 <= i < |name| ==> name[i] != '?'
  {
    var q := BeforeQuery(url);
    var name := Basename(q);
    forall i | 0 <= i < |name| ensures name[i] != '?' {
      assert name[i] == q[|q| - |name| + i];
    }
  }

  /** `f"{base}_{counter}{ext}"` */
  function Candidate(base: string, k: nat, ext: string): (r: string)
    ensures |r| > |base| + 1 + |ext|
  {
    base + "_" + Decimal(k) + ext
  }

  /** A candidate is the base, `_`, the digits of the counter, and the
      extension: the counter can be read back from it. */
  lemma CandidateParts(base: string, k: nat, ext: string)
    ensures var r := Candidate(base, k, ext);
            && r[..|base|] == base && r[|base|] == '_' && r[|r| - |ext|..] == ext
            && AllDigits(r[|base| + 1..|r| - |ext|]) && DecimalValue(r[|base| + 1..|r| - |ext|]) == k
  {
    var r := Candidate(base, k, ext);
    DecimalRoundTrip(k);
    assert r[|base| + 1..|r| - |ext|] == Decimal(k);
  }

  /** Different counters give different candidates. */
  lemma CandidateInjective(base: string, ext: string, j: nat, k: nat)
    requires Candidate(base, j, ext) == Candidate(base, k, ext)
    ensures j == k
  {
    CandidateParts(base, j, ext);
    CandidateParts(base, k, ext);
  }

  /** No candidate is the original name. */
  lemma CandidateIsNotName(base: string, ext: string, k: nat)
    ensures Candidate(base, k, ext) != base + ext
  {
    assert |Candidate(base, k, ext)| > |base + ext|;
  }

  /** The collision loop of `on_images_found`: keep the file name when it is
      free, otherwise try `base_1ext`, `base_2ext`, ... and take the first one
      that is free. It ends because only finitely many names exist. */
  method FreeName(existing: set<string>, filename: string) returns (path: string)
    ensures path !in existing
    ensures filename !in existing ==> path == filename
    ensures filename in existing ==>
              var (base, ext) := SplitExt(filename);
              exists k :: k >= 1 && path == Candidate(base, k, ext)
                          && forall j :: 1 <= j < k ==> Candidate(base, j, ext) in existing
  {
    path := filename;
    var (base, ext) := SplitExt(filename);
    var counter: nat := 1;
    ghost var unprobed := existing;
    while path in existing
      invariant counter >= 1
      invariant counter == 1 ==> path == filename
      invariant counter > 1 ==> filename in existing && path == Candidate(base, counter - 1, ext)
      invariant forall j :: 1 <= j < counter - 1 ==> Candidate(base, j, ext) in existing
      invariant unprobed <= existing
      invariant path in existing ==> path in unprobed
      invariant forall j :: j >= counter && Candidate(base, j, ext) in existing ==> Candidate(base, j, ext) in unprobed
      decreases unprobed
    {
      forall j | j >= counter ensures Candidate(base, j, ext) != path {
        if counter == 1 {
          CandidateIsNotName(base, ext, j);
        } else if Candidate(base, j, ext) == path {
          CandidateInjective(base, ext, j, counter - 1);
        }
      }
      unprobed := unprobed - {path};
      path := Candidate(base, counter, ext);
      counter := counter + 1;
    }
    if filename in existing {
      assert path == Candidate(base, counter - 1, ext);
    }
  }

  // ---------------------------------------------------------------------------
  // Saving

  /** What `with open(file_path, 'wb') as f: f.write(img_data)` did: it
      succeeded, or it raised. `open` creates the file before anything is
      written, so a failure can leave the (partial) file behind; `created` says
      whether it did. */
  datatype WriteOutcome = Written | WriteFailed(reason: string, created: bool)

  /** The chosen save directory, as the set of names it holds. */
  class Directory {
    const path: string
    var names: set<string>

    constructor (path: string, names: set<string>)
      ensures this.path == path && this.names == names
    {
      this.path := path;
      this.names := names;
    }

    /** `open(file_path, 'wb').write(img_data)`: the name exists afterwards when
        the write succeeded or failed after creating the file; no other name
        changes. */
    method Write(name: string, outcome: WriteOutcome) returns (ok: bool)
      modifies this
      ensures ok <==> outcome.Written?
      ensures names == if ok || outcome.created then old(names) + {name} else old(names)
    {
      ok := outcome.Written?;
      if ok || outcome.created {
        names := names + {name};
      }
    }
  }

  const ErrorSavingPrefix := "\nError saving image "

  /** `f"\nSuccessfully saved {saved_count} images to {save_dir}"`: the count
      can be read back from between the fixed words, and the directory ends it. */
  function SavedMessage(savedCount: nat, dir: string): (r: string)
    ensures |r| > 31 + |dir| && r[..20] == "\nSuccessfully saved " && r[|r| - |dir| - 11..] == " images to " + dir
    ensures AllDigits(r[20..|r| - |dir| - 11]) && DecimalValue(r[20..|r| - |dir| - 11]) == savedCount
  {
    var d := Decimal(savedCount);
    DecimalRoundTrip(savedCount);
    var r := "\nSuccessfully saved " + d + " images to " + dir;
    assert r[20..|r| - |dir| - 11] == d;
    r
  }

  /** The body of the `try` block for one image: derive the file name from the
      URL, pick a free name for it and write the bytes there. The name is fresh.
      A success adds exactly that name; a failure adds it only when the file was
      created before the error, and its message names the image. */
  method SaveImage(dir: Directory, img: Scraper.Image, savedCount: nat, write: string -> WriteOutcome)
    returns (ok: bool, filePath: string, message: string)
    modifies dir
    ensures filePath !in old(dir.names)
    ensures ok <==> write(filePath).Written?
    ensures ok ==> dir.names == old(dir.names) + {filePath}
    ensures !ok ==> dir.names == if write(filePath).created then old(dir.names) + {filePath} else old(dir.names)
    ensures !ok ==> message == ErrorSavingPrefix + img.url + ": " + write(filePath).reason
  {
    var filename := FileNameFor(img.url, savedCount);
    filePath := FreeName(dir.names, filename);
    var outcome := write(filePath);
    ok := dir.Write(filePath, outcome);
    message := if ok then "" else ErrorSavingPrefix + img.url + ": " + outcome.reason;
  }

  /** A write left a file under its name: it succeeded, or it failed after
      `open` had created the file. */
  predicate LeavesFile(outcome: WriteOutcome)
  {
    outcome.Written? || outcome.created
  }

  /** The names that writes to `paths`, in turn, leave in the directory. */
  function AddedNames(paths: seq<string>, write: string -> WriteOutcome): set<string>
    decreases |paths|
  {
    if paths == [] then {}
    else
      var n := |paths| - 1;
      AddedNames(paths[..n], write) + (if LeavesFile(write(paths[n])) then {paths[n]} else {})
  }

  /** How many of the writes to `paths` succeeded. */
  function SavedCount(paths: seq<string>, write: string -> WriteOutcome): nat
    decreases |paths|
  {
    if paths == [] then 0
    else
      var n := |paths| - 1;
      SavedCount(paths[..n], write) + (if write(paths[n]).Written? then 1 else 0)
  }

  /** How many of the writes to `paths` left a file. */
  function LeftCount(paths: seq<string>, write: string -> WriteOutcome): nat
    decreases |paths|
  {
    if paths == [] then 0
    else
      var n := |paths| - 1;
      LeftCount(paths[..n], write) + (if LeavesFile(write(paths[n])) then 1 else 0)
  }

  /** One error message per failed write, in image order. */
  function ErrorMessages(images: seq<Scraper.Image>, paths: seq<string>, write: string -> WriteOutcome): seq<string>
    requires |images| == |paths|
    decreases |paths|
  {
    if paths == [] then []
    else
      var n := |paths| - 1;
      var outcome := write(paths[n]);
      ErrorMessages(images[..n], paths[..n], write)
        + (if outcome.Written? then [] else [ErrorSavingPrefix + images[n].url + ": " + outcome.reason])
  }

  /** Every name in `paths` was fresh at its turn: it was neither in the
      directory at the start nor left there by an earlier write. */
  predicate FreshInTurn(existing: set<string>, paths: seq<string>, write: string -> WriteOutcome)
    decreases |paths|
  {
    paths == [] ||
    var n := |paths| - 1;
    FreshInTurn(existing, paths[..n], write) && paths[n] !in existing + AddedNames(paths[..n], write)
  }

  /** One more image and its name extend the records of the loop by that
      write's contribution. */
  lemma TurnSnoc(existing: set<string>, images: seq<Scraper.Image>, img: Scraper.Image,
                 paths: seq<string>, p: string, write: string -> WriteOutcome)
    requires |images| == |paths|
    ensures AddedNames(paths + [p], write) == AddedNames(paths, write) + (if LeavesFile(write(p)) then {p} else {})
    ensures SavedCount(paths + [p], write) == SavedCount(paths, write) + (if write(p).Written? then 1 else 0)
    ensures ErrorMessages(images + [img], paths + [p], write)
            == ErrorMessages(images, paths, write)
               + (if write(p).Written? then [] else [ErrorSavingPrefix + img.url + ": " + write(p).reason])
    ensures FreshInTurn(existing, paths + [p], write)
            <==> FreshInTurn(existing, paths, write) && p !in existing + AddedNames(paths, write)
  {
    assert (paths + [p])[..|paths|] == paths;
    assert (images + [img])[..|images|] == images;
  }

  /** Names picked in turn are fresh, so each write that leaves a file adds a
      name of its own: the directory grows by exactly the number of such writes,
      of which the successful ones are a part. */
  lemma {:induction false} FreshInTurnAddsDistinct(existing: set<string>, paths: seq<string>,
                                                   write: string -> WriteOutcome)
    requires FreshInTurn(existing, paths, write)
    ensures existing !! AddedNames(paths, write)
    ensures |AddedNames(paths, write)| == LeftCount(paths, write)
    decreases |paths|
  {
    if paths != [] {
      var n := |paths| - 1;
      FreshInTurnAddsDistinct(existing, paths[..n], write);
      assert paths[n] !in existing + AddedNames(paths[..n], write);
    }
  }

  /** A successful write leaves its file, so no more writes succeed than leave
      a file, and at most one per name tried. */
  lemma {:induction false} SavedCountBounds(paths: seq<string>, write: string -> WriteOutcome)
    ensures SavedCount(paths, write) <= LeftCount(paths, write) <= |paths|
    decreases |paths|
  {
    if paths != [] {
      SavedCountBounds(paths[..|paths| - 1], write);
    }
  }

  /** There is one error message per failed write, each naming its image after
      the `\nError saving image ` prefix. */
  lemma {:induction false} ErrorMessagesShape(images: seq<Scraper.Image>, paths: seq<string>,
                                              write: string -> WriteOutcome)
    requires |images| == |paths|
    ensures SavedCount(paths, write) <= |paths|
    ensures |ErrorMessages(images, paths, write)| == |paths| - SavedCount(paths, write)
    ensures forall m :: m in ErrorMessages(images, paths, write) ==> ErrorSavingPrefix <= m
    decreases |paths|
  {
    if paths != [] {
      var n := |paths| - 1;
      ErrorMessagesShape(images[..n], paths[..n], write);
    }
  }

  /** What the records of a loop whose names were fresh in turn add up to:
      the directory grows by one name per write that left a file, and the
      messages are one per failed write, each with the error prefix, then the
      final one. */
  lemma SavedRecords(existing: set<string>, names: set<string>, images: seq<Scraper.Image>,
                     paths: seq<string>, write: string -> WriteOutcome, messages: seq<string>)
    requires |images| == |paths| && |messages| >= 1
    requires FreshInTurn(existing, paths, write)
    requires names == existing + AddedNames(paths, write)
    requires messages == ErrorMessages(images, paths, write) + [messages[|messages| - 1]]
    ensures existing <= names
    ensures |names| == |existing| + LeftCount(paths, write)
    ensures SavedCount(paths, write) <= LeftCount(paths, write) <= |paths|
    ensures |messages| == |paths| - SavedCount(paths, write) + 1
    ensures forall k :: 0 <= k < |messages| - 1 ==> ErrorSavingPrefix <= messages[k]
  {
    FreshInTurnAddsDistinct(existing, paths, write);
    SavedCountBounds(paths, write);
    ErrorMessagesShape(images, paths, write);
    var errors := ErrorMessages(images, paths, write);
    forall k | 0 <= k < |messages| - 1 ensures ErrorSavingPrefix <= messages[k] {
      assert messages[k] == errors[k] && errors[k] in errors;
    }
  }

  /** The `for img in images` loop of `on_images_found`. The ghost `paths`
      records the name picked for each image. Each was fresh at its turn, so no
      file is overwritten; the directory gains exactly the names whose writes
      left a file; `savedCount` counts the successful writes; and `errors` are
      the failures' messages in image order. */
  method SaveEach(dir: Directory, images: seq<Scraper.Image>, write: string -> WriteOutcome)
    returns (savedCount: nat, errors: seq<string>, ghost paths: seq<string>)
    modifies dir
    ensures |paths| == |images|
    ensures FreshInTurn(old(dir.names), paths, write)
    ensures dir.names == old(dir.names) + AddedNames(paths, write)
    ensures savedCount == SavedCount(paths, write)
    ensures errors == ErrorMessages(images, paths, write)
  {
    savedCount := 0;
    errors := [];
    paths := [];
    for i := 0 to |images|
      invariant |paths| == i
      invariant FreshInTurn(old(dir.names), paths, write)
      invariant dir.names == old(dir.names) + AddedNames(paths, write)
      invariant savedCount == SavedCount(paths, write)
      invariant errors == ErrorMessages(images[..i], paths, write)
    {
      var ok, filePath, message := SaveImage(dir, images[i], savedCount, write);
      if ok {
        savedCount := savedCount + 1;
      } else {
        errors := errors + [message];
      }
      assert images[..i + 1] == images[..i] + [images[i]];
      TurnSnoc(old(dir.names), images[..i], images[i], paths, filePath, write);
      paths := paths + [filePath];
    }
    assert images[..|images|] == images;
  }

  /** The saving part of `on_images_found`, once a directory is chosen: the
      loop, then the final message with the count. No name disappears, the
      directory grows by one name per write that left a file, and there is one
      error message per failed image, in order, before the final one. */
  method SaveImages(dir: Directory, images: seq<Scraper.Image>, write: string -> WriteOutcome)
    returns (savedCount: nat, messages: seq<string>, ghost paths: seq<string>)
    modifies dir
    ensures |paths| == |images|
    ensures FreshInTurn(old(dir.names), paths, write)
    ensures dir.names == old(dir.names) + AddedNames(paths, write)
    ensures savedCount == SavedCount(paths, write)
    ensures messages == ErrorMessages(images, paths, write) + [SavedMessage(savedCount, dir.path)]
    ensures old(dir.names) <= dir.names
    ensures |dir.names| == |old(dir.names)| + LeftCount(paths, write)
    ensures savedCount <= LeftCount(paths, write) <= |images|
    ensures |messages| == |images| - savedCount + 1
    ensures forall k :: 0 <= k < |messages| - 1 ==> ErrorSavingPrefix <= messages[k]
  {
    var errors;
    savedCount, errors, paths := SaveEach(dir, images, write);
    messages := errors + [SavedMessage(savedCount, dir.path)];
    SavedRecords(old(dir.names), dir.names, images, paths, write, messages);
  }
}
