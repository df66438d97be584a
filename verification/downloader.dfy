/**
 * The downloader stage: recognising a post title, deciding whether the
 * post's image is new, naming the file, and the loop over all posts.
 * Fetching posts and images (praw, urllib) is outside the model: posts are
 * given as their titles, and a download is recorded as the file name it
 * adds to the download directory's listing.
 */
module Downloader {
  import opened Wrappers
  import opened Text
  import Utils

  /** The literal text of `RE_TITLE` up to its unescaped `.` after "collection". */
  const HEAD := "Every day General Grievous adds a unique lightsaber to his collection"
  /** The literal text between that `.` and the day number. */
  const DAY := " Day "
  /** The literal text between the day number and the lightsaber name. */
  const COLON := ": "

  /** The two groups of a matching title: the day number and the lightsaber name. */
  datatype Post = Post(day: string, name: string)

  predicate ValidDay(day: string) { day != [] && AllDigits(day) }

  predicate ValidName(name: string) { name != [] && '.' !in name }

  /**
   * A title the pattern accepts: `c` stands for the character matched by the
   * unescaped `.`, `end` for what follows the name: nothing, the optional
   * `\.`, or the optional `\.` and a final newline that `$` lets through.
   */
  function TitleOf(c: char, p: Post, end: string): string {
    HEAD + ([c] + (DAY + (p.day + (COLON + (p.name + end)))))
  }

  predicate IsEnd(end: string) { end == "" || end == "." || end == ".\n" }

  /** The longest run of ASCII digits at the start of `s`: what the greedy `(\d+)` takes. */
  function LeadingDigits(s: string): (r: string)
    ensures r <= s && AllDigits(r)
    ensures |r| < |s| ==> !IsDigit(s[|r|])
  {
    if s != [] && IsDigit(s[0]) then [s[0]] + LeadingDigits(s[1..]) else []
  }

  /** `([^\.]+)\.?$` on what follows ": ". */
  function ParseName(s: string): (r: Option<string>)
    ensures r.Some? ==> ValidName(r.value) && exists end :: IsEnd(end) && s == r.value + end
  {
    if '.' !in s then
      if s != [] then
        assert s == s + "";
        Some(s)
      else None
    else if |s| > 1 && s[|s| - 1] == '.' && '.' !in s[..|s| - 1] then
      assert s == s[..|s| - 1] + ".";
      Some(s[..|s| - 1])
    else if |s| > 2 && s[|s| - 2..] == ".\n" && '.' !in s[..|s| - 2] then
      assert s == s[..|s| - 2] + ".\n";
      Some(s[..|s| - 2])
    else None
  }

  /** `re.match(RE_TITLE, title)`, giving the two groups on a match. */
  function ParseTitle(title: string): (r: Option<Post>)
    ensures r.Some? ==> ValidDay(r.value.day) && ValidName(r.value.name)
  {
    if |title| <= |HEAD| || title[..|HEAD|] != HEAD || title[|HEAD|] == '\n' then None
    else
      var afterDot := title[|HEAD| + 1..];
      if !StartsWith(afterDot, DAY) then None
      else
        var afterLabel := afterDot[|DAY|..];
        var day := LeadingDigits(afterLabel);
        var afterDay := afterLabel[|day|..];
        if day == [] || !StartsWith(afterDay, COLON) then None
        else
          match ParseName(afterDay[|COLON|..])
          case None => None
          case Some(name) => Some(Post(day, name))
  }

  /** Every accepted title is the pattern's text around the two groups it returns. */
  lemma ParseTitleSound(title: string)
    requires ParseTitle(title).Some?
    ensures |title| > |HEAD| && title[|HEAD|] != '\n'
    ensures exists end :: IsEnd(end) && title == TitleOf(title[|HEAD|], ParseTitle(title).value, end)
  {
    var p := ParseTitle(title).value;
    var afterDot := title[|HEAD| + 1..];
    var afterLabel := afterDot[|DAY|..];
    var afterDay := afterLabel[|p.day|..];
    var end :| IsEnd(end) && afterDay[|COLON|..] == p.name + end;
    PrefixThen(afterDay, COLON);
    PrefixThen(afterLabel, p.day);
    PrefixThen(afterDot, DAY);
    HeadThenChar(title, HEAD);
  }

  lemma PrefixThen(s: string, prefix: string)
    requires StartsWith(s, prefix)
    ensures s == prefix + s[|prefix|..]
  {
    assert s == s[..|prefix|] + s[|prefix|..];
  }

  lemma HeadThenChar(s: string, head: string)
    requires |s| > |head| && s[..|head|] == head
    ensures s == head + ([s[|head|]] + s[|head| + 1..])
  {
    assert s == s[..|head|] + s[|head|..];
    assert s[|head|..] == [s[|head|]] + s[|head| + 1..];
  }

  lemma {:induction false} LeadingDigitsOf(ds: string, rest: string)
    requires AllDigits(ds)
    requires rest == [] || !IsDigit(rest[0])
    ensures LeadingDigits(ds + rest) == ds
  {
    if ds != [] {
      assert (ds + rest)[1..] == ds[1..] + rest;
      LeadingDigitsOf(ds[1..], rest);
    }
  }

  /** A title with the pattern's literal text and a day number is decided by what follows ": ". */
  lemma ParseTitleShape(c: char, day: string, s: string)
    requires c != '\n' && ValidDay(day)
    ensures ParseTitle(HEAD + ([c] + (DAY + (day + (COLON + s))))) ==
      match ParseName(s) case None => None case Some(name) => Some(Post(day, name))
  {
    var title := HEAD + ([c] + (DAY + (day + (COLON + s))));
    assert title[..|HEAD|] == HEAD && title[|HEAD|] == c;
    var afterDot := title[|HEAD| + 1..];
    assert afterDot == DAY + (day + (COLON + s));
    var afterLabel := afterDot[|DAY|..];
    assert afterLabel == day + (COLON + s);
    LeadingDigitsOf(day, COLON + s);
    assert afterLabel[|day|..] == COLON + s;
  }

  lemma ParseNameComplete(name: string, end: string)
    requires ValidName(name) && IsEnd(end)
    ensures ParseName(name + end) == Some(name)
  {
    var s := name + end;
    if end == "." {
      assert s[..|s| - 1] == name;
    } else if end == ".\n" {
      assert s[..|s| - 2] == name;
      assert s[|s| - 1] == '\n';
    } else {
      assert s == name;
    }
  }

  /** Round trip: the parser gives back the day and name that a well-formed title was built from. */
  lemma ParseTitleComplete(c: char, p: Post, end: string)
    requires c != '\n' && ValidDay(p.day) && ValidName(p.name) && IsEnd(end)
    ensures ParseTitle(TitleOf(c, p, end)) == Some(p)
  {
    ParseTitleShape(c, p.day, p.name + end);
    ParseNameComplete(p.name, end);
  }

  /** A `.` that is neither the last character nor followed only by the final newline stops the name. */
  lemma ParseNameInnerDot(s: string, i: nat)
    requires i < |s| - 1 && s[i] == '.'
    requires !(i == |s| - 2 && s[i + 1] == '\n')
    ensures ParseName(s) == None
  {
    assert s[..|s| - 1][i] == '.';
    if i < |s| - 2 {
      assert s[..|s| - 2][i] == '.';
    } else {
      assert s[|s| - 2..][1] != '\n';
    }
  }

  /** A `.` inside the name, rather than one final `.`, makes the title not match. */
  lemma DotInNameRejected(c: char, day: string, left: string, right: string, end: string)
    requires c != '\n' && ValidDay(day) && IsEnd(end)
    requires ValidName(left) && ValidName(right) && right != "\n"
    ensures ParseTitle(TitleOf(c, Post(day, left + "." + right), end)) == None
  {
    var s := left + "." + right + end;
    assert s[|left|] == '.';
    if |left| == |s| - 2 {
      assert right == [s[|s| - 1]];
    }
    ParseNameInnerDot(s, |left|);
    ParseTitleShape(c, day, s);
    assert left + "." + right + end == (left + "." + right) + end;
  }

  /**
   * The `.` after "collection" is unescaped: any character other than a
   * newline in its place gives the same outcome.
   */
  lemma AnyCharAfterCollection(title: string, c: char)
    requires |title| > |HEAD| && title[|HEAD|] != '\n' && c != '\n'
    ensures ParseTitle(title[|HEAD| := c]) == ParseTitle(title)
  {
    var other := title[|HEAD| := c];
    assert other[..|HEAD|] == title[..|HEAD|];
    assert other[|HEAD| + 1..] == title[|HEAD| + 1..];
  }
  /** What `process_thibson_post` does with one post; it returns True exactly for `Download`. */
  datatype Outcome = NotMatched | AlreadyDownloaded | Download(file: string)

  /** The target file name `f"{number}_{title}.png"`. */
  function FileName(p: Post): (f: string)
    ensures Utils.IsPng(f)
    ensures |f| > |p.day| && f[..|p.day|] == p.day && f[|p.day|] == '_'
  {
    p.day + "_" + p.name + ".png"
  }

  /** Some PNG in the listing has `day` as its text before the first `_`. */
  predicate OnFile(listing: seq<string>, day: string) {
    exists f :: f in listing && Utils.IsPng(f) && Before(f, '_') == day
  }

  /**
   * `process_thibson_post` with the download directory's listing given: a
   * title that does not match is ignored; a day already on file is skipped
   * (a string comparison); otherwise the image is downloaded under
   * `FileName`. Listing the directory fails as `get_images_in_dir` does.
   */
  function ProcessPost(title: string, listing: seq<string>): (r: Result<Outcome>)
    ensures r == Ok(NotMatched) <==> ParseTitle(title).None?
    ensures r.Err? <==> ParseTitle(title).Some? && Utils.ListImages(listing).Err?
    ensures r == Ok(AlreadyDownloaded) <==>
      ParseTitle(title).Some? && Utils.ListImages(listing).Ok? && OnFile(listing, ParseTitle(title).value.day)
    ensures r.Ok? && r.value.Download? ==>
      ParseTitle(title).Some? && Utils.ListImages(listing).Ok? && !OnFile(listing, ParseTitle(title).value.day)
      && r.value.file == FileName(ParseTitle(title).value)
  {
    match ParseTitle(title)
    case None => Ok(NotMatched)
    case Some(p) =>
      match Utils.ListImages(listing)
      case Err(e) => Err(e)
      case Ok(files) =>
        if exists f :: f in files && Before(f, '_') == p.day then Ok(AlreadyDownloaded)
        else Ok(Download(FileName(p)))
  }

  /** A downloaded file is a PNG whose ordinal is the day number and whose `_`-prefix is the day text. */
  lemma FileNameListed(p: Post)
    requires ValidDay(p.day)
    ensures Utils.IsPng(FileName(p))
    ensures Before(FileName(p), '_') == p.day
    ensures Utils.Ordinal(FileName(p)) == Some(DigitsValue(p.day))
  {
    assert FileName(p) == p.day + "_" + (p.name + ".png");
    Utils.OrdinalOfDigits(p.day, p.name + ".png");
    assert '_' !in p.day by {
      forall i | 0 <= i < |p.day| ensures p.day[i] != '_' {
        assert IsDigit(p.day[i]);
      }
    }
    BeforeUnique(p.day, '_', p.name + ".png");
  }

  lemma {:induction false} LeadingZeroValue(ds: string)
    requires AllDigits(ds)
    ensures AllDigits("0" + ds) && DigitsValue("0" + ds) == DigitsValue(ds)
  {
    if ds != [] {
      assert ("0" + ds)[..|ds|] == "0" + ds[..|ds| - 1];
      LeadingZeroValue(ds[..|ds| - 1]);
    }
  }

  /**
   * The day is compared as text: a file whose ordinal is the same number
   * written with a leading zero does not stop the download.
   */
  lemma DayComparedAsText(title: string, rest: string)
    requires ParseTitle(title).Some?
    ensures var p := ParseTitle(title).value;
      var existing := "0" + p.day + "_" + rest + ".png";
      && Utils.Ordinal(existing) == Utils.Ordinal(FileName(p))
      && ProcessPost(title, [existing]) == Ok(Download(FileName(p)))
  {
    var p := ParseTitle(title).value;
    var existing := ZeroPaddedFile(p.day, rest);
    FileNameListed(p);
    assert !OnFile([existing], p.day);
  }

  /** `0<day>_<rest>.png` is a PNG with the day's ordinal and `0<day>` before its `_`. */
  lemma ZeroPaddedFile(day: string, rest: string) returns (existing: string)
    requires ValidDay(day)
    ensures existing == "0" + day + "_" + rest + ".png"
    ensures Utils.IsPng(existing) && Utils.Ordinal(existing) == Some(DigitsValue(day))
    ensures Before(existing, '_') == "0" + day && Before(existing, '_') != day
  {
    var zeroDay := "0" + day;
    existing := zeroDay + "_" + (rest + ".png");
    assert existing == "0" + day + "_" + rest + ".png";
    LeadingZeroValue(day);
    Utils.OrdinalOfDigits(zeroDay, rest + ".png");
    assert '_' !in zeroDay by {
      forall i | 0 <= i < |zeroDay| ensures zeroDay[i] != '_' {
        assert IsDigit(zeroDay[i]);
      }
    }
    BeforeUnique(zeroDay, '_', rest + ".png");
    assert |zeroDay| != |day|;
  }

  /** The download directory after a download. */
  function Added(o: Outcome): seq<string> {
    if o.Download? then [o.file] else []
  }

  /**
   * The posts from `titles` onward processed in order against `listing`,
   * `found` recording whether an earlier post was downloaded: the value
   * `main` returns (or the exception it raises) and the final listing.
   */
  function Run(titles: seq<string>, listing: seq<string>, found: bool): (r: (Result<bool>, seq<string>))
    ensures |r.1| <= |listing| + |titles|
    ensures found && r.0.Ok? ==> r.0.value
  {
    if titles == [] then (Ok(found), listing)
    else
      match ProcessPost(titles[0], listing)
      case Err(e) => (Err(e), listing)
      case Ok(o) => Run(titles[1..], listing + Added(o), found || o.Download?)
  }

  /** Downloader `main`: process every post in turn and report whether anything new was fetched. */
  method DownloadAll(titles: seq<string>, listing: seq<string>) returns (r: Result<bool>, files: seq<string>)
    ensures (r, files) == Run(titles, listing, false)
    ensures listing <= files
    ensures r.Ok? ==> (r.value <==> |files| > |listing|)
  {
    files := listing;
    var found := false;
    var i := 0;
    while i < |titles|
      invariant i <= |titles|
      invariant Run(titles, listing, false) == Run(titles[i..], files, found)
    {
      assert titles[i..][0] == titles[i] && titles[i..][1..] == titles[i + 1..];
      match ProcessPost(titles[i], files)
      case Err(e) =>
        r := Err(e);
        RunGrows(titles, listing, false);
        return;
      case Ok(o) =>
        assert Run(titles[i..], files, found) == Run(titles[i + 1..], files + Added(o), found || o.Download?);
        if o.Download? {
          files := files + [o.file];
          found := true;
        } else {
          assert files + Added(o) == files;
        }
      i := i + 1;
    }
    r := Ok(found);
    RunGrows(titles, listing, false);
  }

  /** Every matching title's day is on file afterwards, and the directory listing is usable. */
  predicate Covered(titles: seq<string>, listing: seq<string>) {
    forall t :: t in titles && ParseTitle(t).Some? ==>
      Utils.ListImages(listing).Ok? && OnFile(listing, ParseTitle(t).value.day)
  }

  lemma ListImagesExtend(listing: seq<string>, extra: seq<string>)
    requires Utils.ListImages(listing).Ok?
    requires forall f :: f in extra ==> Utils.HasOrdinal(f)
    ensures Utils.ListImages(listing + extra).Ok?
  {
  }

  /**
   * A run only appends files, each a PNG with an ordinal, and it returns
   * True exactly when it appended something.
   */
  lemma {:induction false} RunGrows(titles: seq<string>, listing: seq<string>, found: bool)
    ensures var (r, files) := Run(titles, listing, found);
      && listing <= files
      && (forall f :: f in files[|listing|..] ==> Utils.IsPng(f) && Utils.HasOrdinal(f))
      && (r.Ok? ==> (r.value <==> found || |files| > |listing|))
  {
    if titles != [] && ProcessPost(titles[0], listing).Ok? {
      var o := ProcessPost(titles[0], listing).value;
      var next := listing + Added(o);
      assert Run(titles, listing, found) == Run(titles[1..], next, found || o.Download?);
      RunGrows(titles[1..], next, found || o.Download?);
      AddedIsListable(titles[0], listing);
      SplitAfterPrefix(listing, Added(o), Run(titles, listing, found).1);
    }
  }

  /** A downloaded file is a PNG named after its day, so it does not break the listing. */
  lemma AddedIsListable(title: string, listing: seq<string>)
    requires ProcessPost(title, listing).Ok?
    ensures forall f :: f in Added(ProcessPost(title, listing).value) ==> Utils.IsPng(f) && Utils.HasOrdinal(f)
  {
    if ProcessPost(title, listing).value.Download? {
      FileNameListed(ParseTitle(title).value);
    }
  }

  /** After a successful run, every matching title's day is on file and the listing is usable. */
  lemma {:induction false} RunCovers(titles: seq<string>, listing: seq<string>, found: bool)
    requires Run(titles, listing, found).0.Ok?
    ensures Covered(titles, Run(titles, listing, found).1)
  {
    if titles != [] {
      var t := titles[0];
      var o := ProcessPost(t, listing).value;
      var next := listing + Added(o);
      var files := Run(titles, listing, found).1;
      RunCovers(titles[1..], next, found || o.Download?);
      if ParseTitle(t).Some? {
        RunGrows(titles[1..], next, found || o.Download?);
        HeadCovered(t, listing, next, files);
      }
    }
  }

  lemma SplitAfterPrefix(listing: seq<string>, added: seq<string>, files: seq<string>)
    requires listing + added <= files
    ensures files == listing + files[|listing|..]
    ensures files[|listing|..] == added + files[|listing + added|..]
  {
  }

  lemma HeadCovered(t: string, listing: seq<string>, next: seq<string>, files: seq<string>)
    requires ParseTitle(t).Some? && ProcessPost(t, listing).Ok?
    requires next == listing + Added(ProcessPost(t, listing).value)
    requires next <= files
    requires forall f :: f in files[|next|..] ==> Utils.IsPng(f) && Utils.HasOrdinal(f)
    ensures Utils.ListImages(files).Ok? && OnFile(files, ParseTitle(t).value.day)
  {
    var o := ProcessPost(t, listing).value;
    SplitAfterPrefix(listing, Added(o), files);
    if o.Download? {
      DownloadCovered(t, listing, files);
    } else {
      SkipCovered(t, listing, files);
    }
  }

  /** A post whose file was downloaded has its day on file in every later listing. */
  lemma DownloadCovered(t: string, listing: seq<string>, files: seq<string>)
    requires ParseTitle(t).Some? && ProcessPost(t, listing).Ok? && ProcessPost(t, listing).value.Download?
    requires listing + [ProcessPost(t, listing).value.file] <= files
    requires forall f :: f in files[|listing| + 1..] ==> Utils.IsPng(f) && Utils.HasOrdinal(f)
    ensures Utils.ListImages(files).Ok? && OnFile(files, ParseTitle(t).value.day)
  {
    var p := ParseTitle(t).value;
    var file := ProcessPost(t, listing).value.file;
    var extra := files[|listing|..];
    FileNameListed(p);
    assert files == listing + extra;
    assert extra[0] == file && extra[1..] == files[|listing| + 1..];
    assert forall f :: f in extra ==> f == file || f in extra[1..];
    ListImagesExtend(listing, extra);
    assert files[|listing|] == file;
  }

  /** A post skipped because its day was on file keeps it on file in every later listing. */
  lemma SkipCovered(t: string, listing: seq<string>, files: seq<string>)
    requires ParseTitle(t).Some? && ProcessPost(t, listing).Ok? && !ProcessPost(t, listing).value.Download?
    requires listing <= files
    requires forall f :: f in files[|listing|..] ==> Utils.IsPng(f) && Utils.HasOrdinal(f)
    ensures Utils.ListImages(files).Ok? && OnFile(files, ParseTitle(t).value.day)
  {
    var day := ParseTitle(t).value.day;
    assert ProcessPost(t, listing) == Ok(AlreadyDownloaded);
    assert OnFile(listing, day) && Utils.ListImages(listing).Ok?;
    OnFileGrows(listing, files, day);
    var extra := files[|listing|..];
    assert files == listing + extra;
    ListImagesExtend(listing, extra);
  }

  lemma OnFileGrows(listing: seq<string>, files: seq<string>, day: string)
    requires OnFile(listing, day) && listing <= files
    ensures OnFile(files, day)
  {
    var f :| f in listing && Utils.IsPng(f) && Before(f, '_') == day;
    assert f in files;
  }

  /** Once every matching title's day is on file, processing the titles again changes nothing. */
  lemma {:induction false} RunCoveredIdle(titles: seq<string>, files: seq<string>, found: bool)
    requires Covered(titles, files)
    ensures Run(titles, files, found) == (Ok(found), files)
  {
    if titles != [] {
      assert Covered(titles[1..], files);
      var t := titles[0];
      if ParseTitle(t).Some? {
        var f :| f in files && Utils.IsPng(f) && Before(f, '_') == ParseTitle(t).value.day;
        assert f in Utils.ListImages(files).value;
      }
      assert files + [] == files;
      RunCoveredIdle(titles[1..], files, found);
    }
  }

  /** The downloader is idempotent against what is on disk: a second run over the same posts fetches nothing. */
  lemma RerunDownloadsNothing(titles: seq<string>, listing: seq<string>)
    requires Run(titles, listing, false).0.Ok?
    ensures Run(titles, Run(titles, listing, false).1, false) == (Ok(false), Run(titles, listing, false).1)
  {
    RunCovers(titles, listing, false);
    RunCoveredIdle(titles, Run(titles, listing, false).1, false);
  }
}
