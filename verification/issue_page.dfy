/** What the script reads from an issue's detail page and from its
    read-online page (comicScrape.php:182-201): the link of an anchor with
    a given title, and the image URLs of the online reader. */
module IssuePage {
  import opened Wrappers
  import opened Text
  import opened Numbers

  /** The caption of the direct download link. */
  const DownloadNow: string := "Download Now"
  /** The caption of the online reader's link. */
  const ReadOnline: string := "Read Online"

  predicate NotQuote(c: char) {
    c != '"'
  }

  predicate NotGt(c: char) {
    c != '>'
  }

  /** The attribute the anchor pattern ends with: `title="<caption>"`. */
  function TitleAttr(caption: string): string {
    "title=\"" + caption + "\""
  }

  /** The link a match of `href="([^"]+)"[^>]+title="<caption>"` starting at
      `p` captures. The capture is the whole run of non-quotes after
      `href="` (only a quote may follow it); `[^>]+` then has to reach, inside
      the same tag, a place where the title attribute starts, after at
      least one character. */
  function HrefAt(s: string, p: nat, caption: string): (r: Option<string>)
    ensures r.Some? ==> r.value != "" && '"' !in r.value
  {
    if !LiteralAt(s, p, "href=\"", false) then None
    else
      var u0 := p + 6;
      var u1 := SpanEnd(s, u0, NotQuote);
      if u1 == u0 || u1 == |s| then None
      else
        var m := u1 + 1;
        var r := SpanEnd(s, m, NotGt);
        if r == m then None
        else
          var attr := TitleAttr(caption);
          var titleAt := (q: nat) => LiteralAt(s, q, attr, false);
          if !SomeHit(titleAt, m + 1, r) then None
          else
            assert forall i :: 0 <= i < u1 - u0 ==> s[u0..u1][i] == s[u0 + i];
            Some(s[u0..u1])
  }

  /** `preg_match` of the anchor pattern and `$matches[1]`: the link of the
      leftmost match, or nothing (the script then reads `$matches[1]` as
      null). */
  function FindHref(s: string, caption: string): (r: Option<string>)
    ensures r.Some? ==> r.value != "" && '"' !in r.value
  {
    var f := (p: nat) => HrefAt(s, p, caption);
    FirstSomeKeeps(f, 0, |s|, (v: string) => v != "" && '"' !in v);
    FirstSome(f, 0, |s|)
  }

  /** A link found is the capture of the leftmost position that matches. */
  lemma FindHrefAt(s: string, caption: string) returns (p: nat)
    requires FindHref(s, caption).Some?
    ensures p <= |s| && HrefAt(s, p, caption) == FindHref(s, caption)
    ensures forall q :: 0 <= q < p ==> HrefAt(s, q, caption).None?
  {
    var f := (q: nat) => HrefAt(s, q, caption);
    p := FirstSomeAt(f, 0, |s|);
    assert f(p) == HrefAt(s, p, caption);
    forall q | 0 <= q < p
      ensures HrefAt(s, q, caption).None?
    {
      assert f(q).None?;
    }
  }

  /** No link is found exactly when no position matches. */
  lemma FindHrefNone(s: string, caption: string)
    ensures FindHref(s, caption).None? <==> forall p: nat :: p <= |s| ==> HrefAt(s, p, caption).None?
  {
    var f := (q: nat) => HrefAt(s, q, caption);
    if FirstSome(f, 0, |s|).None? {
      FirstSomeNone(f, 0, |s|);
      forall p: nat | p <= |s|
        ensures HrefAt(s, p, caption).None?
      {
        assert f(p).None?;
      }
    } else {
      var p := FindHrefAt(s, caption);
    }
  }

  /** An anchor `href="<url>" title="<caption>"`. */
  function Anchor(url: string, caption: string): string {
    "href=\"" + url + "\" " + TitleAttr(caption)
  }

  /** A page that starts with an anchor for `caption` yields that anchor's
      link: the pattern reads back what the anchor was written with. */
  lemma AnchorRoundTrip(url: string, caption: string, rest: string)
    requires url != "" && '"' !in url
    ensures FindHref(Anchor(url, caption) + rest, caption) == Some(url)
  {
    var s := Anchor(url, caption) + rest;
    AnchorShape(url, caption, rest);
    AnchorAtStart(s, url, caption);
    var f := (q: nat) => HrefAt(s, q, caption);
    assert f(0) == Some(url);
  }

  /** The characters of an anchor followed by `rest`, by position. */
  lemma AnchorShape(url: string, caption: string, rest: string)
    ensures var s := Anchor(url, caption) + rest;
      && |s| == 6 + |url| + 2 + |TitleAttr(caption)| + |rest|
      && s[..6] == "href=\""
      && s[6..6 + |url|] == url
      && s[6 + |url|] == '"'
      && s[7 + |url|] == ' '
      && s[8 + |url|..8 + |url| + |TitleAttr(caption)|] == TitleAttr(caption)
  {
    var s := Anchor(url, caption) + rest;
    assert s == "href=\"" + url + "\" " + TitleAttr(caption) + rest;
  }

  /** `AnchorRoundTrip`, on positions. */
  lemma AnchorAtStart(s: string, url: string, caption: string)
    requires url != "" && '"' !in url
    requires |s| >= 8 + |url| + |TitleAttr(caption)|
    requires s[..6] == "href=\""
    requires s[6..6 + |url|] == url
    requires s[6 + |url|] == '"'
    requires s[7 + |url|] == ' '
    requires s[8 + |url|..8 + |url| + |TitleAttr(caption)|] == TitleAttr(caption)
    ensures HrefAt(s, 0, caption) == Some(url)
  {
    var u1 := 6 + |url|;
    var m := u1 + 1;
    var attr := TitleAttr(caption);
    LiteralSelf(s, 0, "href=\"", false);
    forall i | 6 <= i < u1
      ensures NotQuote(s[i])
    {
      assert s[i] == s[6..u1][i - 6];
    }
    SpanEndIs(s, 6, NotQuote, u1);
    assert attr[0] == 't';
    assert s[m + 1] == attr[0] by {
      assert s[m + 1..m + 1 + |attr|][0] == attr[0];
    }
    var r := SpanEnd(s, m, NotGt);
    assert r >= m + 2;
    LiteralSelf(s, m + 1, attr, false);
    SomeHitAt((q: nat) => LiteralAt(s, q, attr, false), m + 1, r, m + 1);
  }

  predicate NotSpace(c: char) {
    c != ' '
  }

  /** The literal the gallery pattern starts with. */
  const DataSrc: string := "data-src=' "

  /** A match of `data-src=' ([^ ]+) '` at `p`: the image URL it captures
      and where the match ends. The capture is the whole run of non-spaces
      (only a space may follow it). */
  function ImageAt(s: string, p: nat): (r: Option<(string, nat)>)
    ensures r.Some? ==> r.value.0 != "" && ' ' !in r.value.0
    ensures r.Some? ==> p + |DataSrc| + |r.value.0| + 2 == r.value.1 <= |s|
  {
    if !LiteralAt(s, p, DataSrc, false) then None
    else
      var c0 := p + |DataSrc|;
      var c1 := SpanEnd(s, c0, NotSpace);
      if c1 == c0 || !LiteralAt(s, c1, " '", false) then None
      else
        assert forall i :: 0 <= i < c1 - c0 ==> s[c0..c1][i] == s[c0 + i];
        Some((s[c0..c1], c1 + 2))
  }

  /** `preg_match_all` of the gallery pattern and `$submatches[1]`: the
      captures of the successive non-overlapping matches, left to right,
      each search resuming where the previous match ended. */
  function GalleryImages(s: string): (r: seq<string>)
    decreases |s|
    ensures forall i :: 0 <= i < |r| ==> r[i] != "" && ' ' !in r[i]
  {
    var f := (p: nat) => ImageAt(s, p);
    FirstSomeKeeps(f, 0, |s|, (v: (string, nat)) => v.0 != "" && ' ' !in v.0 && 0 < v.1 <= |s|);
    match FirstSome(f, 0, |s|)
    case None => []
    case Some(hit) => [hit.0] + GalleryImages(s[hit.1..])
  }

  /** No image is found exactly when no position matches. */
  lemma GalleryEmpty(s: string)
    ensures |GalleryImages(s)| == 0 <==> forall p: nat :: p <= |s| ==> ImageAt(s, p).None?
  {
    var f := (q: nat) => ImageAt(s, q);
    if FirstSome(f, 0, |s|).None? {
      FirstSomeNone(f, 0, |s|);
      forall p: nat | p <= |s|
        ensures ImageAt(s, p).None?
      {
        assert f(p).None?;
      }
    } else {
      var p := FirstSomeAt(f, 0, |s|);
      assert f(p).Some?;
    }
  }

  /** The tag the online reader gives one image. */
  function ImageTag(url: string): string {
    DataSrc + url + " '"
  }

  /** A reader page made of image tags, one after another. */
  function Gallery(urls: seq<string>): string {
    if |urls| == 0 then "" else ImageTag(urls[0]) + Gallery(urls[1..])
  }

  /** Reading a reader page back gives the images it was written with, in order. */
  lemma {:induction false} GalleryRoundTrip(urls: seq<string>)
    requires forall i :: 0 <= i < |urls| ==> urls[i] != "" && ' ' !in urls[i]
    ensures GalleryImages(Gallery(urls)) == urls
  {
    if |urls| > 0 {
      GalleryStep(urls);
      GalleryRoundTrip(urls[1..]);
    }
  }

  /** The first tag of a reader page gives its first image; the search
      then resumes at the next tag. */
  lemma GalleryStep(urls: seq<string>)
    requires |urls| > 0 && urls[0] != "" && ' ' !in urls[0]
    ensures GalleryImages(Gallery(urls)) == [urls[0]] + GalleryImages(Gallery(urls[1..]))
  {
    TagShape(urls[0], Gallery(urls[1..]));
    FirstImage(Gallery(urls), urls[0], Gallery(urls[1..]));
  }

  /** A text that starts with a tag for `url` and goes on with `rest`
      yields `url` and then the images of `rest`. */
  lemma FirstImage(s: string, url: string, rest: string)
    requires url != "" && ' ' !in url
    requires |s| >= |DataSrc| + |url| + 2
    requires s[..|DataSrc|] == DataSrc
    requires s[|DataSrc|..|DataSrc| + |url|] == url
    requires s[|DataSrc| + |url|] == ' '
    requires s[|DataSrc| + |url| + 1] == '\''
    requires s[|DataSrc| + |url| + 2..] == rest
    ensures GalleryImages(s) == [url] + GalleryImages(rest)
  {
    TagAtStart(s, url);
    var f := (q: nat) => ImageAt(s, q);
    assert f(0).Some?;
  }

  /** The characters of an image tag followed by `rest`, by position. */
  lemma TagShape(url: string, rest: string)
    ensures var s := ImageTag(url) + rest;
      && |s| == |DataSrc| + |url| + 2 + |rest|
      && s[..|DataSrc|] == DataSrc
      && s[|DataSrc|..|DataSrc| + |url|] == url
      && s[|DataSrc| + |url|] == ' '
      && s[|DataSrc| + |url| + 1] == '\''
      && s[|DataSrc| + |url| + 2..] == rest
  {
  }

  /** `GalleryRoundTrip`'s step, on positions. */
  lemma TagAtStart(s: string, url: string)
    requires url != "" && ' ' !in url
    requires |s| >= |DataSrc| + |url| + 2
    requires s[..|DataSrc|] == DataSrc
    requires s[|DataSrc|..|DataSrc| + |url|] == url
    requires s[|DataSrc| + |url|] == ' '
    requires s[|DataSrc| + |url| + 1] == '\''
    ensures ImageAt(s, 0) == Some((url, |DataSrc| + |url| + 2))
  {
    var c0 := |DataSrc|;
    var c1 := c0 + |url|;
    LiteralSelf(s, 0, DataSrc, false);
    forall i | c0 <= i < c1
      ensures NotSpace(s[i])
    {
      assert s[i] == s[c0..c1][i - c0];
    }
    SpanEndIs(s, c0, NotSpace, c1);
    assert LiteralAt(s, c1, " '", false);
  }

  /** The names the reader's pages are saved under before they are
      archived: `1.jpg`, `2.jpg`, ... */
  function PageFiles(n: nat): (r: seq<string>)
    ensures |r| == n
  {
    seq(n, i requires 0 <= i < n => IntToString(i + 1) + ".jpg")
  }

  /** No two pages are saved under the same name. */
  lemma PageFilesDistinct(n: nat, i: nat, j: nat)
    requires i < n && j < n && i != j
    ensures PageFiles(n)[i] != PageFiles(n)[j]
  {
    var a := IntToString(i + 1);
    var b := IntToString(j + 1);
    if a + ".jpg" == b + ".jpg" {
      assert a == (a + ".jpg")[..|a|];
      assert b == (b + ".jpg")[..|b|];
      IntToStringInjective(i + 1, j + 1);
    }
  }
}
