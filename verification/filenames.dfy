/** Where a downloaded issue is saved (comicScrape.php:207, 238-245,
    276-287, 344-347): the file name the server's redirect names, or else
    one the script composes from the title and the issue number, with an
    extension that depends on whether the body is a zip archive. */
module Filenames {
  import opened Wrappers
  import opened Text
  import opened Numbers
  import opened UrlCodec
  import opened Library

  newtype byte = x: int | 0 <= x < 256

  /** The signature of a zip central directory file header, `PK\x01\x02`
      (section 4.3.12 of the PKWARE APPNOTE). */
  const ZipSignature: seq<byte> := [0x50, 0x4B, 0x01, 0x02]

  /** `is_zip`: `explode` on the signature gives more than one piece. That
      is, the body holds the signature somewhere. */
  function IsZip(data: seq<byte>): (r: bool)
    ensures r <==> exists i :: OccursAt(data, ZipSignature, i)
  {
    |Split(data, ZipSignature)| > 1
  }

  /** Any body holding the signature counts as a zip archive, wherever it sits. */
  lemma ZipWherever(front: seq<byte>, back: seq<byte>)
    ensures IsZip(front + ZipSignature + back)
  {
    var data := front + ZipSignature + back;
    assert data[|front|..|front| + 4] == ZipSignature;
    assert OccursAt(data, ZipSignature, |front|);
  }

  /** A body too short to hold the signature is never a zip archive. */
  lemma ShortIsNotZip(data: seq<byte>)
    requires |data| < 4
    ensures !IsZip(data)
  {
  }

  /** The extension of a composed name: `.cbz` for a zip archive, `.cbr`
      otherwise. */
  function ArchiveExtension(data: seq<byte>): (ext: string)
    ensures ext == ".cbz" <==> IsZip(data)
    ensures ext == ".cbr" <==> !IsZip(data)
  {
    if IsZip(data) then ".cbz" else ".cbr"
  }

  /** A match of `\/([^\/]+)$` at `p`: a slash, then a non-empty run of
      non-slashes that reaches the end of the text. */
  function SegmentAt(s: string, p: nat): (r: Option<string>)
    ensures r.Some? ==> r.value != "" && '/' !in r.value
  {
    if p < |s| && s[p] == '/' && p + 1 < |s| && SpanEnd(s, p + 1, NotSlash) == |s| then
      Some(s[p + 1..])
    else None
  }

  /** The capture of `preg_match('/\/([^\/]+)$/', s)`: the text after the
      last slash, when there is any. */
  function LastSegment(s: string): (r: Option<string>)
    ensures r.Some? ==> r.value != "" && '/' !in r.value
  {
    var f := (p: nat) => SegmentAt(s, p);
    FirstSomeKeeps(f, 0, |s|, (v: string) => v != "" && '/' !in v);
    FirstSome(f, 0, |s|)
  }

  /** What `LastSegment` captures is the end of the text, right after a
      slash; and it captures nothing exactly when no position matches. */
  lemma LastSegmentSpec(s: string)
    ensures var r := LastSegment(s);
      r.Some? ==> |r.value| < |s| && s[|s| - |r.value| - 1] == '/' && s[|s| - |r.value|..] == r.value
    ensures LastSegment(s).None? <==> forall p: nat :: p <= |s| ==> SegmentAt(s, p).None?
  {
    var f := (p: nat) => SegmentAt(s, p);
    if FirstSome(f, 0, |s|).Some? {
      var q := FirstSomeAt(f, 0, |s|);
      assert SegmentAt(s, q).Some?;
    } else {
      FirstSomeNone(f, 0, |s|);
      forall p: nat | p <= |s|
        ensures SegmentAt(s, p).None?
      {
        assert f(p).None?;
      }
    }
  }

  /** The name after the last slash of a URL is what the pattern captures. */
  lemma LastSegmentOf(front: string, name: string)
    requires name != "" && '/' !in name
    ensures LastSegment(front + "/" + name) == Some(name)
  {
    var s := front + "/" + name;
    var p := |front|;
    assert s[p + 1..] == name;
    forall k | p + 1 <= k < |s|
      ensures NotSlash(s[k])
    {
      assert s[k] == name[k - p - 1];
    }
    SpanEndIs(s, p + 1, NotSlash, |s|);
    assert SegmentAt(s, p) == Some(name);
    FirstSomeFound((q: nat) => SegmentAt(s, q), 0, |s|, p);
    LastSegmentSpec(s);
  }

  /** A text ending in a slash names no file. */
  lemma TrailingSlash(s: string)
    requires |s| > 0 && s[|s| - 1] == '/'
    ensures LastSegment(s) == None
  {
    LastSegmentSpec(s);
  }

  /** Whether a response header is the one `get_real_filename` reads: its
      lower-cased text holds `location` anywhere. */
  predicate IsLocation(header: string) {
    Contains(ToLower(header), "location")
  }

  /** A header is a location header exactly when `location`, in any mix of
      cases, occurs in it. */
  lemma IsLocationSpec(header: string)
    ensures IsLocation(header) <==> exists i :: OccursAt(ToLower(header), "location", i)
  {
  }

  /** So `Location:`, `location:` and `LOCATION:` headers all count, wherever
      the word sits. */
  lemma LocationAnyCase(front: string, word: string, back: string)
    requires ToLower(word) == "location"
    ensures IsLocation(front + word + back)
  {
    var h := front + word + back;
    var low := ToLower(h);
    forall k | 0 <= k < |word|
      ensures low[|front| + k] == "location"[k]
    {
      assert h[|front| + k] == word[k];
      assert ToLower(word)[k] == ToLowerChar(word[k]);
    }
    assert low[|front|..|front| + |word|] == "location";
    IsLocationSpec(h);
    assert OccursAt(low, "location", |front|);
  }

  /** `get_real_filename`: the first header that mentions `location` is
      URL-decoded, and the name after its last slash is returned. The
      headers after it are not looked at, even when that one names no file. */
  function RealFilename(headers: seq<string>): (r: Option<string>)
    decreases |headers|
    ensures r.Some? ==> r.value != "" && '/' !in r.value
    ensures r.Some? ==> exists i :: 0 <= i < |headers| && IsLocation(headers[i])
  {
    if |headers| == 0 then None
    else if IsLocation(headers[0]) then LastSegment(UrlDecode(headers[0]))
    else RealFilename(headers[1..])
  }

  /** Headers before the first location header do not matter, nor do those after it. */
  lemma {:induction false} FirstLocationWins(front: seq<string>, h: string, back: seq<string>)
    requires forall i :: 0 <= i < |front| ==> !IsLocation(front[i])
    requires IsLocation(h)
    ensures RealFilename(front + [h] + back) == LastSegment(UrlDecode(h))
    decreases |front|
  {
    var hs := front + [h] + back;
    if |front| > 0 {
      assert hs[1..] == front[1..] + [h] + back;
      FirstLocationWins(front[1..], h, back);
    }
  }

  /** Without a location header there is no name from the server. */
  lemma {:induction false} NoLocation(headers: seq<string>)
    requires forall i :: 0 <= i < |headers| ==> !IsLocation(headers[i])
    ensures RealFilename(headers) == None
    decreases |headers|
  {
    if |headers| > 0 {
      NoLocation(headers[1..]);
    }
  }

  /** The name the script composes itself: `<title> <%03d issue><ext>`. */
  function FallbackName(title: string, wanted: nat, data: seq<byte>): string {
    title + " " + Pad3(wanted) + ArchiveExtension(data)
  }

  /** The archive the online reader's pages are packed into: always `.cbr`. */
  function GalleryName(title: string, wanted: nat): string {
    title + " " + Pad3(wanted) + ".cbr"
  }

  /** The name a download is saved under: the server's, unless there is
      none or PHP finds it falsy (the name "0"), and the composed one then. */
  function ResolveFilename(headers: seq<string>, title: string, wanted: nat, data: seq<byte>): (name: string)
    ensures RealFilename(headers).Some? && Truthy(RealFilename(headers).value) ==> name == RealFilename(headers).value
    ensures !(RealFilename(headers).Some? && Truthy(RealFilename(headers).value)) ==> name == FallbackName(title, wanted, data)
    ensures name != ""
  {
    match RealFilename(headers)
    case Some(n) => if Truthy(n) then n else FallbackName(title, wanted, data)
    case None => FallbackName(title, wanted, data)
  }

  /** A composed name is read back, by the owned-issue scan of the next
      run, as the issue it was saved for. */
  lemma FallbackOwned(title: string, wanted: nat, data: seq<byte>)
    requires '/' !in title
    ensures IssueInName(FallbackName(title, wanted, data), title) == Some(wanted)
  {
    var ext := ArchiveExtension(data);
    assert ext[0] == '.';
    NamedIssue(title, Pad3(wanted), ext);
  }

  /** So is the name of an archive of reader pages. */
  lemma GalleryOwned(title: string, wanted: nat)
    requires '/' !in title
    ensures IssueInName(GalleryName(title, wanted), title) == Some(wanted)
  {
    var ext := ".cbr";
    assert ext[0] == '.';
    NamedIssue(title, Pad3(wanted), ext);
  }
}
