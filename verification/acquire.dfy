/** The acquisition loop for one title (comicScrape.php:167-261): while the
    search corpus holds the URL of the wanted issue, that issue is fetched
    (as a download, or as the pages of the online reader packed into an
    archive), its path is recorded and the next issue is wanted. */
module Acquire {
  import opened Wrappers
  import opened Text
  import opened Numbers
  import opened Library
  import opened Target
  import opened Search
  import opened IssuePage
  import opened Filenames

  /** What a download brings back: `$http_response_header` and the body. */
  datatype Response = Response(headers: seq<string>, body: seq<byte>)

  /** The outside world the loop talks to. `fetch` is `file_get_contents`
      of a page (the empty string when it fails); `download` is the fetch
      of an issue's file given the referring page; `slugify` is the
      slugging library. */
  datatype World = World(
    fetch: string -> string,
    download: (string, string) -> Response,
    slugify: string -> string)

  /** How one pass of the loop ends: an issue saved at `path`, no match for
      the wanted issue (the loop's final `break`), or a detail page with
      neither a download link nor reader images (the "bailing" `break`). */
  datatype Step = Saved(path: string) | NoMatch | Bail

  /** `$targetdir`: the directory a title's issues are saved in. */
  function TitleDir(cfg: Config, title: string): string {
    cfg.comicDirectory + "/" + title
  }

  /** `$config->comicDirectory . '/' . $title . '/'`: the prefix of every
      path saved for the title. */
  function IssueDir(cfg: Config, title: string): string {
    TitleDir(cfg, title) + "/"
  }

  /** Whether the detail page leads to a reader with images: it has a
      "Read Online" link, and the page that link names has at least one
      image. Without the link the script fetches `null`, which gives no
      page. */
  function HasGallery(world: World, issuePage: string): bool {
    match FindHref(issuePage, ReadOnline)
    case None => false
    case Some(reader) => |GalleryImages(world.fetch(reader))| > 0
  }

  /** What one pass for issue `wanted` may end in:
      - no match for the issue exactly when the corpus holds none;
      - a bail exactly when there is a match, its detail page has no truthy
        "Download Now" link, and it leads to no reader images;
      - with a truthy download link, the download saved under its resolved
        name in the title's directory;
      - without one but with reader images, the archive of those images. */
  predicate PassSpec(world: World, cfg: Config, title: string, slug: string, pages: string, wanted: nat, st: Step) {
    var found := FindTarget(pages, cfg.siteUrl, slug, wanted);
    && (st.NoMatch? <==> found.None?)
    && (found.Some? ==>
      var issuePage := world.fetch(found.value);
      var link := FindHref(issuePage, DownloadNow);
      var download := link.Some? && Truthy(link.value);
      && (st.Bail? <==> !download && !HasGallery(world, issuePage))
      && (download ==>
        var response := world.download(link.value, found.value);
        st == Saved(IssueDir(cfg, title) + ResolveFilename(response.headers, title, wanted, response.body)))
      && (!download && HasGallery(world, issuePage) ==>
        st == Saved(IssueDir(cfg, title) + GalleryName(title, wanted))))
  }

  /** The description leaves one outcome for each pass. */
  lemma PassSpecUnique(world: World, cfg: Config, title: string, slug: string, pages: string, wanted: nat, a: Step, b: Step)
    requires PassSpec(world, cfg, title, slug, pages, wanted, a)
    requires PassSpec(world, cfg, title, slug, pages, wanted, b)
    ensures a == b
  {
  }

  /** One pass of the loop for issue `wanted`. Without a match the loop
      ends. With one, a truthy "Download Now" link is downloaded and saved
      under the resolved file name; otherwise the "Read Online" page is
      read, and its images make an archive, or, if it has none, the loop
      bails. */
  function StepAt(world: World, cfg: Config, title: string, slug: string, pages: string, wanted: nat): (st: Step)
    ensures PassSpec(world, cfg, title, slug, pages, wanted, st)
    ensures st.Saved? ==> IssueDir(cfg, title) < st.path
  {
    match FindTarget(pages, cfg.siteUrl, slug, wanted)
    case None => NoMatch
    case Some(issueUrl) =>
      var issuePage := world.fetch(issueUrl);
      var link := FindHref(issuePage, DownloadNow);
      if link.Some? && Truthy(link.value) then
        var response := world.download(link.value, issueUrl);
        Saved(IssueDir(cfg, title) + ResolveFilename(response.headers, title, wanted, response.body))
      else if HasGallery(world, issuePage) then Saved(IssueDir(cfg, title) + GalleryName(title, wanted))
      else Bail
  }

  /** A detail page with neither a download link nor a reader link ends the
      loop, whatever the script's fetch of `null` would have returned. */
  lemma NoLinksBail(world: World, cfg: Config, title: string, slug: string, pages: string, wanted: nat)
    requires FindTarget(pages, cfg.siteUrl, slug, wanted).Some?
    requires var issuePage := world.fetch(FindTarget(pages, cfg.siteUrl, slug, wanted).value);
      FindHref(issuePage, DownloadNow).None? && FindHref(issuePage, ReadOnline).None?
    ensures StepAt(world, cfg, title, slug, pages, wanted) == Bail
  {
  }

  /** The end state of the loop: the paths saved, the issue wanted when it
      stopped, and how the last pass ended. */
  datatype Outcome = Outcome(saved: seq<string>, next: nat, stop: Step)

  /** A pass that saves an issue needs a match, and a match needs the digits
      of the wanted issue inside the corpus: so the issues a corpus can
      yield are bounded. */
  lemma SavedBounded(world: World, cfg: Config, title: string, slug: string, pages: string, wanted: nat)
    requires StepAt(world, cfg, title, slug, pages, wanted).Saved?
    ensures wanted < Pow10(|pages|)
  {
    LengthBound(wanted, |pages|);
  }

  /** Whether no pass from `bound` on saves anything. */
  ghost predicate Bounded(step: nat -> Step, bound: nat) {
    forall w: nat :: step(w).Saved? ==> w < bound
  }

  /** Whether `step` gives, for every issue, the pass of one title's loop. */
  ghost predicate PassesOf(step: nat -> Step, world: World, cfg: Config, title: string, slug: string, pages: string) {
    forall w: nat {:trigger StepAt(world, cfg, title, slug, pages, w)} :: step(w) == StepAt(world, cfg, title, slug, pages, w)
  }

  /** Every pass of one title's loop, by the issue it wants. */
  function Passes(world: World, cfg: Config, title: string, slug: string, pages: string): (step: nat -> Step)
    ensures PassesOf(step, world, cfg, title, slug, pages)
    ensures Bounded(step, Pow10(|pages|))
  {
    var step := (w: nat) => StepAt(world, cfg, title, slug, pages, w);
    forall w: nat | step(w).Saved?
      ensures w < Pow10(|pages|)
    {
      SavedBounded(world, cfg, title, slug, pages, w);
    }
    step
  }

  /** The loop from issue `wanted` on, for passes `step` that stop saving
      below `bound`. It saves issues `wanted`, `wanted + 1`, ... one per
      pass, and stops at the first issue whose pass does not save. */
  function LoopFrom(step: nat -> Step, bound: nat, wanted: nat): (o: Outcome)
    requires Bounded(step, bound)
    decreases bound - wanted
    ensures o.next == wanted + |o.saved|
  {
    var st := step(wanted);
    if st.Saved? then
      var rest := LoopFrom(step, bound, wanted + 1);
      Outcome([st.path] + rest.saved, rest.next, rest.stop)
    else
      Outcome([], wanted, st)
  }

  /** The loop saves what each of its passes saves, one pass per issue,
      and stops at the first pass that saves nothing. */
  lemma {:induction false} LoopTrace(step: nat -> Step, bound: nat, wanted: nat)
    requires Bounded(step, bound)
    decreases bound - wanted
    ensures var o := LoopFrom(step, bound, wanted);
      && !o.stop.Saved? && o.stop == step(o.next)
      && forall k :: 0 <= k < |o.saved| ==> step(wanted + k) == Saved(o.saved[k])
  {
    if step(wanted).Saved? {
      LoopTrace(step, bound, wanted + 1);
      var o := LoopFrom(step, bound, wanted);
      var rest := LoopFrom(step, bound, wanted + 1);
      forall k | 0 <= k < |o.saved|
        ensures step(wanted + k) == Saved(o.saved[k])
      {
        if k > 0 {
          assert o.saved[k] == rest.saved[k - 1];
        }
      }
    }
  }

  /** The loop of one title from issue `wanted` on. */
  function AcquireFrom(world: World, cfg: Config, title: string, slug: string, pages: string, wanted: nat): Outcome {
    LoopFrom(Passes(world, cfg, title, slug, pages), Pow10(|pages|), wanted)
  }

  /** What the loop of one title does: it saves the issues from `wanted`
      on, each at the path its pass saves it at, and stops at the first
      issue whose pass finds no match or has to bail. */
  lemma AcquireTrace(world: World, cfg: Config, title: string, slug: string, pages: string, wanted: nat)
    ensures var o := AcquireFrom(world, cfg, title, slug, pages, wanted);
      && o.next == wanted + |o.saved|
      && !o.stop.Saved? && o.stop == StepAt(world, cfg, title, slug, pages, o.next)
      && forall k :: 0 <= k < |o.saved| ==> StepAt(world, cfg, title, slug, pages, wanted + k) == Saved(o.saved[k])
  {
    var step := Passes(world, cfg, title, slug, pages);
    LoopTrace(step, Pow10(|pages|), wanted);
    var o := LoopFrom(step, Pow10(|pages|), wanted);
    assert forall k :: 0 <= k < |o.saved| ==> step(wanted + k) == Saved(o.saved[k]);
  }

  /** The acquisition loop of one title, from issue `start` on: what it
      saves and where it stops are those of `AcquireFrom`. */
  method AcquireTitle(world: World, cfg: Config, title: string, searchTerm: string, pages: string, start: nat)
    returns (saved: seq<string>, wanted: nat, stop: Step)
    ensures Outcome(saved, wanted, stop) == AcquireFrom(world, cfg, title, world.slugify(searchTerm), pages, start)
  {
    ghost var step := Passes(world, cfg, title, world.slugify(searchTerm), pages);
    saved, wanted, stop := AcquireLoop(world, cfg, title, searchTerm, pages, start, step, Pow10(|pages|));
  }

  /** The `while(true)` loop as the script writes it, for passes `step`
      that save nothing from `bound` on. */
  method AcquireLoop(world: World, cfg: Config, title: string, searchTerm: string, pages: string, start: nat,
                     ghost step: nat -> Step, ghost bound: nat)
    returns (saved: seq<string>, wanted: nat, stop: Step)
    requires PassesOf(step, world, cfg, title, world.slugify(searchTerm), pages)
    requires Bounded(step, bound)
    ensures Outcome(saved, wanted, stop) == LoopFrom(step, bound, start)
  {
    ghost var whole := LoopFrom(step, bound, start);
    saved := [];
    wanted := start;
    stop := NoMatch;
    while true
      invariant Continues(whole, saved, LoopFrom(step, bound, wanted))
      decreases bound - wanted
    {
      var st := TakePass(world, cfg, title, searchTerm, pages, wanted, step);
      if !st.Saved? {
        stop := st;
        Halt(step, bound, wanted);
        break;
      }
      Advance(step, bound, wanted, whole, saved, st.path);
      saved := saved + [st.path];
      wanted := wanted + 1;
    }
  }

  /** One pass of the loop is the pass `step` gives for the issue. */
  method TakePass(world: World, cfg: Config, title: string, searchTerm: string, pages: string, wanted: nat,
                  ghost step: nat -> Step)
    returns (st: Step)
    requires PassesOf(step, world, cfg, title, world.slugify(searchTerm), pages)
    ensures st == step(wanted)
  {
    st := VisitIssue(world, cfg, title, searchTerm, pages, wanted);
    PassSpecUnique(world, cfg, title, world.slugify(searchTerm), pages, wanted, st, StepAt(world, cfg, title, world.slugify(searchTerm), pages, wanted));
  }

  /** `whole` is what is saved so far followed by the outcome of the rest. */
  predicate Continues(whole: Outcome, saved: seq<string>, rest: Outcome) {
    whole == Outcome(saved + rest.saved, rest.next, rest.stop)
  }

  /** The body of the `while(true)` loop for issue `wanted`, as the script
      writes it, with its early exits. A missing "Read Online" link makes
      `file_get_contents(null)` fail, and the pass bails. */
  method VisitIssue(world: World, cfg: Config, title: string, searchTerm: string, pages: string, wanted: nat)
    returns (st: Step)
    ensures PassSpec(world, cfg, title, world.slugify(searchTerm), pages, wanted, st)
  {
    var titleSlug := world.slugify(searchTerm);
    var found := FindTarget(pages, cfg.siteUrl, titleSlug, wanted);
    if found.None? {
      return NoMatch;
    }
    var issueUrl := found.value;
    var issuePage := world.fetch(issueUrl);
    var issueLink := FindHref(issuePage, DownloadNow);
    if !(issueLink.Some? && Truthy(issueLink.value)) {
      var readOnline := FindHref(issuePage, ReadOnline);
      if readOnline.None? {
        return Bail;
      }
      var readOnlinePage := world.fetch(readOnline.value);
      var images := GalleryImages(readOnlinePage);
      if |images| > 0 {
        return Saved(IssueDir(cfg, title) + GalleryName(title, wanted));
      }
      return Bail;
    }
    var response := world.download(issueLink.value, issueUrl);
    var filename := ResolveFilename(response.headers, title, wanted, response.body);
    return Saved(IssueDir(cfg, title) + filename);
  }

  /** A pass that saves `path` moves the loop on by one issue, and the
      saved paths so far by `path`. */
  lemma Advance(step: nat -> Step, bound: nat, wanted: nat, whole: Outcome, saved: seq<string>, path: string)
    requires Bounded(step, bound)
    requires step(wanted) == Saved(path)
    requires Continues(whole, saved, LoopFrom(step, bound, wanted))
    ensures wanted < bound
    ensures Continues(whole, saved + [path], LoopFrom(step, bound, wanted + 1))
  {
    var rest := LoopFrom(step, bound, wanted + 1).saved;
    assert saved + ([path] + rest) == (saved + [path]) + rest;
  }

  /** A pass that does not save ends the loop where it is. */
  lemma Halt(step: nat -> Step, bound: nat, wanted: nat)
    requires Bounded(step, bound)
    requires !step(wanted).Saved?
    ensures LoopFrom(step, bound, wanted) == Outcome([], wanted, step(wanted))
  {
  }

  /** Every issue the loop of a title saves lies in that title's directory. */
  lemma SavedInTitleDir(world: World, cfg: Config, title: string, slug: string, pages: string, wanted: nat)
    ensures forall p :: p in AcquireFrom(world, cfg, title, slug, pages, wanted).saved ==> IssueDir(cfg, title) < p
  {
    AcquireTrace(world, cfg, title, slug, pages, wanted);
    var o := AcquireFrom(world, cfg, title, slug, pages, wanted);
    forall p | p in o.saved
      ensures IssueDir(cfg, title) < p
    {
      var k :| 0 <= k < |o.saved| && o.saved[k] == p;
      assert StepAt(world, cfg, title, slug, pages, wanted + k) == Saved(p);
    }
  }

  /** A corpus with no match for the wanted issue saves nothing. */
  lemma NothingFound(world: World, cfg: Config, title: string, slug: string, pages: string, wanted: nat)
    requires FindTarget(pages, cfg.siteUrl, slug, wanted).None?
    ensures AcquireFrom(world, cfg, title, slug, pages, wanted) == Outcome([], wanted, NoMatch)
  {
  }

  /** An issue saved under the composed name counts as owned on the next
      run, so the next run wants a later issue. */
  lemma OwnedAfterSave(files: seq<string>, title: string, wanted: nat, data: seq<byte>)
    requires '/' !in title
    ensures WantedIssue(files + [FallbackName(title, wanted, data)], title) > wanted
  {
    FallbackOwned(title, wanted, data);
    AddOwned(files, FallbackName(title, wanted, data), title, wanted);
  }

  /** So does an issue saved as an archive of reader pages. */
  lemma OwnedAfterGallery(files: seq<string>, title: string, wanted: nat)
    requires '/' !in title
    ensures WantedIssue(files + [GalleryName(title, wanted)], title) > wanted
  {
    GalleryOwned(title, wanted);
    AddOwned(files, GalleryName(title, wanted), title, wanted);
  }
}
