/** A whole run (comicScrape.php:91-130, 264-267): every line of the titles
    file is parsed, the directory of its title is scanned for the issues
    owned, the search pages are gathered and the acquisition loop is run;
    at the end a summary lists every issue saved. */
module Run {
  import opened Text
  import opened Numbers
  import opened Titles
  import opened Library
  import opened Search
  import opened Acquire

  /** What the line `line` of the titles file saves: the line is parsed,
      the first wanted issue is one past the largest owned in its title's
      directory, the search fetches as many pages as its stopping rule
      admits, and the acquisition loop runs on them. */
  function LineSaves(world: World, cfg: Config, line: string, listDir: string -> seq<string>): seq<string> {
    var entry := ParseTitleLine(line);
    var first := WantedIssue(listDir(TitleDir(cfg, entry.title)), entry.title);
    var slug := world.slugify(entry.searchTerm);
    var pages := Corpus(world.fetch, cfg, entry.searchTerm, PagesFetched(cfg, entry.searchTerm, first, world.fetch, slug));
    AcquireFrom(world, cfg, entry.title, slug, pages, first).saved
  }

  /** One title of the run. The owned issues are read from `listDir` (the
      `scandir` of the title's directory); the pages searched and the
      issues saved are those of the search phase and the acquisition loop. */
  method ProcessTitle(world: World, cfg: Config, line: string, listDir: string -> seq<string>)
    returns (entry: TitleEntry, first: nat, pages: string, fetched: nat, saved: seq<string>, stop: Step)
    ensures entry == ParseTitleLine(line)
    ensures first >= 1 && IsOwnedMax(listDir(TitleDir(cfg, entry.title)), Capture(entry.title), first - 1)
    ensures pages == Corpus(world.fetch, cfg, entry.searchTerm, fetched)
    ensures StopRule(cfg, entry.searchTerm, first, world.fetch, world.slugify(entry.searchTerm), fetched)
    ensures Outcome(saved, first + |saved|, stop) == AcquireFrom(world, cfg, entry.title, world.slugify(entry.searchTerm), pages, first)
    ensures saved == LineSaves(world, cfg, line, listDir)
    ensures forall p :: p in saved ==> IssueDir(cfg, entry.title) < p
  {
    entry := ParseTitleLine(line);
    var files := listDir(TitleDir(cfg, entry.title));
    first := WantedIssue(files, entry.title);
    pages, fetched := GatherPages(cfg, entry.searchTerm, first, world.fetch, world.slugify);
    var next;
    saved, next, stop := AcquireTitle(world, cfg, entry.title, entry.searchTerm, pages, first);
    StopRuleUnique(cfg, entry.searchTerm, first, world.fetch, world.slugify(entry.searchTerm), fetched);
    SavedInTitleDir(world, cfg, entry.title, world.slugify(entry.searchTerm), pages, first);
  }

  /** The list of saved issues the summary ends with, one per line. */
  function Listing(paths: seq<string>): string {
    if |paths| == 0 then "" else " " + paths[0] + "\n" + Listing(paths[1..])
  }

  /** The first line of the summary. */
  function Header(configFile: string): string {
    "Run Complete for config " + configFile + ". "
  }

  /** What follows the count on the summary's second line. */
  const Downloaded: string := " downloaded issues."

  /** The summary's second line: how many issues were saved. */
  function CountLine(n: nat): string {
    IntToString(n) + Downloaded
  }

  /** The report printed (and mailed) at the end of a run. */
  function Summary(configFile: string, saved: seq<string>): string {
    Header(configFile) + "\n" + CountLine(|saved|) + "\n" + Listing(saved)
  }

  /** The run over every line of the titles file, in order. `saved` is the
      concatenation of what each title saved, and every path in it lies in
      the directory of the title on whose line it was saved. */
  method RunTitles(world: World, cfg: Config, configFile: string, lines: seq<string>, listDir: string -> seq<string>)
    returns (perTitle: seq<seq<string>>, saved: seq<string>, summary: string)
    ensures |perTitle| == |lines|
    ensures saved == Flatten(perTitle)
    ensures forall j :: 0 <= j < |lines| ==> perTitle[j] == LineSaves(world, cfg, lines[j], listDir)
    ensures AllUnder(TitleDirs(cfg, lines), perTitle)
    ensures '\n' !in configFile && NoLineBreaks(saved) ==>
      Split(summary, "\n") == [Header(configFile), CountLine(|saved|)] + Indented(saved) + [""]
  {
    perTitle := [];
    saved := [];
    for j := 0 to |lines|
      invariant |perTitle| == j
      invariant saved == Flatten(perTitle)
      invariant EachLineSaves(world, cfg, lines, listDir, perTitle)
      invariant AllUnder(TitleDirs(cfg, lines), perTitle)
    {
      var entry, first, pages, fetched, got, stop := ProcessTitle(world, cfg, lines[j], listDir);
      FlattenAppend(perTitle, got);
      AllUnderAppend(TitleDirs(cfg, lines), perTitle, got);
      EachAppend(world, cfg, lines, listDir, perTitle, got);
      perTitle := perTitle + [got];
      saved := saved + got;
    }
    summary := Summary(configFile, saved);
    if '\n' !in configFile && NoLineBreaks(saved) {
      SummaryLines(configFile, saved);
    }
  }

  /** The `k`-th list is what the `k`-th line saves, for every list so far. */
  ghost predicate EachLineSaves(world: World, cfg: Config, lines: seq<string>, listDir: string -> seq<string>, perTitle: seq<seq<string>>) {
    |perTitle| <= |lines| &&
    forall k :: 0 <= k < |perTitle| ==> perTitle[k] == LineSaves(world, cfg, lines[k], listDir)
  }

  lemma EachAppend(world: World, cfg: Config, lines: seq<string>, listDir: string -> seq<string>, perTitle: seq<seq<string>>, got: seq<string>)
    requires EachLineSaves(world, cfg, lines, listDir, perTitle) && |perTitle| < |lines|
    requires got == LineSaves(world, cfg, lines[|perTitle|], listDir)
    ensures EachLineSaves(world, cfg, lines, listDir, perTitle + [got])
  {
    var next := perTitle + [got];
    forall k | 0 <= k < |next|
      ensures next[k] == LineSaves(world, cfg, lines[k], listDir)
    {
      if k < |perTitle| {
        assert next[k] == perTitle[k];
      }
    }
  }

  /** The directory of the title on each line. */
  function TitleDirs(cfg: Config, lines: seq<string>): (dirs: seq<string>)
    ensures |dirs| == |lines|
    ensures forall i :: 0 <= i < |lines| ==> dirs[i] == IssueDir(cfg, ParseTitleLine(lines[i]).title)
  {
    if |lines| == 0 then [] else TitleDirs(cfg, lines[..|lines| - 1]) + [IssueDir(cfg, ParseTitleLine(lines[|lines| - 1]).title)]
  }

  /** Every path of the `i`-th list lies under the `i`-th directory. */
  ghost predicate AllUnder(dirs: seq<string>, perTitle: seq<seq<string>>) {
    |perTitle| <= |dirs| &&
    forall i, p :: 0 <= i < |perTitle| && p in perTitle[i] ==> dirs[i] < p
  }

  lemma AllUnderAppend(dirs: seq<string>, perTitle: seq<seq<string>>, got: seq<string>)
    requires AllUnder(dirs, perTitle) && |perTitle| < |dirs|
    requires forall p :: p in got ==> dirs[|perTitle|] < p
    ensures AllUnder(dirs, perTitle + [got])
  {
    var next := perTitle + [got];
    forall i, p | 0 <= i < |next| && p in next[i]
      ensures dirs[i] < p
    {
      if i < |perTitle| {
        assert next[i] == perTitle[i];
      }
    }
  }

  /** The lists of a sequence of lists, one after another. */
  function Flatten(xs: seq<seq<string>>): seq<string> {
    if |xs| == 0 then [] else Flatten(xs[..|xs| - 1]) + xs[|xs| - 1]
  }

  lemma FlattenAppend(xs: seq<seq<string>>, x: seq<string>)
    ensures Flatten(xs + [x]) == Flatten(xs) + x
  {
    assert (xs + [x])[..|xs|] == xs;
  }

  predicate NoLineBreaks(paths: seq<string>) {
    forall i :: 0 <= i < |paths| ==> '\n' !in paths[i]
  }

  /** The summary's lines for the saved issues: each path after a space. */
  function Indented(paths: seq<string>): (r: seq<string>)
    ensures |r| == |paths|
    ensures forall i :: 0 <= i < |paths| ==> r[i] == " " + paths[i]
  {
    if |paths| == 0 then [] else [" " + paths[0]] + Indented(paths[1..])
  }

  /** Read line by line, the listing gives back each path, in order. */
  lemma {:induction false} ListingLines(paths: seq<string>)
    requires NoLineBreaks(paths)
    ensures Split(Listing(paths), "\n") == Indented(paths) + [""]
  {
    if |paths| == 0 {
      SplitNone("", '\n');
    } else {
      var head := " " + paths[0];
      var tail := Listing(paths[1..]);
      NoBreakAfterSpace(paths[0]);
      ListingStep(paths);
      SplitAtFirst(head, '\n', tail);
      ListingLines(paths[1..]);
      var lines := Split(tail, "\n");
      assert Split(Listing(paths), "\n") == [head] + lines;
      Regroup(head, Indented(paths[1..]), "");
    }
  }

  lemma Regroup<T>(h: T, xs: seq<T>, y: T)
    ensures [h] + (xs + [y]) == ([h] + xs) + [y]
  {
  }

  lemma ListingStep(paths: seq<string>)
    requires |paths| > 0
    ensures Listing(paths) == (" " + paths[0]) + ['\n'] + Listing(paths[1..])
  {
  }

  lemma NoBreakAfterSpace(p: string)
    requires '\n' !in p
    ensures '\n' !in " " + p
  {
    assert forall k :: 0 < k < |" " + p| ==> (" " + p)[k] == p[k - 1];
  }

  /** Read line by line, the summary gives the run's header, the count of
      issues saved and then each issue saved, in order. */
  lemma SummaryLines(configFile: string, saved: seq<string>)
    requires '\n' !in configFile && NoLineBreaks(saved)
    ensures Split(Summary(configFile, saved), "\n") ==
      [Header(configFile), CountLine(|saved|)] + Indented(saved) + [""]
  {
    var a, b, rest := Header(configFile), CountLine(|saved|), Listing(saved);
    HeaderOneLine(configFile);
    CountOneLine(|saved|);
    TwoLines(a, b, rest, '\n');
    ListingLines(saved);
    Associate([a, b], Indented(saved), [""]);
  }

  lemma Associate<T>(xs: seq<T>, ys: seq<T>, zs: seq<T>)
    ensures xs + (ys + zs) == xs + ys + zs
  {
  }

  /** Two lines and the rest of a text, read line by line. */
  lemma TwoLines(a: string, b: string, rest: string, c: char)
    requires c !in a && c !in b
    ensures Split(a + [c] + b + [c] + rest, [c]) == [a, b] + Split(rest, [c])
  {
    Associate(a + [c], b + [c], rest);
    Associate(a + [c], b, [c]);
    SplitAtFirst(a, c, b + [c] + rest);
    SplitAtFirst(b, c, rest);
  }

  lemma HeaderOneLine(configFile: string)
    requires '\n' !in configFile
    ensures '\n' !in Header(configFile)
  {
  }

  lemma CountOneLine(n: nat)
    ensures '\n' !in CountLine(n)
  {
    var d := IntToString(n);
    assert forall k :: 0 <= k < |d| ==> IsDigit(d[k]);
    assert forall k :: |d| <= k < |CountLine(n)| ==> CountLine(n)[k] == Downloaded[k - |d|];
  }

  /** The count on the summary's second line reads back as the number of
      issues saved: the digits before " downloaded issues." parse to it. */
  lemma CountReadsBack(n: nat)
    ensures |CountLine(n)| > |Downloaded|
    ensures AllDigits(CountLine(n)[..|CountLine(n)| - |Downloaded|])
    ensures ParseDecimal(CountLine(n)[..|CountLine(n)| - |Downloaded|]) == n
  {
    var d := IntToString(n);
    assert CountLine(n)[..|d|] == d;
    ParseIntToString(n);
  }
}
