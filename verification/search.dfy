/** The search phase for one title (comicScrape.php:131-158): up to a page
    cap, the catalog's search result pages for the search term are fetched
    and concatenated into one corpus; for series already started the
    fetching stops as soon as the corpus holds the wanted issue. */
module Search {
  import opened Text
  import opened Numbers
  import opened UrlCodec
  import opened Target

  /** The settings the script reads from its JSON configuration file. */
  datatype Config = Config(
    titlesFile: string,
    comicDirectory: string,
    siteUrl: string,
    queryFormat: string,
    maxPageDepth: int,
    onlyFirstPageForExistingSeries: bool)

  /** `$maxpages`: the configured depth, cut to one page for a series of
      which something is owned already when the configuration asks so. */
  function PageCap(cfg: Config, wanted: nat): (cap: int)
    ensures cfg.onlyFirstPageForExistingSeries && wanted != 1 ==> cap == 1
    ensures !(cfg.onlyFirstPageForExistingSeries && wanted != 1) ==> cap == cfg.maxPageDepth
  {
    if cfg.onlyFirstPageForExistingSeries && wanted != 1 then 1 else cfg.maxPageDepth
  }

  /** The number of pages a cap lets the loop `for ($i=1; $i <= $cap; $i++)` fetch. */
  function Pages(cap: int): nat {
    if cap < 0 then 0 else cap
  }

  /** `$searchurl` for page `i`. */
  function SearchUrl(cfg: Config, i: nat, term: string): string {
    cfg.siteUrl + "/page/" + IntToString(i) + "/" + cfg.queryFormat + UrlEncode(term)
  }

  /** The first `n` result pages, concatenated in order. A page that cannot
      be fetched contributes the empty string (`@file_get_contents` gives
      `false`, which concatenates as ""). */
  function Corpus(fetch: string -> string, cfg: Config, term: string, n: nat): string {
    if n == 0 then "" else Corpus(fetch, cfg, term, n - 1) + fetch(SearchUrl(cfg, n, term))
  }

  /** Different pages are fetched from different URLs: the page number is
      the only part of the URL that varies. */
  lemma SearchUrlDistinct(cfg: Config, i: nat, j: nat, term: string)
    requires i != j
    ensures SearchUrl(cfg, i, term) != SearchUrl(cfg, j, term)
  {
    var front := cfg.siteUrl + "/page/";
    var back := "/" + cfg.queryFormat + UrlEncode(term);
    var a := IntToString(i);
    var b := IntToString(j);
    assert SearchUrl(cfg, i, term) == front + a + back;
    assert SearchUrl(cfg, j, term) == front + b + back;
    if front + a + back == front + b + back {
      assert |a| == |b|;
      assert a == (front + a + back)[|front|..|front| + |a|];
      assert b == (front + b + back)[|front|..|front| + |b|];
      IntToStringInjective(i, j);
    }
  }

  /** Page `i` of the first `n` sits in the corpus, whole, right after the
      pages before it. */
  lemma PageInCorpus(fetch: string -> string, cfg: Config, term: string, n: nat, i: nat)
    requires 1 <= i <= n
    ensures var lo := |Corpus(fetch, cfg, term, i - 1)|;
      var hi := |Corpus(fetch, cfg, term, i)|;
      && lo <= hi <= |Corpus(fetch, cfg, term, n)|
      && Corpus(fetch, cfg, term, n)[lo..hi] == fetch(SearchUrl(cfg, i, term))
  {
    CorpusGrows(fetch, cfg, term, i, n);
    var lo := |Corpus(fetch, cfg, term, i - 1)|;
    var hi := |Corpus(fetch, cfg, term, i)|;
    assert Corpus(fetch, cfg, term, n)[lo..hi] == Corpus(fetch, cfg, term, i)[lo..hi];
  }

  /** The corpus of fewer pages is a prefix of the corpus of more. */
  lemma {:induction false} CorpusGrows(fetch: string -> string, cfg: Config, term: string, m: nat, n: nat)
    requires m <= n
    ensures Corpus(fetch, cfg, term, m) <= Corpus(fetch, cfg, term, n)
    decreases n - m
  {
    if m < n {
      CorpusGrows(fetch, cfg, term, m, n - 1);
    }
  }

  /** The early-stop test: the corpus holds a match for the wanted issue. */
  predicate Caught(corpus: string, cfg: Config, slug: string, wanted: nat) {
    FindTarget(corpus, cfg.siteUrl, slug, wanted).Some?
  }

  /** The search loop. It fetches pages 1, 2, ... in order up to the cap;
      with the early stop switched on it stops after the first page that
      completes a match for `wanted`, and only then. */
  method GatherPages(cfg: Config, term: string, wanted: nat, fetch: string -> string, slugify: string -> string)
    returns (pages: string, fetched: nat)
    ensures pages == Corpus(fetch, cfg, term, fetched)
    ensures StopRule(cfg, term, wanted, fetch, slugify(term), fetched)
    ensures cfg.onlyFirstPageForExistingSeries && wanted != 1 ==> fetched <= 1
  {
    var maxpages := cfg.maxPageDepth;
    if cfg.onlyFirstPageForExistingSeries && wanted != 1 {
      maxpages := 1;
    }
    pages := "";
    fetched := 0;
    var i := 1;
    while i <= maxpages
      invariant maxpages == PageCap(cfg, wanted)
      invariant 1 <= i <= Pages(maxpages) + 1
      invariant fetched == i - 1
      invariant pages == Corpus(fetch, cfg, term, fetched)
      invariant cfg.onlyFirstPageForExistingSeries ==>
        forall n :: 1 <= n <= fetched ==> !Caught(Corpus(fetch, cfg, term, n), cfg, slugify(term), wanted)
    {
      pages := pages + fetch(SearchUrl(cfg, i, term));
      fetched := i;
      if cfg.onlyFirstPageForExistingSeries {
        var titleSlug := slugify(term);
        if FindTarget(pages, cfg.siteUrl, titleSlug, wanted).Some? {
          break;
        }
      }
      i := i + 1;
    }
  }

  /** When the search loop may stop after `fetched` pages: never beyond the
      cap; before the cap only with the early stop on, at least one page
      fetched and a match in the corpus; with the early stop on, no earlier
      corpus held a match; with it off, every page up to the cap. */
  predicate StopRule(cfg: Config, term: string, wanted: nat, fetch: string -> string, slug: string, fetched: nat) {
    var cap := Pages(PageCap(cfg, wanted));
    && fetched <= cap
    && (fetched < cap ==>
      cfg.onlyFirstPageForExistingSeries && fetched > 0 && Caught(Corpus(fetch, cfg, term, fetched), cfg, slug, wanted))
    && (cfg.onlyFirstPageForExistingSeries ==>
      forall n :: 1 <= n < fetched ==> !Caught(Corpus(fetch, cfg, term, n), cfg, slug, wanted))
    && (!cfg.onlyFirstPageForExistingSeries ==> fetched == Pages(cfg.maxPageDepth))
  }

  /** The first page from `i` on, up to `cap`, whose corpus holds a match,
      or `cap` when none does. */
  function StopPage(fetch: string -> string, cfg: Config, term: string, slug: string, wanted: nat, i: nat, cap: nat): (r: nat)
    requires 1 <= i <= cap
    ensures i <= r <= cap
    ensures r < cap ==> Caught(Corpus(fetch, cfg, term, r), cfg, slug, wanted)
    ensures forall n :: i <= n < r ==> !Caught(Corpus(fetch, cfg, term, n), cfg, slug, wanted)
    decreases cap - i
  {
    if i == cap then cap
    else if Caught(Corpus(fetch, cfg, term, i), cfg, slug, wanted) then i
    else StopPage(fetch, cfg, term, slug, wanted, i + 1, cap)
  }

  /** The number of pages the search for `term` fetches. */
  function PagesFetched(cfg: Config, term: string, wanted: nat, fetch: string -> string, slug: string): (n: nat)
    ensures StopRule(cfg, term, wanted, fetch, slug, n)
  {
    var cap := Pages(PageCap(cfg, wanted));
    if !cfg.onlyFirstPageForExistingSeries || cap == 0 then cap
    else StopPage(fetch, cfg, term, slug, wanted, 1, cap)
  }

  /** The stopping rule fixes the number of pages: any count it admits is
      the one `PagesFetched` gives. */
  lemma StopRuleUnique(cfg: Config, term: string, wanted: nat, fetch: string -> string, slug: string, fetched: nat)
    requires StopRule(cfg, term, wanted, fetch, slug, fetched)
    ensures fetched == PagesFetched(cfg, term, wanted, fetch, slug)
  {
  }

  /** Stopping early loses nothing: whenever the stop fires, a search that
      went on to any further page would still hold the match. */
  lemma EarlyStopSound(fetch: string -> string, cfg: Config, term: string, slug: string, wanted: nat, m: nat, n: nat)
    requires m <= n
    requires Caught(Corpus(fetch, cfg, term, m), cfg, slug, wanted)
    ensures Caught(Corpus(fetch, cfg, term, n), cfg, slug, wanted)
  {
    CorpusGrows(fetch, cfg, term, m, n);
    FoundInLonger(Corpus(fetch, cfg, term, m), Corpus(fetch, cfg, term, n), cfg.siteUrl, slug, wanted);
  }
}
