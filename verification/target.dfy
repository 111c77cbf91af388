/** `create_target_url` and what `preg_match("/$targeturl/", $pages)` does
    with its result (comicScrape.php:154, 173-176, 290-296): the pattern for
    the URL of issue `wanted` of a series, whose slashes are escaped so that
    the pattern can sit between `/` delimiters. */
module Target {
  import opened Wrappers
  import opened Text
  import opened Numbers

  /** The pattern before its slashes are escaped:
      `<siteUrl>/[^/]+/<slug>-<wanted>-\d{4}`. */
  function TargetPattern(siteUrl: string, slug: string, wanted: nat): string {
    siteUrl + "/[^/]+/" + slug + "-" + IntToString(wanted) + "-\\d{4}"
  }

  /** `str_replace('/', '\/', s)`. Every slash of the result comes right
      after a backslash, and the result never starts with a slash. */
  function EscapeSlashes(s: string): (r: string)
    decreases |s|
    ensures |r| >= |s|
    ensures |r| > 0 ==> r[0] != '/'
    ensures forall i :: 0 <= i < |r| && r[i] == '/' ==> i > 0 && r[i - 1] == '\\'
  {
    if |s| == 0 then ""
    else if s[0] == '/' then "\\/" + EscapeSlashes(s[1..])
    else [s[0]] + EscapeSlashes(s[1..])
  }

  /** The inverse reading: `\/` stands for `/`, everything else for itself. */
  function UnescapeSlashes(r: string): string
    decreases |r|
  {
    if |r| == 0 then ""
    else if |r| >= 2 && r[0] == '\\' && r[1] == '/' then "/" + UnescapeSlashes(r[2..])
    else [r[0]] + UnescapeSlashes(r[1..])
  }

  /** Escaping loses nothing: reading `\/` back as `/` gives the original. */
  lemma {:induction false} UnescapeEscape(s: string)
    ensures UnescapeSlashes(EscapeSlashes(s)) == s
    decreases |s|
  {
    if |s| > 0 {
      var r := EscapeSlashes(s);
      var rest := EscapeSlashes(s[1..]);
      UnescapeEscape(s[1..]);
      if s[0] == '/' {
        assert r[2..] == rest;
      } else {
        assert r[1..] == rest;
        assert s == [s[0]] + s[1..];
      }
    }
  }

  /** Where PHP's delimiter scan stops in `s`, the text after an opening
      delimiter: a backslash skips the character after it, and the first
      slash reached ends the pattern. `None` when no slash ends it. */
  function DelimiterIndex(s: string): (r: Option<nat>)
    decreases |s|
    ensures r.Some? ==> r.value < |s| && s[r.value] == '/'
  {
    if |s| == 0 then None
    else if s[0] == '\\' && |s| >= 2 then
      match DelimiterIndex(s[2..])
      case None => None
      case Some(j) => Some(j + 2)
    else if s[0] == '/' then Some(0)
    else
      match DelimiterIndex(s[1..])
      case None => None
      case Some(j) => Some(j + 1)
  }

  /** `"/" + p + "/"` is a well-formed PCRE pattern as far as its
      delimiters go: the scan ends at the closing slash, leaving no
      modifiers behind it. Otherwise `preg_match` fails and matches nothing. */
  predicate Delimited(p: string) {
    DelimiterIndex(p + "/") == Some(|p|)
  }

  /** Every backslash of `s` escapes a character that is neither a slash
      nor another backslash. */
  predicate BackslashesBenign(s: string) {
    forall i :: 0 <= i < |s| && s[i] == '\\' ==> i + 1 < |s| && s[i + 1] != '/' && s[i + 1] != '\\'
  }

  /** With benign backslashes, the escaped text is one well-delimited pattern. */
  lemma {:induction false} EscapedIsDelimited(s: string)
    requires BackslashesBenign(s)
    ensures Delimited(EscapeSlashes(s))
    decreases |s|
  {
    if |s| > 0 {
      if s[0] == '/' {
        EscapedIsDelimited(s[1..]);
        SkipEscaped('\\', '/', EscapeSlashes(s[1..]));
      } else if s[0] == '\\' {
        BenignAfterEscape(s);
        EscapedIsDelimited(s[2..]);
        EscapeTwo(s);
        SkipEscaped(s[0], s[1], EscapeSlashes(s[2..]));
      } else {
        EscapedIsDelimited(s[1..]);
        SkipPlain(s[0], EscapeSlashes(s[1..]));
      }
    }
  }

  /** The delimiter scan steps over a backslash and the character after it. */
  lemma SkipEscaped(b: char, c: char, rest: string)
    requires b == '\\' && Delimited(rest)
    ensures Delimited([b, c] + rest)
  {
    assert ([b, c] + rest + "/")[2..] == rest + "/";
  }

  /** The delimiter scan steps over a character that is neither a slash nor
      a backslash. */
  lemma SkipPlain(c: char, rest: string)
    requires c != '\\' && c != '/' && Delimited(rest)
    ensures Delimited([c] + rest)
  {
    assert ([c] + rest + "/")[1..] == rest + "/";
  }

  /** What follows a benign backslash and the character it escapes is benign. */
  lemma BenignAfterEscape(s: string)
    requires BackslashesBenign(s) && |s| > 0 && s[0] == '\\'
    ensures |s| >= 2 && BackslashesBenign(s[2..])
  {
    forall i | 0 <= i < |s[2..]| && s[2..][i] == '\\'
      ensures i + 1 < |s[2..]| && s[2..][i + 1] != '/' && s[2..][i + 1] != '\\'
    {
      assert s[i + 2] == '\\';
    }
  }

  /** Escaping keeps two leading characters that are not slashes. */
  lemma EscapeTwo(s: string)
    requires |s| >= 2 && s[0] != '/' && s[1] != '/'
    ensures EscapeSlashes(s) == [s[0], s[1]] + EscapeSlashes(s[2..])
  {
    assert s[1..][0] == s[1] && s[1..][1..] == s[2..];
  }

  /** Benign backslashes stay benign when two texts are joined. */
  lemma BenignAppend(a: string, b: string)
    requires BackslashesBenign(a) && BackslashesBenign(b)
    ensures BackslashesBenign(a + b)
  {
    var s := a + b;
    forall i | 0 <= i < |s| && s[i] == '\\'
      ensures i + 1 < |s| && s[i + 1] != '/' && s[i + 1] != '\\'
    {
      if i < |a| {
        assert a[i] == '\\';
      } else {
        assert b[i - |a|] == '\\';
      }
    }
  }

  /** The target pattern has benign backslashes when the site URL and the
      slug have none: its only backslash is the one of `\d`. */
  lemma PatternBenign(siteUrl: string, slug: string, wanted: nat)
    requires '\\' !in siteUrl && '\\' !in slug
    ensures BackslashesBenign(TargetPattern(siteUrl, slug, wanted))
  {
    var tail := "-\\d{4}";
    assert tail == ['-', '\\', 'd', '{', '4', '}'];
    var digits := IntToString(wanted);
    assert '\\' !in digits by {
      forall k | 0 <= k < |digits| ensures digits[k] != '\\' {
        assert IsDigit(digits[k]);
      }
    }
    BenignAppend(siteUrl, "/[^/]+/");
    BenignAppend(siteUrl + "/[^/]+/", slug);
    BenignAppend(siteUrl + "/[^/]+/" + slug, "-");
    BenignAppend(siteUrl + "/[^/]+/" + slug + "-", digits);
    BenignAppend(siteUrl + "/[^/]+/" + slug + "-" + digits, tail);
  }

  /** `create_target_url($titleSlug, $wanted, $config)`. Read back with `\/`
      as `/` it is the target pattern; every slash in it is escaped; and
      when neither the site URL nor the slug holds a backslash it is a
      well-delimited pattern. */
  function CreateTargetUrl(titleSlug: string, wanted: nat, siteUrl: string): (r: string)
    ensures UnescapeSlashes(r) == TargetPattern(siteUrl, titleSlug, wanted)
    ensures forall i :: 0 <= i < |r| && r[i] == '/' ==> i > 0 && r[i - 1] == '\\'
    ensures '\\' !in siteUrl && '\\' !in titleSlug ==> Delimited(r)
  {
    var p := TargetPattern(siteUrl, titleSlug, wanted);
    UnescapeEscape(p);
    PatternDelimited(siteUrl, titleSlug, wanted);
    EscapeSlashes(p)
  }

  /** The escaped target pattern is well delimited unless the site URL or
      the slug brings a backslash of its own. */
  lemma PatternDelimited(siteUrl: string, slug: string, wanted: nat)
    ensures '\\' !in siteUrl && '\\' !in slug ==> Delimited(EscapeSlashes(TargetPattern(siteUrl, slug, wanted)))
  {
    if '\\' !in siteUrl && '\\' !in slug {
      PatternBenign(siteUrl, slug, wanted);
      EscapedIsDelimited(TargetPattern(siteUrl, slug, wanted));
    }
  }

  /** The literal middle of the pattern: `<slug>-<wanted>-`. */
  function IssueText(slug: string, wanted: nat): (t: string)
    ensures |t| == |slug| + |IntToString(wanted)| + 2
  {
    slug + "-" + IntToString(wanted) + "-"
  }

  /** `\d{4}` at `c`: four digits. */
  predicate YearAt(s: string, c: nat) {
    c + 4 <= |s| && AllDigits(s[c..c + 4])
  }

  /** Where a match of the target pattern starting at `p` ends. The match
      is unique when it exists: the site URL and the issue text are fixed
      length; `[^/]+` must take the whole run of non-slashes, since only a
      slash may follow it; and `\d{4}` takes exactly four digits. */
  function TargetEndAt(s: string, p: nat, siteUrl: string, issueText: string): (e: Option<nat>)
    ensures e.Some? ==> p + |siteUrl| + 3 + |issueText| + 4 <= e.value <= |s|
    ensures e.Some? ==> LiteralAt(s, p, siteUrl, false) && AllDigits(s[e.value - 4..e.value])
  {
    if !LiteralAt(s, p, siteUrl, false) then None
    else
      var a := p + |siteUrl|;
      if a >= |s| || s[a] != '/' then None
      else
        var k := SpanEnd(s, a + 1, NotSlash);
        if k == a + 1 || k == |s| then None
        else
          var c := k + 1 + |issueText|;
          if !LiteralAt(s, k + 1, issueText, false) || !YearAt(s, c) then None
          else Some(c + 4)
  }

  /** The URL the site gives issue `wanted` of a series: the site, a
      category segment, the slug, the issue number and a four-digit year. */
  function TargetUrl(siteUrl: string, segment: string, slug: string, wanted: nat, year: string): string {
    siteUrl + "/" + segment + "/" + IssueText(slug, wanted) + year
  }

  /** A slice of a copy is the copy's slice. */
  lemma SliceOf(s: string, p: nat, u: string, i: nat, j: nat)
    requires p + |u| <= |s| && s[p..p + |u|] == u && i <= j <= |u|
    ensures s[p + i..p + j] == u[i..j]
  {
    forall k | 0 <= k < j - i
      ensures s[p + i..p + j][k] == u[i..j][k]
    {
      assert s[p..p + |u|][i + k] == u[i + k];
    }
  }

  /** The parts of a target URL, by position. */
  lemma UrlShape(siteUrl: string, segment: string, issueText: string, year: string)
    ensures var u := siteUrl + "/" + segment + "/" + issueText + year;
      var a := |siteUrl|;
      var k := a + 1 + |segment|;
      var c := k + 1 + |issueText|;
      && |u| == c + |year|
      && u[..a] == siteUrl
      && u[a] == '/' && u[k] == '/'
      && u[a + 1..k] == segment
      && u[k + 1..c] == issueText
      && u[c..] == year
  {
  }

  /** A page holding a target URL at `p` matches the pattern there, and the
      match is exactly that URL. */
  lemma UrlMatchesAt(s: string, p: nat, siteUrl: string, segment: string, slug: string, wanted: nat, year: string)
    requires |segment| > 0 && '/' !in segment && |year| == 4 && AllDigits(year)
    requires p + |TargetUrl(siteUrl, segment, slug, wanted, year)| <= |s|
    requires s[p..p + |TargetUrl(siteUrl, segment, slug, wanted, year)|] == TargetUrl(siteUrl, segment, slug, wanted, year)
    ensures TargetEndAt(s, p, siteUrl, IssueText(slug, wanted)) == Some(p + |TargetUrl(siteUrl, segment, slug, wanted, year)|)
  {
    var issueText := IssueText(slug, wanted);
    PartsAt(s, p, siteUrl, segment, issueText, year);
  }

  /** `UrlMatchesAt`, on the parts of the URL. */
  lemma PartsAt(s: string, p: nat, siteUrl: string, segment: string, issueText: string, year: string)
    requires |segment| > 0 && '/' !in segment && |year| == 4 && AllDigits(year)
    requires var u := siteUrl + "/" + segment + "/" + issueText + year;
      p + |u| <= |s| && s[p..p + |u|] == u
    ensures TargetEndAt(s, p, siteUrl, issueText) == Some(p + |siteUrl| + 2 + |segment| + |issueText| + 4)
  {
    var u := siteUrl + "/" + segment + "/" + issueText + year;
    var a := |siteUrl|;
    var k := a + 1 + |segment|;
    var c := k + 1 + |issueText|;
    UrlShape(siteUrl, segment, issueText, year);
    SliceOf(s, p, u, 0, a);
    SliceOf(s, p, u, a, a + 1);
    SliceOf(s, p, u, a + 1, k);
    SliceOf(s, p, u, k, k + 1);
    SliceOf(s, p, u, k + 1, c);
    SliceOf(s, p, u, c, c + 4);
    assert s[p + a] == s[p + a..p + a + 1][0];
    assert s[p + k] == s[p + k..p + k + 1][0];
    MatchOfParts(s, p, siteUrl, segment, issueText, year);
  }

  /** `UrlMatchesAt`, on the positions of the parts of the URL in the page. */
  lemma MatchOfParts(s: string, p: nat, siteUrl: string, segment: string, issueText: string, year: string)
    requires |segment| > 0 && '/' !in segment && |year| == 4 && AllDigits(year)
    requires p + |siteUrl| + 2 + |segment| + |issueText| + 4 <= |s|
    requires s[p..p + |siteUrl|] == siteUrl
    requires s[p + |siteUrl|] == '/'
    requires s[p + |siteUrl| + 1..p + |siteUrl| + 1 + |segment|] == segment
    requires s[p + |siteUrl| + 1 + |segment|] == '/'
    requires s[p + |siteUrl| + 2 + |segment|..p + |siteUrl| + 2 + |segment| + |issueText|] == issueText
    requires s[p + |siteUrl| + 2 + |segment| + |issueText|..p + |siteUrl| + 2 + |segment| + |issueText| + 4] == year
    ensures TargetEndAt(s, p, siteUrl, issueText) == Some(p + |siteUrl| + 2 + |segment| + |issueText| + 4)
  {
    var a := p + |siteUrl|;
    var k := a + 1 + |segment|;
    var c := k + 1 + |issueText|;
    LiteralSelf(s, p, siteUrl, false);
    forall i | a + 1 <= i < k
      ensures NotSlash(s[i])
    {
      assert s[i] == s[a + 1..k][i - a - 1];
    }
    SpanEndIs(s, a + 1, NotSlash, k);
    LiteralSelf(s, k + 1, issueText, false);
  }

  /** What a match found at `p` is: text that the target URL built from the
      site URL, the category segment it actually holds, the slug and the
      year it actually holds matches character by character (a `.` of the
      site URL or the slug matching any character but a line feed). */
  lemma MatchIsUrl(s: string, p: nat, e: nat, siteUrl: string, slug: string, wanted: nat)
    requires TargetEndAt(s, p, siteUrl, IssueText(slug, wanted)) == Some(e)
    ensures exists segment: string, year: string ::
      && |segment| > 0 && '/' !in segment && |year| == 4 && AllDigits(year)
      && |TargetUrl(siteUrl, segment, slug, wanted, year)| == e - p
      && LiteralAt(s, p, TargetUrl(siteUrl, segment, slug, wanted, year), false)
  {
    var segment, year := MatchParts(s, p, e, siteUrl, IssueText(slug, wanted));
    assert TargetUrl(siteUrl, segment, slug, wanted, year) == siteUrl + "/" + segment + "/" + IssueText(slug, wanted) + year;
  }

  /** `MatchIsUrl`, on the parts of the match: the segment and the year it holds. */
  lemma MatchParts(s: string, p: nat, e: nat, siteUrl: string, issueText: string) returns (segment: string, year: string)
    requires TargetEndAt(s, p, siteUrl, issueText) == Some(e)
    ensures |segment| > 0 && '/' !in segment && |year| == 4 && AllDigits(year)
    ensures |siteUrl| + 2 + |segment| + |issueText| + 4 == e - p
    ensures LiteralAt(s, p, siteUrl + "/" + segment + "/" + issueText + year, false)
  {
    var a := p + |siteUrl|;
    var k := SpanEnd(s, a + 1, NotSlash);
    var c := k + 1 + |issueText|;
    segment := s[a + 1..k];
    year := s[c..c + 4];
    assert '/' !in segment by {
      forall i | 0 <= i < |segment| ensures segment[i] != '/' {
        assert NotSlash(s[a + 1 + i]);
      }
    }
    PartsMatch(s, p, siteUrl, segment, issueText, year);
  }

  /** `MatchIsUrl`, on positions: the parts matched side by side match the
      URL they make up. */
  lemma PartsMatch(s: string, p: nat, siteUrl: string, segment: string, issueText: string, year: string)
    requires p + |siteUrl| + 2 + |segment| + |issueText| + |year| <= |s|
    requires LiteralAt(s, p, siteUrl, false)
    requires s[p + |siteUrl|] == '/'
    requires s[p + |siteUrl| + 1..p + |siteUrl| + 1 + |segment|] == segment
    requires s[p + |siteUrl| + 1 + |segment|] == '/'
    requires LiteralAt(s, p + |siteUrl| + 2 + |segment|, issueText, false)
    requires s[p + |siteUrl| + 2 + |segment| + |issueText|..p + |siteUrl| + 2 + |segment| + |issueText| + |year|] == year
    ensures LiteralAt(s, p, siteUrl + "/" + segment + "/" + issueText + year, false)
  {
    var a := p + |siteUrl|;
    var k := a + 1 + |segment|;
    var c := k + 1 + |issueText|;
    assert LiteralAt(s, a, "/", false) by { assert "/"[0] == s[a]; }
    LiteralAppend(s, p, siteUrl, "/", false);
    LiteralSelf(s, a + 1, segment, false);
    LiteralAppend(s, p, siteUrl + "/", segment, false);
    assert LiteralAt(s, k, "/", false) by { assert "/"[0] == s[k]; }
    LiteralAppend(s, p, siteUrl + "/" + segment, "/", false);
    LiteralAppend(s, p, siteUrl + "/" + segment + "/", issueText, false);
    LiteralSelf(s, c, year, false);
    LiteralAppend(s, p, siteUrl + "/" + segment + "/" + issueText, year, false);
  }

  /** The text a match of the target pattern starting at `p` covers. */
  function TargetAt(s: string, p: nat, siteUrl: string, issueText: string): (r: Option<string>)
    ensures r.Some? ==> |siteUrl| + |issueText| + 7 <= |r.value| <= |s|
  {
    match TargetEndAt(s, p, siteUrl, issueText)
    case None => None
    case Some(e) => Some(s[p..e])
  }

  /** A match at `p` covers the text from `p` to where it ends. */
  lemma TargetAtIs(s: string, p: nat, siteUrl: string, issueText: string)
    requires TargetAt(s, p, siteUrl, issueText).Some?
    ensures var r := TargetAt(s, p, siteUrl, issueText).value;
      && p + |r| <= |s|
      && TargetEndAt(s, p, siteUrl, issueText) == Some(p + |r|)
      && s[p..p + |r|] == r
  {
  }

  /** The match at each position of the corpus, if any. */
  function Candidates(corpus: string, siteUrl: string, issueText: string): nat -> Option<string> {
    (p: nat) => TargetAt(corpus, p, siteUrl, issueText)
  }

  /** `preg_match("/$targeturl/", $pages, $matches)` and `$matches[0]`: the
      leftmost match of the target pattern in the corpus, if the pattern is
      well delimited; none otherwise. A match holds the issue number's
      digits, so it is longer than they are. */
  function FindTarget(corpus: string, siteUrl: string, slug: string, wanted: nat): (r: Option<string>)
    ensures r.Some? ==> |IntToString(wanted)| < |r.value| <= |corpus|
  {
    if !Delimited(CreateTargetUrl(slug, wanted, siteUrl)) then None
    else
      var issueText := IssueText(slug, wanted);
      var f := Candidates(corpus, siteUrl, issueText);
      FirstSomeKeeps(f, 0, |corpus|, (v: string) => |siteUrl| + |issueText| + 7 <= |v| <= |corpus|);
      FirstSome(f, 0, |corpus|)
  }

  /** A match found comes from a well-delimited pattern, and it is the text
      of the leftmost position of the corpus where the pattern matches. */
  lemma FindTargetAt(corpus: string, siteUrl: string, slug: string, wanted: nat) returns (p: nat)
    requires FindTarget(corpus, siteUrl, slug, wanted).Some?
    ensures Delimited(CreateTargetUrl(slug, wanted, siteUrl))
    ensures var r := FindTarget(corpus, siteUrl, slug, wanted).value;
      && p + |r| <= |corpus|
      && TargetEndAt(corpus, p, siteUrl, IssueText(slug, wanted)) == Some(p + |r|)
      && corpus[p..p + |r|] == r
    ensures forall q :: 0 <= q < p ==> TargetEndAt(corpus, q, siteUrl, IssueText(slug, wanted)).None?
  {
    var issueText := IssueText(slug, wanted);
    var f := Candidates(corpus, siteUrl, issueText);
    assert FindTarget(corpus, siteUrl, slug, wanted) == FirstSome(f, 0, |corpus|);
    p := FirstSomeAt(f, 0, |corpus|);
    assert f(p) == TargetAt(corpus, p, siteUrl, issueText);
    TargetAtIs(corpus, p, siteUrl, issueText);
    forall q | 0 <= q < p
      ensures TargetEndAt(corpus, q, siteUrl, issueText).None?
    {
      assert f(q).None?;
    }
  }

  /** No match is found exactly when the pattern is not well delimited or
      no position of the corpus matches. */
  lemma FindTargetNone(corpus: string, siteUrl: string, slug: string, wanted: nat)
    ensures FindTarget(corpus, siteUrl, slug, wanted).None? <==>
      !Delimited(CreateTargetUrl(slug, wanted, siteUrl)) ||
      forall q: nat :: q <= |corpus| ==> TargetEndAt(corpus, q, siteUrl, IssueText(slug, wanted)).None?
  {
    var issueText := IssueText(slug, wanted);
    var f := Candidates(corpus, siteUrl, issueText);
    if FindTarget(corpus, siteUrl, slug, wanted).Some? {
      var p := FindTargetAt(corpus, siteUrl, slug, wanted);
    } else if Delimited(CreateTargetUrl(slug, wanted, siteUrl)) {
      FirstSomeNone(f, 0, |corpus|);
      forall q: nat | q <= |corpus|
        ensures TargetEndAt(corpus, q, siteUrl, issueText).None?
      {
        assert f(q).None?;
      }
    }
  }

  /** A corpus holding a target URL for `wanted` yields a match, provided the
      pattern is well delimited. */
  lemma FoundWhenPresent(corpus: string, p: nat, siteUrl: string, segment: string, slug: string, wanted: nat, year: string)
    requires '\\' !in siteUrl && '\\' !in slug
    requires |segment| > 0 && '/' !in segment && |year| == 4 && AllDigits(year)
    requires p + |TargetUrl(siteUrl, segment, slug, wanted, year)| <= |corpus|
    requires corpus[p..p + |TargetUrl(siteUrl, segment, slug, wanted, year)|] == TargetUrl(siteUrl, segment, slug, wanted, year)
    ensures FindTarget(corpus, siteUrl, slug, wanted).Some?
  {
    UrlMatchesAt(corpus, p, siteUrl, segment, slug, wanted, year);
    FindTargetNone(corpus, siteUrl, slug, wanted);
  }

  /** A match found in a page is still found, unchanged, in any page that
      starts with it: every part of the pattern is decided within the match. */
  lemma MatchInLonger(s: string, st: string, p: nat, siteUrl: string, issueText: string)
    requires s <= st
    requires TargetEndAt(s, p, siteUrl, issueText).Some?
    ensures TargetEndAt(st, p, siteUrl, issueText) == TargetEndAt(s, p, siteUrl, issueText)
  {
    EndAtParts(s, p, siteUrl, issueText);
    var k := SpanEnd(s, p + |siteUrl| + 1, NotSlash);
    PartsInLonger(s, st, p, siteUrl, issueText, k);
    YearPrefix(s, st, k + 1 + |issueText|);
    EndAtIs(st, p, siteUrl, issueText, k);
  }

  /** The parts of a match in a text are there in any text starting with it. */
  lemma PartsInLonger(s: string, st: string, p: nat, siteUrl: string, issueText: string, k: nat)
    requires s <= st
    requires p + |siteUrl| + 1 < k < |s|
    requires LiteralAt(s, p, siteUrl, false) && s[p + |siteUrl|] == '/'
    requires SpanEnd(s, p + |siteUrl| + 1, NotSlash) == k
    requires LiteralAt(s, k + 1, issueText, false)
    ensures p + |siteUrl| + 1 < k < |st|
    ensures LiteralAt(st, p, siteUrl, false) && st[p + |siteUrl|] == '/'
    ensures SpanEnd(st, p + |siteUrl| + 1, NotSlash) == k
    ensures LiteralAt(st, k + 1, issueText, false)
  {
    var a := p + |siteUrl|;
    LiteralPrefix(s, st, p, siteUrl, false);
    SlicePrefix(s, st, a, a + 1);
    assert st[a] == st[a..a + 1][0] && s[a] == s[a..a + 1][0];
    SpanEndPrefix(s, st, a + 1, NotSlash);
    LiteralPrefix(s, st, k + 1, issueText, false);
  }

  lemma YearPrefix(s: string, st: string, c: nat)
    requires s <= st && YearAt(s, c)
    ensures YearAt(st, c)
  {
    SlicePrefix(s, st, c, c + 4);
  }

  /** The parts of a match of the target pattern at `p`. */
  lemma EndAtParts(s: string, p: nat, siteUrl: string, issueText: string)
    requires TargetEndAt(s, p, siteUrl, issueText).Some?
    ensures p + |siteUrl| < |s| && s[p + |siteUrl|] == '/'
    ensures var k := SpanEnd(s, p + |siteUrl| + 1, NotSlash);
      && p + |siteUrl| + 1 < k < |s|
      && LiteralAt(s, k + 1, issueText, false)
      && YearAt(s, k + 1 + |issueText|)
      && TargetEndAt(s, p, siteUrl, issueText) == Some(k + 1 + |issueText| + 4)
  {
  }

  /** A text with the parts of a match at `p` has the match there. */
  lemma EndAtIs(s: string, p: nat, siteUrl: string, issueText: string, k: nat)
    requires p + |siteUrl| + 1 < k < |s|
    requires LiteralAt(s, p, siteUrl, false) && s[p + |siteUrl|] == '/'
    requires SpanEnd(s, p + |siteUrl| + 1, NotSlash) == k
    requires LiteralAt(s, k + 1, issueText, false)
    requires YearAt(s, k + 1 + |issueText|)
    ensures TargetEndAt(s, p, siteUrl, issueText) == Some(k + 1 + |issueText| + 4)
  {
  }

  /** Once a corpus holds a match, any longer corpus starting with it does. */
  lemma FoundInLonger(s: string, st: string, siteUrl: string, slug: string, wanted: nat)
    requires s <= st
    requires FindTarget(s, siteUrl, slug, wanted).Some?
    ensures FindTarget(st, siteUrl, slug, wanted).Some?
  {
    var issueText := IssueText(slug, wanted);
    var p := FindTargetAt(s, siteUrl, slug, wanted);
    MatchInLonger(s, st, p, siteUrl, issueText);
    FindTargetNone(st, siteUrl, slug, wanted);
  }
}
