/** One line of the titles list: either a bare title, or `search term|title`
    for series the catalog has to be searched under a different name than
    the one used for the directory and the file names
    (comicScrape.php:102-111). */
module Titles {
  import opened Text

  /** What a line yields: the term sent to the catalog search, and the
      title used for the directory, the owned-issue scan and file names. */
  datatype TitleEntry = TitleEntry(searchTerm: string, title: string)

  /** There is a `|` in the line, so `explode` gives at least two fields. */
  lemma BarSplits(line: string)
    requires '|' in line
    ensures |Split(line, "|")| > 1
  {
    CharOccurs(line, '|');
  }

  /** The first two fields `explode('|', line)` gives a line holding a `|`:
      the text before the first `|`, and the text between it and the next. */
  function Fields(line: string): (f: (string, string))
    requires '|' in line
    ensures '|' !in f.0 && f.0 < line && line[|f.0|] == '|'
    ensures '|' !in f.1 && f.1 <= line[|f.0| + 1..]
    ensures |line| == |f.0| + 1 + |f.1| || line[|f.0| + 1 + |f.1|] == '|'
  {
    BarSplits(line);
    var parts := Split(line, "|");
    var rest := Join(parts[1..], "|");
    assert line == parts[0] + "|" + rest;
    CharOccurs(parts[0], '|');
    CharOccurs(parts[1], '|');
    assert |parts| > 2 ==> rest == parts[1] + "|" + Join(parts[2..], "|");
    (parts[0], parts[1])
  }

  /** The split of a line without `|`: the whole line, trimmed, is both
      the search term and the title. */
  function Bare(line: string): (e: TitleEntry)
    ensures e.searchTerm == e.title
    ensures e.searchTerm <= line && forall k :: |e.searchTerm| <= k < |line| ==> IsTrimChar(line[k])
  {
    TitleEntry(RTrim(line), RTrim(line))
  }

  /** The script's choice between the two fields, as written: the title is
      the second field when PHP finds it truthy and the search term
      otherwise, and only then is it trimmed. */
  function PairAsWritten(first: string, second: string): (e: TitleEntry)
    ensures e.searchTerm == first
    ensures |e.title| == 0 || !IsTrimChar(e.title[|e.title| - 1])
  {
    TitleEntry(first, RTrim(if Truthy(second) then second else first))
  }

  /** The choice with the evident intent: the second field names the title
      unless it is blank once trailing whitespace is trimmed. */
  function PairCorrected(first: string, second: string): (e: TitleEntry)
    ensures e.searchTerm == first
    ensures |e.title| == 0 || !IsTrimChar(e.title[|e.title| - 1])
  {
    var t := RTrim(second);
    TitleEntry(first, if Truthy(t) then t else RTrim(first))
  }

  /** Trimming never turns "0" into anything else. */
  lemma RTrimZero()
    ensures RTrim("0") == "0"
  {
    assert !IsTrimChar("0"[0]);
  }

  /** The corrected choice differs from the written one only where the
      written one yields a falsy title, and it yields a non-empty title
      whenever the search term is not blank. */
  lemma PairAgree(first: string, second: string)
    ensures Truthy(PairAsWritten(first, second).title) ==> PairCorrected(first, second) == PairAsWritten(first, second)
    ensures RTrim(first) != "" ==> PairCorrected(first, second).title != ""
  {
    if !Truthy(second) {
      RTrimZero();
      assert RTrim("") == "";
    }
  }

  /** The script's split, as written: the search term is the first field
      (not trimmed), the title is the second field when PHP finds it truthy
      and the search term otherwise, and only then is the title trimmed. */
  function ParseTitleLineAsWritten(line: string): (e: TitleEntry)
    ensures '|' !in line ==> e.searchTerm == RTrim(line) && e.title == RTrim(line)
    ensures '|' in line ==> '|' !in e.searchTerm && e.searchTerm < line && line[|e.searchTerm|] == '|'
    ensures |e.title| == 0 || !IsTrimChar(e.title[|e.title| - 1])
  {
    if '|' in line then
      var (first, second) := Fields(line);
      PairAsWritten(first, second)
    else
      Bare(line)
  }

  /** The split with the evident intent: the same search term, and a title
      that only differs from the written one where that one is falsy. */
  function ParseTitleLine(line: string): (e: TitleEntry)
    ensures e.searchTerm == ParseTitleLineAsWritten(line).searchTerm
    ensures Truthy(ParseTitleLineAsWritten(line).title) ==> e == ParseTitleLineAsWritten(line)
    ensures RTrim(e.searchTerm) != "" ==> e.title != ""
    ensures |e.title| == 0 || !IsTrimChar(e.title[|e.title| - 1])
  {
    if '|' in line then
      var (first, second) := Fields(line);
      PairAgree(first, second);
      PairCorrected(first, second)
    else
      Bare(line)
  }

  /** A line `a|b` with no other `|` yields the fields `a` and `b`. */
  lemma FieldsPair(a: string, b: string)
    requires '|' !in a && '|' !in b
    ensures '|' in a + "|" + b
    ensures Fields(a + "|" + b) == (a, b)
  {
    SplitAtFirst(a, '|', b);
    SplitNone(b, '|');
    assert (a + "|" + b)[|a|] == '|';
  }

  /** A line `a|b` with no other `|` splits into search term `a` and title
      `b`, or `a` when `b` is falsy, trimmed on the right. */
  lemma ParsePair(a: string, b: string)
    requires '|' !in a && '|' !in b
    ensures ParseTitleLineAsWritten(a + "|" + b) == TitleEntry(a, RTrim(if Truthy(b) then b else a))
    ensures ParseTitleLine(a + "|" + b) == PairCorrected(a, b)
  {
    FieldsPair(a, b);
  }

  /** Fields after the second are ignored. */
  lemma LaterFieldsIgnored(a: string, b: string, c: string)
    requires '|' !in a && '|' !in b
    ensures ParseTitleLineAsWritten(a + "|" + b + "|" + c) == ParseTitleLineAsWritten(a + "|" + b)
    ensures ParseTitleLine(a + "|" + b + "|" + c) == ParseTitleLine(a + "|" + b)
  {
    var long := a + "|" + b + "|" + c;
    assert long == a + ['|'] + (b + ['|'] + c);
    assert long[|a|] == '|';
    SplitAtFirst(a, '|', b + ['|'] + c);
    SplitAtFirst(b, '|', c);
    assert Fields(long) == (a, b);
    FieldsPair(a, b);
  }

  /** Trimming ignores a trailing line feed. */
  lemma RTrimLineFeed(s: string)
    ensures RTrim(s + "\n") == RTrim(s)
  {
    assert (s + "\n")[..|s|] == s;
  }

  /** A file line `a|t` (with the line feed `file()` keeps) names search
      term `a` and title `t`, when `t` does not end in whitespace. */
  lemma PairLine(a: string, t: string)
    requires '|' !in a && '|' !in t && t != "" && !IsTrimChar(t[|t| - 1])
    ensures ParseTitleLineAsWritten(a + "|" + t + "\n") == TitleEntry(a, t)
  {
    assert a + "|" + t + "\n" == a + "|" + (t + "\n");
    ParsePair(a, t + "\n");
    RTrimLineFeed(t);
  }

  /** The example the script's own comment gives: the files of "Once &
      Future" are searched for as "Once and Future". */
  lemma OnceAndFuture()
    ensures ParseTitleLineAsWritten("Once and Future" + "|" + "Once & Future" + "\n")
         == TitleEntry("Once and Future", "Once & Future")
  {
    PairLine("Once and Future", "Once & Future");
  }

  /** A line `Saga|` read from the titles file keeps its line feed, so the
      second field is "\n", which PHP finds truthy: the title trims to the
      empty string, while the intended split falls back to the search term. */
  lemma EmptyTitleAsWritten(a: string)
    requires '|' !in a && a != "" && !IsTrimChar(a[|a| - 1])
    ensures ParseTitleLineAsWritten(a + "|" + "\n") == TitleEntry(a, "")
    ensures ParseTitleLine(a + "|" + "\n") == TitleEntry(a, a)
  {
    ParsePair(a, "\n");
    RTrimLineFeed("");
    assert RTrim("") == "";
  }
}
