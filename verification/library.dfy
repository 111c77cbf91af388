/** The owned-issue scan: every file name in the title's directory is
    searched for `<title>\s+#?v?(\d+)`, case-insensitively, and the largest
    captured number is the latest issue owned (comicScrape.php:117-128). */
module Library {
  import opened Wrappers
  import opened Text
  import opened Numbers

  /** The number a match of `<title>\s+#?v?(\d+)` starting at `p` captures.
      The match is unique when it exists: `\s+` must stop at the first
      non-space (neither `#`, `v` nor a digit is a space), `#?` and `v?`
      take their character when it is there (giving it back cannot lead to
      a digit), and the greedy `\d+` takes the whole digit run. */
  function IssueAt(name: string, p: nat, title: string): Option<nat> {
    if !LiteralAt(name, p, title, true) then None
    else
      var afterTitle := p + |title|;
      var afterSpace := SpanEnd(name, afterTitle, IsSpace);
      if afterSpace == afterTitle then None
      else
        var afterHash := if afterSpace < |name| && name[afterSpace] == '#' then afterSpace + 1 else afterSpace;
        var digitsStart := if afterHash < |name| && ToLowerChar(name[afterHash]) == 'v' then afterHash + 1 else afterHash;
        var digitsEnd := SpanEnd(name, digitsStart, IsDigit);
        if digitsEnd == digitsStart then None
        else Some(ParseDecimal(name[digitsStart..digitsEnd]))
  }

  /** The issue number `preg_match` captures from one file name. A title
      holding `/` ends the pattern at its delimiter early, so `preg_match`
      fails and the file counts as unmatched. */
  function IssueInName(name: string, title: string): Option<nat> {
    if '/' in title then None else FirstSome(q => IssueAt(name, q, title), 0, |name|)
  }

  /** `preg_match` on a file name that yields a number: the number is the
      capture at the leftmost position `q` where the pattern matches. */
  lemma IssueInNameAt(name: string, title: string) returns (q: nat)
    requires IssueInName(name, title).Some?
    ensures '/' !in title
    ensures q <= |name| && IssueAt(name, q, title) == IssueInName(name, title)
    ensures forall k :: 0 <= k < q ==> IssueAt(name, k, title).None?
  {
    var f := (k: nat) => IssueAt(name, k, title);
    q := FirstSomeAt(f, 0, |name|);
    assert f(q) == IssueAt(name, q, title);
    forall k | 0 <= k < q
      ensures IssueAt(name, k, title).None?
    {
      assert f(k).None?;
    }
  }

  /** `preg_match` on a file name that yields nothing: the title holds `/`,
      or the pattern matches at no position. */
  lemma IssueInNameNone(name: string, title: string)
    requires IssueInName(name, title).None?
    ensures '/' !in title ==> forall q :: 0 <= q <= |name| ==> IssueAt(name, q, title).None?
  {
    if '/' !in title {
      var f := (k: nat) => IssueAt(name, k, title);
      FirstSomeNone(f, 0, |name|);
      forall q | 0 <= q <= |name|
        ensures IssueAt(name, q, title).None?
      {
        assert f(q).None?;
      }
    }
  }

  /** What the scan reads from one file name: the number it captures, if any. */
  function Capture(title: string): string -> Option<nat> {
    f => IssueInName(f, title)
  }

  /** `r` is the largest number `Cap` reads from any of `files`, or 0 when
      there is none: the value the scan has to produce. */
  ghost predicate IsOwnedMax(files: seq<string>, Cap: string -> Option<nat>, r: nat) {
    && (forall f :: f in files && Cap(f).Some? ==> Cap(f).value <= r)
    && (r == 0 || exists f :: f in files && Cap(f) == Some(r))
  }

  /** One step of the scan loop: keep the larger of `acc` and the number
      `file` names, if it names one. */
  function Keep(acc: nat, file: string, Cap: string -> Option<nat>): nat {
    match Cap(file)
    case Some(n) => if n > acc then n else acc
    case None => acc
  }

  /** The scan loop over `files` in the order given, starting from `acc`. */
  function ScanFrom(acc: nat, files: seq<string>, Cap: string -> Option<nat>): (r: nat)
    decreases |files|
    ensures r >= acc
    ensures forall f :: f in files && Cap(f).Some? ==> Cap(f).value <= r
    ensures r == acc || exists f :: f in files && Cap(f) == Some(r)
  {
    if |files| == 0 then acc
    else
      var r := ScanFrom(Keep(acc, files[0], Cap), files[1..], Cap);
      assert forall f :: f in files ==> f == files[0] || f in files[1..];
      r
  }

  function Reverse<T>(s: seq<T>): (r: seq<T>)
    ensures |r| == |s|
    ensures forall i :: 0 <= i < |s| ==> r[i] == s[|s| - 1 - i]
  {
    seq(|s|, i requires 0 <= i < |s| => s[|s| - 1 - i])
  }

  /** `$latestIssueOwned`: the scan over the reversed directory listing,
      starting from 0. It is the largest issue number any file names, or 0. */
  function LatestIssueOwned(files: seq<string>, title: string): (r: nat)
    ensures IsOwnedMax(files, Capture(title), r)
  {
    var rev := Reverse(files);
    assert forall f :: f in rev <==> f in files by {
      forall f | f in files ensures f in rev {
        var i :| 0 <= i < |files| && files[i] == f;
        assert rev[|files| - 1 - i] == f;
      }
    }
    ScanFrom(0, rev, Capture(title))
  }

  /** At most one number is the largest owned issue of a listing. */
  lemma OwnedMaxUnique(files: seq<string>, Cap: string -> Option<nat>, r1: nat, r2: nat)
    requires IsOwnedMax(files, Cap, r1) && IsOwnedMax(files, Cap, r2)
    ensures r1 == r2
  {
    if r1 != 0 {
      var f1 :| f1 in files && Cap(f1) == Some(r1);
      assert r1 <= r2;
    }
    if r2 != 0 {
      var f2 :| f2 in files && Cap(f2) == Some(r2);
      assert r2 <= r1;
    }
  }

  /** The latest owned issue depends only on which names are listed, not on
      their order (so reversing the listing changes nothing) or repetition. */
  lemma OrderIndependent(a: seq<string>, b: seq<string>, title: string)
    requires forall f :: f in a <==> f in b
    ensures LatestIssueOwned(a, title) == LatestIssueOwned(b, title)
    ensures LatestIssueOwned(a, title) == ScanFrom(0, a, Capture(title))
  {
    var r := LatestIssueOwned(a, title);
    assert IsOwnedMax(b, Capture(title), r);
    OwnedMaxUnique(b, Capture(title), r, LatestIssueOwned(b, title));
    OwnedMaxUnique(a, Capture(title), r, ScanFrom(0, a, Capture(title)));
  }

  /** `$wanted`: the issue after the latest owned one. It is at least 1,
      and the issue before it is the largest one the listing names (or 0). */
  function WantedIssue(files: seq<string>, title: string): (w: nat)
    ensures w >= 1 && IsOwnedMax(files, Capture(title), w - 1)
  {
    LatestIssueOwned(files, title) + 1
  }

  /** With nothing in the directory that names an issue, the first issue is wanted. */
  lemma NothingOwned(files: seq<string>, title: string)
    requires forall f :: f in files ==> IssueInName(f, title).None?
    ensures LatestIssueOwned(files, title) == 0
    ensures WantedIssue(files, title) == 1
  {
    assert forall f :: f in files ==> Capture(title)(f).None?;
  }

  /** Appending a name that `Cap` reads as `w` to a listing whose maximum
      is `prev` gives the larger of the two. */
  lemma MaxAppend(files: seq<string>, name: string, Cap: string -> Option<nat>, prev: nat, w: nat)
    requires IsOwnedMax(files, Cap, prev) && Cap(name) == Some(w)
    ensures IsOwnedMax(files + [name], Cap, if w > prev then w else prev)
  {
    var all := files + [name];
    assert forall f :: f in all <==> f in files || f == name;
    if w <= prev && prev != 0 {
      var f :| f in files && Cap(f) == Some(prev);
      assert f in all;
    }
  }

  /** Adding a file that names issue `w` raises the latest owned issue to
      `w` if it was lower, and leaves it otherwise. */
  lemma AddOwned(files: seq<string>, name: string, title: string, w: nat)
    requires IssueInName(name, title) == Some(w)
    ensures LatestIssueOwned(files + [name], title)
         == if w > LatestIssueOwned(files, title) then w else LatestIssueOwned(files, title)
  {
    var prev := LatestIssueOwned(files, title);
    MaxAppend(files, name, Capture(title), prev, w);
    OwnedMaxUnique(files + [name], Capture(title), if w > prev then w else prev, LatestIssueOwned(files + [name], title));
  }

  /** A name made of the title, a space and a digit run, followed by
      anything that does not start with a digit, names the issue the digits
      spell: the shape the script gives the files it names itself. */
  lemma NamedIssue(title: string, digits: string, rest: string)
    requires '/' !in title
    requires |digits| > 0 && AllDigits(digits)
    requires |rest| == 0 || !IsDigit(rest[0])
    ensures IssueInName(title + " " + digits + rest, title) == Some(ParseDecimal(digits))
  {
    var name := title + " " + digits + rest;
    NameShape(title, digits, rest);
    MatchAtStart(name, title, digits);
  }

  /** The characters of `title + " " + digits + rest`, position by position. */
  lemma NameShape(title: string, digits: string, rest: string)
    requires |rest| == 0 || !IsDigit(rest[0])
    ensures var name := title + " " + digits + rest;
      && |name| == |title| + 1 + |digits| + |rest|
      && name[..|title|] == title
      && name[|title|] == ' '
      && name[|title| + 1..|title| + 1 + |digits|] == digits
      && (|title| + 1 + |digits| < |name| ==> !IsDigit(name[|title| + 1 + |digits|]))
  {
    var name := title + " " + digits + rest;
    if |title| + 1 + |digits| < |name| {
      assert name[|title| + 1 + |digits|] == rest[0];
    }
  }

  /** The pattern matches, at its very start, a name that spells the title,
      one space and the digit run `digits`, and no further digit. */
  lemma MatchAtStart(name: string, title: string, digits: string)
    requires |digits| > 0 && AllDigits(digits)
    requires |title| + 1 + |digits| <= |name|
    requires name[..|title|] == title
    requires name[|title|] == ' '
    requires name[|title| + 1..|title| + 1 + |digits|] == digits
    requires |title| + 1 + |digits| < |name| ==> !IsDigit(name[|title| + 1 + |digits|])
    ensures IssueAt(name, 0, title) == Some(ParseDecimal(digits))
  {
    LiteralSelf(name, 0, title, true);
    SpaceThenDigits(name, |title|, digits);
    MatchSteps(name, title, digits);
  }

  /** One space at `t` and then the digit run `digits`: the runs the
      pattern's ` *` and `(\d+)` take there. */
  lemma SpaceThenDigits(name: string, t: nat, digits: string)
    requires |digits| > 0 && AllDigits(digits)
    requires t + 1 + |digits| <= |name|
    requires name[t] == ' '
    requires name[t + 1..t + 1 + |digits|] == digits
    requires t + 1 + |digits| < |name| ==> !IsDigit(name[t + 1 + |digits|])
    ensures SpanEnd(name, t, IsSpace) == t + 1
    ensures SpanEnd(name, t + 1, IsDigit) == t + 1 + |digits|
  {
    var m := t + 1;
    var e := m + |digits|;
    assert name[m] == digits[0];
    SpanEndIs(name, t, IsSpace, m);
    forall k | m <= k < e
      ensures IsDigit(name[k])
    {
      assert name[k] == name[m..e][k - m];
    }
    SpanEndIs(name, m, IsDigit, e);
  }

  /** The steps of `IssueAt` on a name whose title is followed by one space
      and then the digit run `digits`. */
  lemma MatchSteps(name: string, title: string, digits: string)
    requires LiteralAt(name, 0, title, true)
    requires |digits| > 0 && AllDigits(digits)
    requires SpanEnd(name, |title|, IsSpace) == |title| + 1
    requires SpanEnd(name, |title| + 1, IsDigit) == |title| + 1 + |digits|
    requires name[|title| + 1..|title| + 1 + |digits|] == digits
    ensures IssueAt(name, 0, title) == Some(ParseDecimal(digits))
  {
    var m := |title| + 1;
    assert name[m] == digits[0];
  }
}
