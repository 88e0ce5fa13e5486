/**
  The line filter `clean_html_to_markdown` applies to the converter's output: split into
  lines, strip each, drop the empty ones, bullets and navigation or advertisement lines, and
  join the rest with a blank line between them.
 */
module Markdown {
  import opened Text

  /** A stripped line survives unless it is empty, starts with `*`, or mentions navigation or
      an advertisement in any letter case. */
  predicate KeepLine(line: string) {
    && line != []
    && line[0] != '*'
    && !Contains(Lower(line), "navigation")
    && !Contains(Lower(line), "advertisement")
  }

  /** The stripped lines that survive the filter, in order. */
  function CleanLines(lines: seq<string>): seq<string>
  {
    MapFilter(lines, Strip, KeepLine)
  }

  /** The images under `f` that satisfy `keep`, in order: `[f(x) for x in xs if keep(f(x))]`. */
  function MapFilter<T>(xs: seq<T>, f: T -> T, keep: T -> bool): seq<T>
  {
    if xs == [] then []
    else
      var y := f(xs[|xs| - 1]);
      MapFilter(xs[..|xs| - 1], f, keep) + (if keep(y) then [y] else [])
  }

  /** Mapping and filtering one more element appends its image when it is kept. */
  lemma MapFilterStep<T>(xs: seq<T>, i: nat, f: T -> T, keep: T -> bool)
    requires i < |xs|
    ensures MapFilter(xs[..i + 1], f, keep)
         == MapFilter(xs[..i], f, keep) + (if keep(f(xs[i])) then [f(xs[i])] else [])
  {
    assert xs[..i + 1][..i] == xs[..i];
  }

  /** What `clean_html_to_markdown` returns for `html`, given the converter. */
  function CleanedMarkdown(html: string, markdownify: string -> string): string {
    if html == [] then [] else Join(CleanLines(Split(markdownify(html), '\n')), "\n\n")
  }

  /** A filtered line: non-empty, one line, no surrounding whitespace, not a bullet. */
  predicate IsCleanLine(line: string) {
    && line != []
    && '\n' !in line
    && !IsSpace(line[0])
    && !IsSpace(line[|line| - 1])
    && line[0] != '*'
  }

  /** No three newlines in a row, i.e. never more than one blank line. */
  predicate NoNewlineRun(s: string) {
    forall i | 0 <= i < |s| - 2 :: s[i] == '\n' ==> s[i + 1] == '\n' ==> s[i + 2] != '\n'
  }

  /** The filtered lines are exactly the stripped input lines that pass the filter. */
  lemma {:induction false} CleanLinesMembership(lines: seq<string>, e: string)
    ensures e in CleanLines(lines) <==> exists i | 0 <= i < |lines| :: e == Strip(lines[i]) && KeepLine(e)
  {
    MapFilterMembership(lines, Strip, KeepLine, e);
  }

  lemma {:induction false} MapFilterMembership<T>(xs: seq<T>, f: T -> T, keep: T -> bool, e: T)
    ensures e in MapFilter(xs, f, keep) <==> exists i | 0 <= i < |xs| :: e == f(xs[i]) && keep(e)
  {
    if e in MapFilter(xs, f, keep) {
      MapFilterHasSource(xs, f, keep, e);
    }
    if exists i | 0 <= i < |xs| :: e == f(xs[i]) && keep(e) {
      var i :| 0 <= i < |xs| && e == f(xs[i]) && keep(e);
      MapFilterLists(xs, f, keep, i);
    }
  }

  lemma {:induction false} MapFilterHasSource<T>(xs: seq<T>, f: T -> T, keep: T -> bool, e: T)
    requires e in MapFilter(xs, f, keep)
    ensures keep(e) && exists i | 0 <= i < |xs| :: e == f(xs[i])
  {
    var n := |xs| - 1;
    var init := xs[..n];
    if e in MapFilter(init, f, keep) {
      MapFilterHasSource(init, f, keep, e);
      var i :| 0 <= i < |init| && e == f(init[i]);
      assert xs[i] == init[i];
    } else {
      assert e == f(xs[n]);
    }
  }

  lemma {:induction false} MapFilterLists<T>(xs: seq<T>, f: T -> T, keep: T -> bool, i: nat)
    requires i < |xs| && keep(f(xs[i]))
    ensures f(xs[i]) in MapFilter(xs, f, keep)
  {
    var n := |xs| - 1;
    var init := xs[..n];
    if i < n {
      assert init[i] == xs[i];
      MapFilterLists(init, f, keep, i);
    }
  }

  /** Filtering the pieces of a split yields clean lines. */
  lemma CleanLinesAreClean(lines: seq<string>)
    requires forall i | 0 <= i < |lines| :: '\n' !in lines[i]
    ensures forall j | 0 <= j < |CleanLines(lines)| :: IsCleanLine(CleanLines(lines)[j])
  {
    StrippedLinesAreClean(lines, KeepLine);
  }

  lemma StrippedLinesAreClean(lines: seq<string>, keep: string -> bool)
    requires forall i | 0 <= i < |lines| :: '\n' !in lines[i]
    requires forall line :: keep(line) ==> line != [] && line[0] != '*'
    ensures forall j | 0 <= j < |MapFilter(lines, Strip, keep)| :: IsCleanLine(MapFilter(lines, Strip, keep)[j])
  {
    var cleaned := MapFilter(lines, Strip, keep);
    forall j | 0 <= j < |cleaned| ensures IsCleanLine(cleaned[j]) {
      var e := cleaned[j];
      MapFilterHasSource(lines, Strip, keep, e);
      var i :| 0 <= i < |lines| && e == Strip(lines[i]);
      StripKeepsOut(lines[i], '\n');
    }
  }

  /** Joining clean lines with a blank line between them gives text without a newline run and
      without surrounding whitespace. */
  lemma {:induction false} JoinCleanLines(parts: seq<string>)
    requires forall i | 0 <= i < |parts| :: IsCleanLine(parts[i])
    ensures var s := Join(parts, "\n\n");
      && NoNewlineRun(s)
      && (parts == [] <==> s == [])
      && (s == [] || (!IsSpace(s[0]) && !IsSpace(s[|s| - 1])))
  {
    if |parts| > 1 {
      var p := parts[0];
      var rest := Join(parts[1..], "\n\n");
      JoinCleanLines(parts[1..]);
      var s := p + "\n\n" + rest;
      assert Join(parts, "\n\n") == s;
      assert rest[0] == parts[1][0] && rest[0] != '\n';
      forall i | 0 <= i < |s| - 2 && s[i] == '\n' && s[i + 1] == '\n' ensures s[i + 2] != '\n' {
        if i < |p| {
          assert false;
        } else if i == |p| || i == |p| + 1 {
          assert s[|p| + 2] == rest[0];
        } else {
          assert s[i] == rest[i - |p| - 2];
          assert s[i + 1] == rest[i + 1 - |p| - 2];
          assert s[i + 2] == rest[i + 2 - |p| - 2];
        }
      }
      assert s[|s| - 1] == rest[|rest| - 1];
    }
  }

  /** The non-empty pieces of a line list. */
  function NonEmptyLines(lines: seq<string>): seq<string>
  {
    if lines == [] then []
    else (if lines[0] == [] then [] else [lines[0]]) + NonEmptyLines(lines[1..])
  }

  /** Reading the cleaned Markdown back line by line and dropping the blank lines recovers
      the filtered lines. */
  lemma {:induction false} CleanedTextReadsBack(parts: seq<string>)
    requires forall i | 0 <= i < |parts| :: IsCleanLine(parts[i])
    ensures NonEmptyLines(Split(Join(parts, "\n\n"), '\n')) == parts
  {
    if parts == [] {
    } else if |parts| == 1 {
      SplitWithoutSeparator(parts[0], '\n');
    } else {
      var p := parts[0];
      var rest := Join(parts[1..], "\n\n");
      CleanedTextReadsBack(parts[1..]);
      assert Join(parts, "\n\n") == p + ['\n'] + ([] + ['\n'] + rest);
      SplitAtSeparator(p, [] + ['\n'] + rest, '\n');
      SplitAtSeparator([], rest, '\n');
      SplitWithoutSeparator(p, '\n');
      var tail := Split(rest, '\n');
      assert Split(Join(parts, "\n\n"), '\n') == [p] + ([[]] + tail);
      assert ([p] + ([[]] + tail))[1..] == [[]] + tail;
      assert ([[]] + tail)[1..] == tail;
    }
  }

  /** The cleaned Markdown has no run of three newlines and no surrounding whitespace, and
      reading it back line by line, blank lines dropped, gives the filtered lines. */
  lemma CleanedMarkdownShape(html: string, markdownify: string -> string)
    ensures var markdown := CleanedMarkdown(html, markdownify);
      && NoNewlineRun(markdown)
      && (markdown == [] || (!IsSpace(markdown[0]) && !IsSpace(markdown[|markdown| - 1])))
      && (html != [] ==> NonEmptyLines(Split(markdown, '\n')) == CleanLines(Split(markdownify(html), '\n')))
  {
    if html != [] {
      var lines := Split(markdownify(html), '\n');
      CleanLinesAreClean(lines);
      JoinCleanLines(CleanLines(lines));
      CleanedTextReadsBack(CleanLines(lines));
    }
  }

  /** `clean_html_to_markdown`: empty for an empty body; otherwise the converter's output
      split into lines, each stripped and filtered, joined with a blank line. */
  method CleanHtmlToMarkdown(html: string, markdownify: string -> string) returns (markdown: string)
    ensures markdown == CleanedMarkdown(html, markdownify)
    ensures html == [] ==> markdown == []
    ensures NoNewlineRun(markdown)
    ensures markdown == [] || (!IsSpace(markdown[0]) && !IsSpace(markdown[|markdown| - 1]))
    ensures html != [] ==> NonEmptyLines(Split(markdown, '\n')) == CleanLines(Split(markdownify(html), '\n'))
  {
    if html == [] {
      return [];
    }
    var lines := Split(markdownify(html), '\n');
    var cleaned: seq<string> := [];
    for i := 0 to |lines|
      invariant cleaned == CleanLines(lines[..i])
    {
      var line := Strip(lines[i]);
      MapFilterStep(lines, i, Strip, KeepLine);
      if KeepLine(line) {
        cleaned := cleaned + [line];
      }
    }
    assert lines[..|lines|] == lines;
    markdown := Join(cleaned, "\n\n");
    CleanedMarkdownShape(html, markdownify);
  }
}
