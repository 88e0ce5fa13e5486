/**
  Slugs as `generate_slug` makes them from article titles: lower-cased, punctuation removed,
  runs of whitespace and hyphens collapsed to one hyphen, outer hyphens stripped, cut to 50
  characters.
 */
module Slug {
  import opened Text

  const MaxSlugLength := 50

  /** The title `save_article` and `detect_changes` use for an article without one. */
  const DefaultTitle := "Untitled"

  /** Characters kept by the first substitution, `[\w\s-]`. */
  predicate IsSlugSource(c: char) {
    IsWordChar(c) || IsSpace(c) || c == '-'
  }

  /** Characters whose runs the second substitution collapses, `[-\s]`. */
  predicate IsSeparator(c: char) {
    c == '-' || IsSpace(c)
  }

  /** What a slug is made of: lower-case word characters and hyphens. */
  predicate IsSlugChar(c: char) {
    (IsWordChar(c) && !IsUpper(c)) || c == '-'
  }

  predicate NoDoubleHyphen(s: string) {
    forall i | 0 <= i < |s| - 1 :: s[i] == '-' ==> s[i + 1] != '-'
  }

  /** Slug characters only, no leading hyphen, no two hyphens in a row. */
  predicate IsSlugText(s: string) {
    && (forall i | 0 <= i < |s| :: IsSlugChar(s[i]))
    && (s == [] || s[0] != '-')
    && NoDoubleHyphen(s)
  }

  predicate HasWordChar(s: string) {
    exists i | 0 <= i < |s| :: IsWordChar(s[i])
  }

  /** The word characters of `s`, in order. */
  function WordChars(s: string): (r: string)
    ensures |r| <= |s|
    ensures forall i | 0 <= i < |r| :: IsWordChar(r[i])
  {
    if s == [] then []
    else if IsWordChar(s[0]) then [s[0]] + WordChars(s[1..])
    else WordChars(s[1..])
  }

  lemma {:induction false} WordCharsAppend(a: string, b: string)
    ensures WordChars(a + b) == WordChars(a) + WordChars(b)
  {
    if a == [] {
      assert a + b == b;
    } else {
      assert (a + b)[1..] == a[1..] + b;
      WordCharsAppend(a[1..], b);
    }
  }

  lemma {:induction false} NoWordChars(s: string)
    requires forall i | 0 <= i < |s| :: !IsWordChar(s[i])
    ensures WordChars(s) == []
  {
    if s != [] {
      NoWordChars(s[1..]);
    }
  }

  /** A hyphen contributes no word character. */
  lemma HyphenFirst(s: string)
    ensures WordChars(['-'] + s) == WordChars(s)
  {
    assert (['-'] + s)[1..] == s;
  }

  predicate AllSlugChars(s: string) {
    forall i | 0 <= i < |s| :: IsSlugChar(s[i])
  }

  /** Every character is one the first substitution keeps, and none is upper-case. */
  predicate IsLoweredSlugSource(s: string) {
    forall i | 0 <= i < |s| :: IsSlugSource(s[i]) && !IsUpper(s[i])
  }

  /** `re.sub(r'[^\w\s-]', '', s)`. */
  function RemoveNonSlugChars(s: string): string
  {
    if s == [] then []
    else (if IsSlugSource(s[0]) then [s[0]] else []) + RemoveNonSlugChars(s[1..])
  }

  /** The rest of `s` after its leading run of separators. */
  function SkipSeparators(s: string): (r: string)
    ensures |r| <= |s| && r == s[|s| - |r|..]
    ensures r == [] || !IsSeparator(r[0])
    ensures forall i | 0 <= i < |s| - |r| :: IsSeparator(s[i])
  {
    if s != [] && IsSeparator(s[0]) then SkipSeparators(s[1..]) else s
  }

  /** `re.sub(r'[-\s]+', '-', s)`: every maximal run of separators becomes one hyphen. */
  function CollapseSeparators(s: string): (r: string)
    ensures r == [] <==> s == []
    ensures s != [] && !IsSeparator(s[0]) ==> r[0] == s[0]
    decreases |s|
  {
    if s == [] then []
    else if IsSeparator(s[0]) then ['-'] + CollapseSeparators(SkipSeparators(s[1..]))
    else [s[0]] + CollapseSeparators(s[1..])
  }

  function TrimLeadingHyphens(s: string): (r: string)
    ensures |r| <= |s| && r == s[|s| - |r|..]
    ensures r == [] || r[0] != '-'
    ensures forall i | 0 <= i < |s| - |r| :: s[i] == '-'
  {
    if s != [] && s[0] == '-' then TrimLeadingHyphens(s[1..]) else s
  }

  function TrimTrailingHyphens(s: string): (r: string)
    ensures |r| <= |s| && r == s[..|r|]
    ensures r == [] || r[|r| - 1] != '-'
    ensures forall i | |r| <= i < |s| :: s[i] == '-'
  {
    if s != [] && s[|s| - 1] == '-' then TrimTrailingHyphens(s[..|s| - 1]) else s
  }

  /** `s.strip('-')`. */
  function TrimHyphens(s: string): string
  {
    TrimTrailingHyphens(TrimLeadingHyphens(s))
  }

  lemma {:induction false} HasWordCharAppend(a: string, b: string)
    ensures HasWordChar(a + b) <==> HasWordChar(a) || HasWordChar(b)
  {
    if HasWordChar(a) {
      var i :| 0 <= i < |a| && IsWordChar(a[i]);
      assert (a + b)[i] == a[i];
    }
    if HasWordChar(b) {
      var i :| 0 <= i < |b| && IsWordChar(b[i]);
      assert (a + b)[|a| + i] == b[i];
    }
    if HasWordChar(a + b) {
      var i :| 0 <= i < |a + b| && IsWordChar((a + b)[i]);
      if i < |a| {
        assert a[i] == (a + b)[i];
      } else {
        assert b[i - |a|] == (a + b)[i];
      }
    }
  }

  lemma {:induction false} LowerHasWordChar(s: string)
    ensures HasWordChar(Lower(s)) <==> HasWordChar(s)
  {
    if HasWordChar(s) {
      var i :| 0 <= i < |s| && IsWordChar(s[i]);
      assert IsWordChar(Lower(s)[i]);
    }
    if HasWordChar(Lower(s)) {
      var i :| 0 <= i < |s| && IsWordChar(Lower(s)[i]);
      assert IsWordChar(s[i]);
    }
  }

  /** The first substitution leaves only kept characters and keeps every word character. */
  lemma {:induction false} RemoveNonSlugCharsShape(s: string)
    requires forall i | 0 <= i < |s| :: !IsUpper(s[i])
    ensures IsLoweredSlugSource(RemoveNonSlugChars(s))
    ensures HasWordChar(RemoveNonSlugChars(s)) <==> HasWordChar(s)
    ensures WordChars(RemoveNonSlugChars(s)) == WordChars(s)
  {
    if s != [] {
      var head := if IsSlugSource(s[0]) then [s[0]] else [];
      RemoveNonSlugCharsShape(s[1..]);
      HasWordCharAppend(head, RemoveNonSlugChars(s[1..]));
      WordCharsAppend(head, RemoveNonSlugChars(s[1..]));
      HasWordCharAppend([s[0]], s[1..]);
      assert [s[0]] + s[1..] == s;
    }
  }

  lemma {:induction false} SeparatorsHaveNoWordChar(s: string)
    requires forall i | 0 <= i < |s| :: IsSeparator(s[i])
    ensures !HasWordChar(s)
  {
  }

  /** Putting a slug character in front of slug text keeps it slug text, unless it makes two
      hyphens in a row. */
  lemma PrependSlugChar(c: char, t: string)
    requires IsSlugChar(c) && AllSlugChars(t) && NoDoubleHyphen(t)
    requires c == '-' ==> t == [] || t[0] != '-'
    ensures AllSlugChars([c] + t) && NoDoubleHyphen([c] + t)
  {
    var r := [c] + t;
    assert forall i | 1 <= i < |r| :: r[i] == t[i - 1];
  }

  /** Collapsing the separators of lowered, kept characters gives slug characters without two
      hyphens in a row, and keeps the word characters. */
  lemma {:induction false} CollapseSeparatorsShape(s: string)
    requires IsLoweredSlugSource(s)
    ensures AllSlugChars(CollapseSeparators(s)) && NoDoubleHyphen(CollapseSeparators(s))
    ensures HasWordChar(CollapseSeparators(s)) <==> HasWordChar(s)
    ensures WordChars(CollapseSeparators(s)) == WordChars(s)
    decreases |s|, 1
  {
    if s == [] {
    } else if IsSeparator(s[0]) {
      CollapseRunShape(s);
    } else {
      var t := s[1..];
      assert IsLoweredSlugSource(t);
      CollapseSeparatorsShape(t);
      var tail := CollapseSeparators(t);
      assert CollapseSeparators(s) == [s[0]] + tail;
      PrependSlugChar(s[0], tail);
      HasWordCharAppend([s[0]], tail);
      HasWordCharAppend([s[0]], t);
      assert ([s[0]] + tail)[1..] == tail;
      assert s == [s[0]] + t;
    }
  }

  /** The step of `CollapseSeparatorsShape` for text starting with a run of separators. */
  lemma {:induction false} CollapseRunShape(s: string)
    requires IsLoweredSlugSource(s) && s != [] && IsSeparator(s[0])
    ensures AllSlugChars(CollapseSeparators(s)) && NoDoubleHyphen(CollapseSeparators(s))
    ensures HasWordChar(CollapseSeparators(s)) <==> HasWordChar(s)
    ensures WordChars(CollapseSeparators(s)) == WordChars(s)
    decreases |s|, 0
  {
    var t := SkipSeparators(s[1..]);
    var k := |s| - |t|;
    assert t == s[k..];
    assert forall i | 0 <= i < k :: IsSeparator(s[i]) by {
      assert forall i | 1 <= i < k :: s[i] == s[1..][i - 1];
    }
    assert IsLoweredSlugSource(t);
    CollapseSeparatorsShape(t);
    SeparatorRunHasNoWordChar(s, k);
    HyphenBeforeCollapsed(CollapseSeparators(t));
  }

  /** A leading run of separators holds no word character. */
  lemma SeparatorRunHasNoWordChar(s: string, k: nat)
    requires k <= |s| && forall i | 0 <= i < k :: IsSeparator(s[i])
    ensures HasWordChar(s) <==> HasWordChar(s[k..])
    ensures WordChars(s) == WordChars(s[k..])
  {
    assert s == s[..k] + s[k..];
    HasWordCharAppend(s[..k], s[k..]);
    SeparatorsHaveNoWordChar(s[..k]);
    WordCharsAppend(s[..k], s[k..]);
    NoWordChars(s[..k]);
  }

  /** The hyphen a run of separators becomes, in front of collapsed text that does not start
      with a hyphen. */
  lemma HyphenBeforeCollapsed(tail: string)
    requires AllSlugChars(tail) && NoDoubleHyphen(tail) && (tail == [] || tail[0] != '-')
    ensures AllSlugChars(['-'] + tail) && NoDoubleHyphen(['-'] + tail)
    ensures HasWordChar(['-'] + tail) <==> HasWordChar(tail)
    ensures WordChars(['-'] + tail) == WordChars(tail)
  {
    HyphenFirst(tail);
    PrependSlugChar('-', tail);
    HasWordCharAppend(['-'], tail);
    SeparatorsHaveNoWordChar(['-']);
  }

  /** A slice of slug characters without two hyphens in a row has neither. */
  lemma SliceKeepsSlugChars(s: string, a: nat, b: nat)
    requires a <= b <= |s| && AllSlugChars(s) && NoDoubleHyphen(s)
    ensures AllSlugChars(s[a..b]) && NoDoubleHyphen(s[a..b])
  {
    var u := s[a..b];
    assert forall i | 0 <= i < |u| :: u[i] == s[a + i];
  }

  /** Stripping hyphens from collapsed text gives slug text, empty exactly when the text has no
      word character. */
  lemma {:induction false} TrimHyphensShape(s: string)
    requires AllSlugChars(s) && NoDoubleHyphen(s)
    ensures IsSlugText(TrimHyphens(s))
    ensures TrimHyphens(s) == [] || TrimHyphens(s)[|TrimHyphens(s)| - 1] != '-'
    ensures TrimHyphens(s) == [] <==> !HasWordChar(s)
    ensures WordChars(TrimHyphens(s)) == WordChars(s)
  {
    TrimHyphensKeepsWords(s);
    var t := TrimLeadingHyphens(s);
    var r := TrimTrailingHyphens(t);
    var k := |s| - |t|;
    SliceKeepsSlugChars(s, k, |s|);
    SliceKeepsSlugChars(t, 0, |r|);
    if r != [] {
      assert r[0] == t[0] == s[k];
      assert IsWordChar(s[k]);
    }
  }

  /** `strip('-')` removes hyphens from the two ends only: what is left is a slice of `s` with
      nothing but hyphens outside it. */
  lemma TrimHyphensCutsHyphens(s: string)
    ensures exists i, j | 0 <= i <= j <= |s| :: TrimHyphens(s) == s[i..j] && HyphensOutside(s, i, j)
  {
    var t := TrimLeadingHyphens(s);
    var r := TrimTrailingHyphens(t);
    var i := |s| - |t|;
    HyphenTrimIsSlice(s, t, r, i);
    TrailingHyphensOfSuffix(s, t, r, i);
    assert r == s[i..i + |r|] && HyphensOutside(s, i, i + |r|);
  }

  /** Everything of `s` before `i` and from `j` on is a hyphen. */
  predicate HyphensOutside(s: string, i: nat, j: nat) {
    && (forall k | 0 <= k < i && k < |s| :: s[k] == '-')
    && (forall k | j <= k < |s| :: s[k] == '-')
  }

  /** After both hyphen trims, what is left is the slice of `s` from `i`, where the leading
      trim stopped. */
  lemma HyphenTrimIsSlice(s: string, t: string, r: string, i: nat)
    requires t == TrimLeadingHyphens(s) && r == TrimTrailingHyphens(t) && i == |s| - |t|
    ensures i + |r| <= |s| && r == s[i..i + |r|]
  {
    assert t == s[i..];
    assert r == t[..|r|];
    PrefixOfSuffix(s, t, r, i);
  }

  /** What the trailing trim cuts from the suffix `t` of `s` is hyphens of `s`. */
  lemma TrailingHyphensOfSuffix(s: string, t: string, r: string, i: nat)
    requires i <= |s| && t == s[i..] && r == TrimTrailingHyphens(t)
    ensures forall k | i + |r| <= k < |s| :: s[k] == '-'
  {
    SuffixIndex(s, i);
  }

  /** Stripping hyphens keeps every word character, in order. */
  lemma TrimHyphensKeepsWords(s: string)
    ensures WordChars(TrimHyphens(s)) == WordChars(s)
  {
    var t := TrimLeadingHyphens(s);
    var r := TrimTrailingHyphens(t);
    var i := |s| - |t|;
    HyphenTrimIsSlice(s, t, r, i);
    TrailingHyphensOfSuffix(s, t, r, i);
    assert HyphensOutside(s, i, i + |r|);
    WordCharsOfSlice(s, r, i, i + |r|);
    assert TrimHyphens(s) == r;
  }

  /** A slice with only hyphens outside it has all the word characters of `s`. */
  lemma WordCharsOfSlice(s: string, m: string, i: nat, j: nat)
    requires i <= j <= |s| && m == s[i..j] && HyphensOutside(s, i, j)
    ensures WordChars(m) == WordChars(s)
  {
    var before, after := s[..i], s[j..];
    SliceThree(s, i, j);
    SuffixIndex(s, j);
    NoWordChars(before);
    NoWordChars(after);
    WordCharsBetween(before, s[i..j], after);
  }

  lemma WordCharsBetween(before: string, middle: string, after: string)
    requires WordChars(before) == [] && WordChars(after) == []
    ensures WordChars(before + middle + after) == WordChars(middle)
  {
    WordCharsAppend(before + middle, after);
    WordCharsAppend(before, middle);
  }

  /** A word of a title: a non-empty run of characters that are not separators. */
  predicate IsWord(w: string) {
    w != [] && forall i | 0 <= i < |w| :: !IsSeparator(w[i])
  }

  /** The words of `s`: its maximal runs of characters that are not separators, in order. */
  function Words(s: string): (words: seq<string>)
    ensures s != [] && !IsSeparator(s[0]) ==> words != []
    ensures forall k | 0 <= k < |words| :: IsWord(words[k])
  {
    if s == [] then []
    else if IsSeparator(s[0]) then Words(s[1..])
    else
      var rest := Words(s[1..]);
      if |s| > 1 && !IsSeparator(s[1]) then
        assert IsWord([s[0]] + rest[0]) by {
          assert forall i | 1 <= i < |rest[0]| + 1 :: ([s[0]] + rest[0])[i] == rest[0][i - 1];
        }
        [[s[0]] + rest[0]] + rest[1..]
      else [[s[0]]] + rest
  }

  /** Text without words is all separators. */
  lemma {:induction false} NoWordsAllSeparators(s: string)
    requires Words(s) == []
    ensures forall i | 0 <= i < |s| :: IsSeparator(s[i])
  {
    if s != [] {
      NoWordsAllSeparators(s[1..]);
      assert forall i | 1 <= i < |s| :: s[i] == s[1..][i - 1];
    }
  }

  lemma {:induction false} WordsAfterSkip(s: string)
    ensures Words(SkipSeparators(s)) == Words(s)
  {
    if s != [] && IsSeparator(s[0]) {
      WordsAfterSkip(s[1..]);
    }
  }

  /** The hyphen a leading run of separators collapses to. */
  function LeadingHyphen(s: string): string {
    if s != [] && IsSeparator(s[0]) then "-" else ""
  }

  /** The hyphen a trailing run of separators after the last word collapses to. */
  function TrailingHyphen(s: string): string {
    if s != [] && IsSeparator(s[|s| - 1]) && Words(s) != [] then "-" else ""
  }

  /** Collapsing gives the words joined by single hyphens, with one hyphen more at either
      end where the text starts or ends with separators. */
  predicate CollapsesToWords(s: string) {
    CollapseSeparators(s) == LeadingHyphen(s) + Join(Words(s), "-") + TrailingHyphen(s)
  }

  lemma {:induction false} CollapseIsJoinedWords(s: string)
    ensures CollapsesToWords(s)
    decreases |s|
  {
    if s == [] {
    } else if IsSeparator(s[0]) {
      var t := SkipSeparators(s[1..]);
      if t != [] {
        CollapseIsJoinedWords(t);
      }
      CollapseSeparatorFirst(s, t);
    } else if |s| == 1 {
      assert Words(s) == [[s[0]]];
      assert CollapseSeparators(s) == s + CollapseSeparators([]);
    } else if !IsSeparator(s[1]) {
      CollapseIsJoinedWords(s[1..]);
      CollapseWordCharBeforeWord(s);
    } else {
      CollapseIsJoinedWords(s[1..]);
      CollapseWordCharBeforeSeparator(s);
    }
  }

  /** A suffix with the same words ends in the same trailing hyphen. */
  lemma TrailingHyphenOfSuffix(s: string, t: string, k: nat)
    requires k <= |s| && t == s[k..] && t != [] && (Words(s) == [] <==> Words(t) == [])
    ensures TrailingHyphen(s) == TrailingHyphen(t)
  {
    assert s[|s| - 1] == t[|t| - 1];
  }

  /** `h + (a + j + b)` with `a` empty is `h + j + b`. */
  lemma PrependToJoined(h: string, c: string, rest: string, a: string, j: string, b: string)
    requires c == h + rest && rest == a + j + b && a == ""
    ensures c == h + j + b
  {
  }

  /** The step of `CollapseIsJoinedWords` for text starting with a separator. */
  lemma CollapseSeparatorFirst(s: string, t: string)
    requires s != [] && IsSeparator(s[0]) && t == SkipSeparators(s[1..])
    requires t != [] ==> CollapsesToWords(t)
    ensures CollapsesToWords(s)
  {
    WordsAfterSkip(s[1..]);
    var words := Words(s);
    assert words == Words(t);
    var c := CollapseSeparators(s);
    assert c == "-" + CollapseSeparators(t);
    if t == [] {
      assert TrailingHyphen(s) == "" && Join(words, "-") == "";
    } else {
      var k := |s| - |t|;
      assert t == s[k..] by {
        assert t == s[1..][|s[1..]| - |t|..];
      }
      TrailingHyphenOfSuffix(s, t, k);
      PrependToJoined("-", c, CollapseSeparators(t), LeadingHyphen(t), Join(words, "-"), TrailingHyphen(t));
    }
  }

  /** The step of `CollapseIsJoinedWords` for a word character followed by another. */
  lemma CollapseWordCharBeforeWord(s: string)
    requires |s| > 1 && !IsSeparator(s[0]) && !IsSeparator(s[1])
    requires CollapsesToWords(s[1..])
    ensures CollapsesToWords(s)
  {
    var u := s[1..];
    var words := Words(u);
    var c := CollapseSeparators(s);
    assert c == [s[0]] + CollapseSeparators(u);
    assert Words(s) == [[s[0]] + words[0]] + words[1..];
    JoinExtendsFirst(s[0], words);
    TrailingHyphenOfSuffix(s, u, 1);
    PrependToJoined([s[0]], c, CollapseSeparators(u), LeadingHyphen(u), Join(words, "-"), TrailingHyphen(u));
  }

  /** The step of `CollapseIsJoinedWords` for a word character followed by a separator. */
  lemma CollapseWordCharBeforeSeparator(s: string)
    requires |s| > 1 && !IsSeparator(s[0]) && IsSeparator(s[1])
    requires CollapsesToWords(s[1..])
    ensures CollapsesToWords(s)
  {
    var u := s[1..];
    var words := Words(u);
    var c := CollapseSeparators(s);
    assert c == [s[0]] + CollapseSeparators(u);
    assert Words(s) == [[s[0]]] + words;
    if words == [] {
      NoWordsAllSeparators(u);
      assert s[|s| - 1] == u[|u| - 1];
      assert Join([[s[0]]], "-") == [s[0]];
      assert CollapseSeparators(u) == "-";
    } else {
      JoinAddsFirst(s[0], words);
      TrailingHyphenOfSuffix(s, u, 1);
      assert c == [s[0]] + ("-" + Join(words, "-") + TrailingHyphen(u));
    }
  }

  /** Growing the first word by one character in front grows the joined words likewise. */
  lemma JoinExtendsFirst(c: char, words: seq<string>)
    requires words != []
    ensures Join([[c] + words[0]] + words[1..], "-") == [c] + Join(words, "-")
  {
    assert ([[c] + words[0]] + words[1..])[1..] == words[1..];
  }

  /** A one-character word in front adds it and a hyphen to the joined words. */
  lemma JoinAddsFirst(c: char, words: seq<string>)
    requires words != []
    ensures Join([[c]] + words, "-") == [c] + "-" + Join(words, "-")
  {
    assert ([[c]] + words)[1..] == words;
  }

  /** Words joined by hyphens neither start nor end with a hyphen. */
  lemma {:induction false} JoinedWordsHaveNoOuterHyphen(words: seq<string>)
    requires forall k | 0 <= k < |words| :: IsWord(words[k])
    ensures var j := Join(words, "-"); j == [] || (j[0] != '-' && j[|j| - 1] != '-')
  {
    if |words| > 1 {
      JoinedWordsHaveNoOuterHyphen(words[1..]);
      assert Join(words, "-") == words[0] + "-" + Join(words[1..], "-");
    }
  }

  /** Stripping hyphens from joined words with at most one hyphen at either end gives the
      joined words. */
  lemma TrimOuterHyphens(a: string, j: string, b: string)
    requires a == "" || a == "-"
    requires b == "" || b == "-"
    requires j == [] ==> b == ""
    requires j == [] || (j[0] != '-' && j[|j| - 1] != '-')
    ensures TrimHyphens(a + j + b) == j
  {
    var s := a + j + b;
    if a == "-" {
      assert s[1..] == j + b;
    } else {
      assert s == j + b;
    }
    assert TrimLeadingHyphens(s) == j + b;
    if b == "-" {
      assert (j + b)[..|j + b| - 1] == j;
    } else {
      assert j + b == j;
    }
  }

  /** Collapsing and then stripping hyphens joins the words of the text by single hyphens. */
  lemma CollapseAndTrimJoinsWords(s: string)
    ensures TrimHyphens(CollapseSeparators(s)) == Join(Words(s), "-")
  {
    CollapseIsJoinedWords(s);
    JoinedWordsHaveNoOuterHyphen(Words(s));
    TrimOuterHyphens(LeadingHyphen(s), Join(Words(s), "-"), TrailingHyphen(s));
  }

  /** The slug of a non-empty title before the length cut. */
  function NormalizeTitle(title: string): (r: string)
    ensures IsSlugText(r)
    ensures r == [] || r[|r| - 1] != '-'
    ensures r == [] <==> !HasWordChar(title)
    ensures WordChars(r) == WordChars(Lower(title))
    ensures r == Join(Words(RemoveNonSlugChars(Lower(title))), "-")
  {
    var lowered := Lower(title);
    var kept := RemoveNonSlugChars(lowered);
    var collapsed := CollapseSeparators(kept);
    LowerHasWordChar(title);
    RemoveNonSlugCharsShape(lowered);
    CollapseSeparatorsShape(kept);
    TrimHyphensShape(collapsed);
    CollapseAndTrimJoinsWords(kept);
    TrimHyphens(collapsed)
  }

  /** `generate_slug`: "untitled" for an empty title; otherwise a slug of at most 50
      characters, empty exactly when the title has no word character (so a title of
      punctuation gives "", not "untitled"). */
  function GenerateSlug(title: string): (slug: string)
    ensures title == [] ==> slug == "untitled"
    ensures title != [] ==> |slug| <= MaxSlugLength && IsSlugText(slug)
    ensures title != [] ==> (slug == [] <==> forall i | 0 <= i < |title| :: !IsWordChar(title[i]))
    ensures title != [] ==>
      var words := Join(Words(RemoveNonSlugChars(Lower(title))), "-");
      slug <= words && |slug| == (if |words| <= MaxSlugLength then |words| else MaxSlugLength)
  {
    if title == [] then "untitled"
    else
      var normalized := NormalizeTitle(title);
      if |normalized| <= MaxSlugLength then normalized else normalized[..MaxSlugLength]
  }

  /** Only the 50-character cut can leave a slug ending in a hyphen, since the hyphen strip
      runs before it. */
  lemma TrailingHyphenOnlyFromCut(title: string)
    requires title != []
    ensures var slug := GenerateSlug(title);
      slug != [] && slug[|slug| - 1] == '-' ==> |NormalizeTitle(title)| > MaxSlugLength
  {
    var normalized := NormalizeTitle(title);
    if |normalized| <= MaxSlugLength {
      assert GenerateSlug(title) == normalized;
    }
  }

  /** The slug spells the title's word characters, lowered and in order: all of them when the
      uncut slug fits in 50 characters, a prefix of them otherwise. */
  lemma SlugKeepsTitleWords(title: string)
    requires title != []
    ensures WordChars(GenerateSlug(title)) <= WordChars(Lower(title))
    ensures |NormalizeTitle(title)| <= MaxSlugLength ==>
      WordChars(GenerateSlug(title)) == WordChars(Lower(title))
  {
    var normalized := NormalizeTitle(title);
    if |normalized| > MaxSlugLength {
      var head, rest := normalized[..MaxSlugLength], normalized[MaxSlugLength..];
      assert normalized == head + rest;
      WordCharsAppend(head, rest);
    }
  }

  /** All characters of `s` are lower-case word characters. */
  predicate IsLowerWord(s: string) {
    forall i | 0 <= i < |s| :: IsWordChar(s[i]) && !IsUpper(s[i])
  }

  lemma {:induction false} RemoveNonSlugCharsKeepsSource(s: string)
    requires forall i | 0 <= i < |s| :: IsSlugSource(s[i])
    ensures RemoveNonSlugChars(s) == s
  {
    if s != [] {
      RemoveNonSlugCharsKeepsSource(s[1..]);
      assert [s[0]] + s[1..] == s;
    }
  }

  lemma {:induction false} CollapseKeepsWordPrefix(a: string, b: string)
    requires IsLowerWord(a)
    ensures CollapseSeparators(a + b) == a + CollapseSeparators(b)
  {
    if a != [] {
      var s := a + b;
      assert s[0] == a[0] && !IsSeparator(s[0]);
      assert s[1..] == a[1..] + b;
      assert CollapseSeparators(s) == [a[0]] + CollapseSeparators(a[1..] + b);
      CollapseKeepsWordPrefix(a[1..], b);
      ConsAppend(a, CollapseSeparators(b));
    } else {
      assert a + b == b;
    }
  }

  /** A title that is one word of at most 50 characters slugs to that word in lower case. */
  lemma SingleWordSlug(w: string)
    requires w != [] && |w| <= MaxSlugLength
    requires forall i | 0 <= i < |w| :: IsWordChar(w[i])
    ensures GenerateSlug(w) == Lower(w)
  {
    var lowered := Lower(w);
    assert IsLowerWord(lowered);
    assert NormalizeTitle(w) == lowered by {
      LowerWordNormalizes(lowered);
    }
  }

  /** A lower-case word passes the substitutions and the hyphen trim unchanged. */
  lemma LowerWordNormalizes(w: string)
    requires IsLowerWord(w)
    ensures TrimHyphens(CollapseSeparators(RemoveNonSlugChars(w))) == w
  {
    assert RemoveNonSlugChars(w) == w by {
      RemoveNonSlugCharsKeepsSource(w);
    }
    assert CollapseSeparators(w) == w by {
      CollapseKeepsWordPrefix(w, []);
      assert w + [] == w;
    }
    assert TrimLeadingHyphens(w) == w;
    assert TrimTrailingHyphens(w) == w;
  }

  /** An article without a title is saved as `untitled.md`. */
  lemma UntitledSlug()
    ensures GenerateSlug(DefaultTitle) == "untitled"
  {
    SingleWordSlug(DefaultTitle);
    LowerUntitled();
  }

  lemma LowerUntitled()
    ensures Lower(DefaultTitle) == "untitled"
  {
  }

  /** The 50-character cut can leave a trailing hyphen: a 49-character word followed by a
      space and another word slugs to that word and a hyphen. */
  lemma {:induction false} TrailingHyphenSurvivesCut(w: string, v: string)
    requires |w| == MaxSlugLength - 1 && IsLowerWord(w)
    requires v != [] && IsLowerWord(v)
    ensures GenerateSlug(w + ([' '] + v)) == w + ['-']
  {
    var title := w + ([' '] + v);
    var collapsed := w + (['-'] + v);
    assert NormalizeTitle(title) == collapsed by {
      TwoWordTitle(w, v);
    }
    assert title != [] && |collapsed| > MaxSlugLength;
    assert collapsed[..MaxSlugLength] == w + ['-'];
  }

  /** Two lower-case words with a space between them normalize to the words joined by a hyphen. */
  lemma TwoWordTitle(w: string, v: string)
    requires w != [] && IsLowerWord(w) && v != [] && IsLowerWord(v)
    ensures NormalizeTitle(w + ([' '] + v)) == w + (['-'] + v)
  {
    var title := w + ([' '] + v);
    TwoWordsAreSource(w, v);
    NormalizeLoweredTitle(title);
    CollapseTwoWords(w, v);
    HyphenFreeEndsTrim(w + (['-'] + v));
  }

  lemma TwoWordsAreSource(w: string, v: string)
    requires IsLowerWord(w) && IsLowerWord(v)
    ensures IsLoweredSlugSource(w + ([' '] + v))
  {
    var title := w + ([' '] + v);
    assert forall i | 0 <= i < |title| :: i < |w| ==> title[i] == w[i];
    assert forall i | |w| < i < |title| :: title[i] == v[i - |w| - 1];
  }

  /** Text that neither starts nor ends with a hyphen is its own `strip('-')`. */
  lemma HyphenFreeEndsTrim(s: string)
    requires s != [] && s[0] != '-' && s[|s| - 1] != '-'
    ensures TrimHyphens(s) == s
  {
    assert TrimLeadingHyphens(s) == s;
  }

  /** Lowering and the first substitution leave lowered, kept characters unchanged. */
  lemma NormalizeLoweredTitle(title: string)
    requires title != [] && IsLoweredSlugSource(title)
    ensures NormalizeTitle(title) == TrimHyphens(CollapseSeparators(title))
  {
    assert Lower(title) == title;
    RemoveNonSlugCharsKeepsSource(title);
  }

  /** Two lower-case words with a space between them collapse to the words and a hyphen. */
  lemma CollapseTwoWords(w: string, v: string)
    requires IsLowerWord(w) && v != [] && IsLowerWord(v)
    ensures CollapseSeparators(w + ([' '] + v)) == w + (['-'] + v)
  {
    CollapseKeepsWordPrefix(w, [' '] + v);
    CollapseSpaceWord(v);
  }

  lemma CollapseSpaceWord(v: string)
    requires v != [] && IsLowerWord(v)
    ensures CollapseSeparators([' '] + v) == ['-'] + v
  {
    var u := [' '] + v;
    assert u[0] == ' ' && u[1..] == v;
    assert !IsSeparator(v[0]);
    assert SkipSeparators(v) == v;
    CollapseKeepsWordPrefix(v, []);
    assert v + [] == v;
  }
}
