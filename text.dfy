/**
  The Python string operations the scraper relies on: the character classes `\w` and `\s`,
  `str.lower`, `str.strip`, `str.split`, `str.join` and the substring test `in`.
  Characters are classified over ASCII only (see README, "Left out").
 */
module Text {

  /** Python whitespace (`str.isspace`, regex `\s`), ASCII part. */
  predicate IsSpace(c: char) {
    c == ' ' || c == '\t' || c == '\n' || c == '\r' || c == '\U{000B}' || c == '\U{000C}'
    || ('\U{001C}' <= c <= '\U{001F}')
  }

  predicate IsUpper(c: char) {
    'A' <= c <= 'Z'
  }

  /** Regex `\w`, ASCII part: letters, digits and underscore. */
  predicate IsWordChar(c: char) {
    'a' <= c <= 'z' || 'A' <= c <= 'Z' || '0' <= c <= '9' || c == '_'
  }

  function ToLower(c: char): (d: char)
    ensures !IsUpper(d)
    ensures IsWordChar(d) == IsWordChar(c)
    ensures IsSpace(d) == IsSpace(c)
    ensures d == '-' <==> c == '-'
    ensures !IsUpper(c) ==> d == c
  {
    if IsUpper(c) then (c as int + 32) as char else c
  }

  /** `s.lower()`. */
  function Lower(s: string): (r: string)
    ensures |r| == |s|
    ensures forall i | 0 <= i < |s| :: r[i] == ToLower(s[i])
  {
    seq(|s|, i requires 0 <= i < |s| => ToLower(s[i]))
  }

  function TrimLeadingSpace(s: string): (r: string)
    ensures |r| <= |s| && r == s[|s| - |r|..]
    ensures r == [] || !IsSpace(r[0])
    ensures (forall i | 0 <= i < |s| - |r| :: IsSpace(s[i]))
  {
    if s != [] && IsSpace(s[0]) then TrimLeadingSpace(s[1..]) else s
  }

  function TrimTrailingSpace(s: string): (r: string)
    ensures |r| <= |s| && r == s[..|r|]
    ensures r == [] || !IsSpace(r[|r| - 1])
    ensures (forall i | |r| <= i < |s| :: IsSpace(s[i]))
  {
    if s != [] && IsSpace(s[|s| - 1]) then TrimTrailingSpace(s[..|s| - 1]) else s
  }

  /** `s.strip()`: the longest infix of `s` that neither starts nor ends with whitespace. */
  function Strip(s: string): (r: string)
    ensures r == [] || (!IsSpace(r[0]) && !IsSpace(r[|r| - 1]))
    ensures r == [] <==> forall i | 0 <= i < |s| :: IsSpace(s[i])
    ensures exists i, j | 0 <= i <= j <= |s| ::
      && r == s[i..j]
      && (forall k | 0 <= k < i :: IsSpace(s[k]))
      && (forall k | j <= k < |s| :: IsSpace(s[k]))
  {
    var t := TrimLeadingSpace(s);
    var r := TrimTrailingSpace(t);
    var i := |s| - |t|;
    StripIsSlice(s, t, r, i);
    TrailingCutIsSpace(s, t, r, i);
    StripEmptyIsAllSpace(s, t, r);
    r
  }

  /** After both trims, what is left is the slice of `s` from `i`, where the leading trim stopped. */
  lemma StripIsSlice(s: string, t: string, r: string, i: nat)
    requires t == TrimLeadingSpace(s) && r == TrimTrailingSpace(t) && i == |s| - |t|
    ensures i + |r| <= |s| && r == s[i..i + |r|]
  {
    assert t == s[i..];
    assert r == t[..|r|];
    PrefixOfSuffix(s, t, r, i);
  }

  /** Both trims leave nothing only when every character of `s` is whitespace. */
  lemma StripEmptyIsAllSpace(s: string, t: string, r: string)
    requires t == TrimLeadingSpace(s) && r == TrimTrailingSpace(t)
    ensures r == [] ==> forall k | 0 <= k < |s| :: IsSpace(s[k])
  {
    if r == [] && t != [] {
      assert false;
    }
  }

  /** What the trailing trim cuts from the suffix `t` is whitespace of `s`. */
  lemma TrailingCutIsSpace(s: string, t: string, r: string, i: nat)
    requires i <= |s| && t == s[i..] && r == TrimTrailingSpace(t)
    ensures forall k | i + |r| <= k < |s| :: IsSpace(s[k])
  {
    SuffixIndex(s, i);
  }

  /** A prefix `r` of the suffix `t` of `s` from `i` is the slice `[i..i + |r|]`. */
  lemma PrefixOfSuffix<T>(s: seq<T>, t: seq<T>, r: seq<T>, i: nat)
    requires i <= |s| && t == s[i..] && |r| <= |t| && r == t[..|r|]
    ensures i + |r| <= |s| && r == s[i..i + |r|]
  {
  }

  /** Appending to `a` appends to its tail. */
  lemma ConsAppend<T>(a: seq<T>, c: seq<T>)
    requires a != []
    ensures a + c == [a[0]] + (a[1..] + c)
  {
  }

  /** Cutting `s` at `i` and `j` and putting the three pieces back together gives `s`. */
  lemma SliceThree<T>(s: seq<T>, i: nat, j: nat)
    requires i <= j <= |s|
    ensures s == s[..i] + s[i..j] + s[j..]
  {
  }

  /** Element `k` of `s` is element `k - i` of its suffix from `i`. */
  lemma SuffixIndex<T>(s: seq<T>, i: nat)
    requires i <= |s|
    ensures forall k | i <= k < |s| :: s[k] == s[i..][k - i]
  {
  }

  /** Stripping only removes characters: one absent from `s` is absent from `s.strip()`. */
  lemma StripKeepsOut(s: string, c: char)
    requires c !in s
    ensures c !in Strip(s)
  {
    var t := TrimLeadingSpace(s);
    assert c !in t;
  }

  /** The substring `sub` starts at index `i` of `s`. */
  predicate OccursAt(s: string, sub: string, i: nat) {
    i + |sub| <= |s| && s[i..i + |sub|] == sub
  }

  /** Python's `sub in s`. */
  predicate Contains(s: string, sub: string) {
    exists i: nat | i <= |s| :: OccursAt(s, sub, i)
  }

  /** `s.split(sep)` for a one-character separator: never empty, and "" splits to [""]. */
  function Split(s: string, sep: char): (parts: seq<string>)
    ensures |parts| >= 1
    ensures forall i | 0 <= i < |parts| :: sep !in parts[i]
  {
    if s == [] then [[]]
    else if s[0] == sep then [[]] + Split(s[1..], sep)
    else
      var rest := Split(s[1..], sep);
      [[s[0]] + rest[0]] + rest[1..]
  }

  /** `sep.join(parts)`. */
  function Join(parts: seq<string>, sep: string): string
  {
    if parts == [] then []
    else if |parts| == 1 then parts[0]
    else parts[0] + sep + Join(parts[1..], sep)
  }

  /** Splitting at a separator and joining the pieces with that separator gives back the text. */
  lemma {:induction false} JoinSplit(s: string, sep: char)
    ensures Join(Split(s, sep), [sep]) == s
  {
    if s == [] {
    } else if s[0] == sep {
      var rest := Split(s[1..], sep);
      JoinSplit(s[1..], sep);
      assert Split(s, sep) == [[]] + rest;
      assert Split(s, sep)[1..] == rest;
    } else {
      var rest := Split(s[1..], sep);
      JoinSplit(s[1..], sep);
      var parts := Split(s, sep);
      assert parts == [[s[0]] + rest[0]] + rest[1..];
      if |rest| == 1 {
        assert parts[0] == [s[0]] + s[1..];
      } else {
        assert parts[1..] == rest[1..];
        assert Join(rest, [sep]) == rest[0] + [sep] + Join(rest[1..], [sep]);
        assert s == [s[0]] + s[1..];
      }
    }
  }

  /** A text without the separator is one piece. */
  lemma {:induction false} SplitWithoutSeparator(s: string, sep: char)
    requires sep !in s
    ensures Split(s, sep) == [s]
  {
    if s != [] {
      SplitWithoutSeparator(s[1..], sep);
      assert [s[0]] + s[1..] == s;
    }
  }

  /** Splitting distributes over a separator occurrence. */
  lemma {:induction false} SplitAtSeparator(a: string, b: string, sep: char)
    ensures Split(a + [sep] + b, sep) == Split(a, sep) + Split(b, sep)
    decreases |a|, 1
  {
    var s := a + [sep] + b;
    if a == [] {
      assert s[1..] == b;
    } else if a[0] == sep {
      assert s[1..] == a[1..] + [sep] + b;
      SplitAtSeparator(a[1..], b, sep);
    } else {
      SplitAtSeparatorInWord(a, b, sep);
    }
  }

  /** The case of `SplitAtSeparator` where `a` starts inside a part. */
  lemma {:induction false} SplitAtSeparatorInWord(a: string, b: string, sep: char)
    requires a != [] && a[0] != sep
    ensures Split(a + [sep] + b, sep) == Split(a, sep) + Split(b, sep)
    decreases |a|, 0
  {
    var s := a + [sep] + b;
    assert s[1..] == a[1..] + [sep] + b;
    SplitAtSeparator(a[1..], b, sep);
    var left := Split(a[1..], sep);
    var rest := Split(s[1..], sep);
    assert s[0] == a[0];
    MergeFirstPart([a[0]], left, rest, Split(b, sep), Split(s, sep), Split(a, sep));
  }

  /** Prefixing the first part of `left + tail` is prefixing the first part of `left`, then adding `tail`. */
  lemma MergeFirstPart(x: string, left: seq<string>, rest: seq<string>, tail: seq<string>,
                       whole: seq<string>, part: seq<string>)
    requires left != [] && rest == left + tail
    requires whole == [x + rest[0]] + rest[1..]
    requires part == [x + left[0]] + left[1..]
    ensures whole == part + tail
  {
    assert rest[1..] == left[1..] + tail;
  }

  /** When the first and last pieces hold no separator, they are the first and last parts. */
  lemma FirstAndLastParts(first: string, middle: string, last: string, sep: char)
    requires sep !in first && sep !in last
    ensures var parts := Split(first + [sep] + middle + [sep] + last, sep);
      parts[0] == first && parts[|parts| - 1] == last
  {
    var s := first + [sep] + middle + [sep] + last;
    assert s == first + [sep] + (middle + [sep] + last);
    SplitAtSeparator(first, middle + [sep] + last, sep);
    SplitWithoutSeparator(first, sep);
    SplitAtSeparator(first + [sep] + middle, last, sep);
    SplitWithoutSeparator(last, sep);
  }
}
