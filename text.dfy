/**
 * String helpers with the semantics of the Python built-ins the scraper
 * relies on: `str.strip()`, `str.replace`, `str.split('\n')`,
 * `'\n'.join(...)`, and the blank-line filter applied to the pretty-printed
 * feed.
 */
module Text {

  /** Python's `str.isspace()` for one character. */
  predicate IsSpace(c: char)
  {
    c == ' ' || ('\t' <= c <= '\r') || ('\U{1C}' <= c <= '\U{1F}') ||
    c == '\U{85}' || c == '\U{A0}' || c == '\U{1680}' ||
    ('\U{2000}' <= c <= '\U{200A}') || c == '\U{2028}' || c == '\U{2029}' ||
    c == '\U{202F}' || c == '\U{205F}' || c == '\U{3000}'
  }

  /** True when every character of `s` is white space (so also for ""). */
  predicate AllSpace(s: string)
  {
    forall k :: 0 <= k < |s| ==> IsSpace(s[k])
  }

  /** `s.lstrip()`: the longest suffix of `s` that does not start with white space. */
  function StripLeft(s: string): (r: string)
    ensures |r| <= |s| && r == s[|s| - |r|..]
    ensures forall k :: 0 <= k < |s| - |r| ==> IsSpace(s[k])
    ensures r == [] || !IsSpace(r[0])
  {
    if s != [] && IsSpace(s[0]) then StripLeft(s[1..]) else s
  }

  /** `s.rstrip()`: the longest prefix of `s` that does not end with white space. */
  function StripRight(s: string): (r: string)
    ensures |r| <= |s| && r == s[..|r|]
    ensures forall k :: |r| <= k < |s| ==> IsSpace(s[k])
    ensures r == [] || !IsSpace(r[|r| - 1])
  {
    if s != [] && IsSpace(s[|s| - 1]) then StripRight(s[..|s| - 1]) else s
  }

  /** `s.strip()`. */
  function Strip(s: string): (r: string)
  {
    StripRight(StripLeft(s))
  }

  /** A string is trimmed when it neither starts nor ends with white space. */
  predicate Trimmed(s: string)
  {
    s == [] || (!IsSpace(s[0]) && !IsSpace(s[|s| - 1]))
  }

  /** How many characters `s.strip()` removes from the front of `s`. */
  function Leading(s: string): (n: nat)
    ensures n + |Strip(s)| <= |s|
  {
    |s| - |StripLeft(s)|
  }

  /**
   * `s.strip()` is the piece of `s` that starts at `Leading(s)`: it is trimmed,
   * and everything cut off on either side is white space.
   */
  lemma StripSpec(s: string)
    ensures Trimmed(Strip(s))
    ensures Strip(s) == s[Leading(s)..Leading(s) + |Strip(s)|]
    ensures forall k :: 0 <= k < Leading(s) ==> IsSpace(s[k])
    ensures forall k :: Leading(s) + |Strip(s)| <= k < |s| ==> IsSpace(s[k])
  {
    var l := StripLeft(s);
    var i := |s| - |l|;
    assert l == s[i..];
    StripRightOfSuffix(s, i);
  }

  /** `rstrip` of the suffix of `s` from `i` on, seen as a piece of `s`. */
  lemma StripRightOfSuffix(s: string, i: nat)
    requires i <= |s|
    ensures i + |StripRight(s[i..])| <= |s|
    ensures StripRight(s[i..]) == s[i..i + |StripRight(s[i..])|]
    ensures forall k :: i + |StripRight(s[i..])| <= k < |s| ==> IsSpace(s[k])
  {
    var l := s[i..];
    var r := StripRight(l);
    forall k | i + |r| <= k < |s| ensures IsSpace(s[k]) {
      assert s[k] == l[k - i];
    }
  }

  /** A blank Python line (`not line.strip()`) is exactly one made of white space. */
  lemma StripEmptyIffAllSpace(s: string)
    ensures Strip(s) == [] <==> AllSpace(s)
  {
    StripSpec(s);
    if Strip(s) == [] {
      assert StripLeft(s) == [];
    } else {
      assert !IsSpace(s[Leading(s)]);
    }
  }

  /** Stripping a trimmed string changes nothing; so `strip` is idempotent. */
  lemma StripTrimmed(s: string)
    requires Trimmed(s)
    ensures Strip(s) == s
  {
  }

  lemma StripIdempotent(s: string)
    ensures Strip(Strip(s)) == Strip(s)
  {
    StripSpec(s);
    StripTrimmed(Strip(s));
  }

  /** `s.replace(c, rep)` for a one-character pattern `c`: every occurrence is replaced. */
  function ReplaceAll(s: string, c: char, rep: string): (r: string)
  {
    if s == [] then []
    else (if s[0] == c then rep else [s[0]]) + ReplaceAll(s[1..], c, rep)
  }

  /** Replacing in a concatenation replaces in both parts. */
  lemma {:induction false} ReplaceAllAppend(x: string, y: string, c: char, rep: string)
    ensures ReplaceAll(x + y, c, rep) == ReplaceAll(x, c, rep) + ReplaceAll(y, c, rep)
  {
    if x == [] {
      assert x + y == y;
    } else {
      assert (x + y)[0] == x[0];
      assert (x + y)[1..] == x[1..] + y;
      ReplaceAllAppend(x[1..], y, c, rep);
    }
  }

  /**
   * Without `c` in the input nothing changes; when the replacement holds no `c`,
   * none is left.
   */
  lemma {:induction false} ReplaceAllSpec(s: string, c: char, rep: string)
    ensures c !in s ==> ReplaceAll(s, c, rep) == s
    ensures c !in rep ==> c !in ReplaceAll(s, c, rep)
  {
    if s != [] {
      ReplaceAllSpec(s[1..], c, rep);
      assert c !in s ==> c !in s[1..];
      assert s == [s[0]] + s[1..];
    }
  }

  /** The first occurrence of `c` becomes `rep` and the text before it is kept. */
  lemma ReplaceAllParts(c: char, rep: string, a: string, b: string)
    requires c !in a
    ensures ReplaceAll(a + [c] + b, c, rep) == a + rep + ReplaceAll(b, c, rep)
  {
    ReplaceAllAppend(a + [c], b, c, rep);
    ReplaceAllAppend(a, [c], c, rep);
    ReplaceAllSpec(a, c, rep);
    assert ReplaceAll([c], c, rep) == rep + ReplaceAll([], c, rep);
  }

  /** `'\n'.join(lines)`. */
  function Join(lines: seq<string>): string
  {
    if |lines| == 0 then []
    else if |lines| == 1 then lines[0]
    else lines[0] + "\n" + Join(lines[1..])
  }

  /** A line never holds a line break. */
  predicate NoBreaks(lines: seq<string>)
  {
    forall i :: 0 <= i < |lines| ==> '\n' !in lines[i]
  }

  /** `s.split('\n')`: at least one piece, none holding a break, joined back to `s`. */
  function Split(s: string): (r: seq<string>)
    ensures |r| >= 1
    ensures NoBreaks(r)
    ensures Join(r) == s
  {
    if s == [] then [[]]
    else
      var rest := Split(s[1..]);
      if s[0] == '\n' then [[]] + rest
      else [[s[0]] + rest[0]] + rest[1..]
  }

  /** Splitting a join gives the lines back, when no line holds a break. */
  lemma {:induction false} SplitJoin(lines: seq<string>)
    requires |lines| >= 1 && NoBreaks(lines)
    ensures Split(Join(lines)) == lines
  {
    if |lines| == 1 {
      SplitNoBreak(lines[0]);
    } else {
      SplitJoin(lines[1..]);
      SplitPrefix(lines[0], Join(lines[1..]));
      assert lines == [lines[0]] + lines[1..];
    }
  }

  /** A string without breaks is one line. */
  lemma {:induction false} SplitNoBreak(s: string)
    requires '\n' !in s
    ensures Split(s) == [s]
  {
    if s != [] {
      assert '\n' !in s[1..] by { assert forall k :: 0 <= k < |s| - 1 ==> s[1..][k] == s[k + 1]; }
      SplitNoBreak(s[1..]);
      assert [s[0]] + s[1..] == s;
    }
  }

  /** A first line without breaks, a break, then the rest: the first piece is that line. */
  lemma {:induction false} SplitPrefix(a: string, b: string)
    requires '\n' !in a
    ensures Split(a + "\n" + b) == [a] + Split(b)
  {
    if a == [] {
      assert (a + "\n" + b)[1..] == b;
    } else {
      var s := a + "\n" + b;
      assert s[1..] == a[1..] + "\n" + b;
      assert '\n' !in a[1..] by { assert forall k :: 0 <= k < |a| - 1 ==> a[1..][k] == a[k + 1]; }
      SplitPrefix(a[1..], b);
      assert [a[0]] + a[1..] == a;
    }
  }

  /**
   * `not line.strip()`: the line is empty or white space only. Stated without
   * `Strip` so that the solver does not unfold the stripping functions; the two
   * readings agree by `StripEmptyIffAllSpace`.
   */
  predicate Blank(line: string)
  {
    AllSpace(line)
  }

  /** The list comprehension `[line for line in lines if line.strip()]`. */
  function NonBlank(lines: seq<string>): (r: seq<string>)
    ensures forall i :: 0 <= i < |r| ==> !Blank(r[i])
    ensures NoBreaks(lines) ==> NoBreaks(r)
  {
    if lines == [] then []
    else (if !Blank(lines[0]) then [lines[0]] else []) + NonBlank(lines[1..])
  }

  /** A line survives the filter exactly when it occurs in the input and is not blank. */
  lemma {:induction false} NonBlankMembers(lines: seq<string>, l: string)
    ensures l in NonBlank(lines) <==> l in lines && Strip(l) != []
  {
    StripEmptyIffAllSpace(l);
    if lines != [] {
      var head := if !Blank(lines[0]) then [lines[0]] else [];
      var rest := NonBlank(lines[1..]);
      assert NonBlank(lines) == head + rest;
      NonBlankMembers(lines[1..], l);
      assert l in lines <==> l == lines[0] || l in lines[1..];
      assert l in head + rest <==> l in head || l in rest;
    }
  }

  /** The filter keeps the order of the lines: it distributes over concatenation. */
  lemma {:induction false} NonBlankAppend(a: seq<string>, b: seq<string>)
    ensures NonBlank(a + b) == NonBlank(a) + NonBlank(b)
  {
    if a == [] {
      assert a + b == b;
    } else {
      assert (a + b)[1..] == a[1..] + b;
      NonBlankAppend(a[1..], b);
    }
  }

  /** Filtering lines that are already all non-blank keeps every one of them. */
  lemma {:induction false} NonBlankKeepsNonBlank(lines: seq<string>)
    requires forall i :: 0 <= i < |lines| ==> !Blank(lines[i])
    ensures NonBlank(lines) == lines
  {
    if lines != [] {
      NonBlankKeepsNonBlank(lines[1..]);
    }
  }

  /** `'\n'.join([line for line in s.split('\n') if line.strip()])`. */
  function RemoveBlankLines(s: string): (r: string)
  {
    Join(NonBlank(Split(s)))
  }

  /**
   * The filtered document consists of exactly the non-blank lines of the input,
   * in their order: no line of the output is blank (the empty output aside,
   * whose one piece is the empty string).
   */
  lemma LinesOfRemoveBlankLines(s: string)
    ensures RemoveBlankLines(s) == [] || Split(RemoveBlankLines(s)) == NonBlank(Split(s))
    ensures RemoveBlankLines(s) == [] <==> NonBlank(Split(s)) == []
  {
    var kept := NonBlank(Split(s));
    if kept != [] {
      SplitJoin(kept);
      assert Split(Join(kept)) == kept;
      assert |kept| >= 1;
      assert !AllSpace(kept[0]);
      assert |Join(kept)| >= |kept[0]| > 0;
    }
  }

  /** Removing blank lines twice is the same as removing them once. */
  lemma RemoveBlankLinesIdempotent(s: string)
    ensures RemoveBlankLines(RemoveBlankLines(s)) == RemoveBlankLines(s)
  {
    var kept := NonBlank(Split(s));
    if kept == [] {
      assert RemoveBlankLines(s) == [];
      assert Split([]) == [[]];
      assert NonBlank([[]]) == [];
    } else {
      SplitJoin(kept);
      NonBlankKeepsNonBlank(kept);
    }
  }
}
