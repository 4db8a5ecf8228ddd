/** The `kebabCase` transformation of index.ts as the composition of its six
    steps, each a function over strings of Unicode scalar values. */
module Pipeline {
  import opened Chars
  import opened Seqs

  /** The two Unicode-table-driven operations the pipeline relies on and that
      this model leaves abstract: canonical decomposition (NFD) of a whole
      string, and the lower-case mapping of a non-ASCII character, given the
      whole string and the character's position so that context-sensitive
      mappings (such as Greek final sigma) and length-changing mappings fit. */
  datatype UnicodeTables = UnicodeTables(
    nfd: seq<char> -> seq<char>,
    lowerNonAscii: (seq<char>, nat) -> seq<char>)

  /** Step 2: remove every combining diacritical mark, keeping all else in order. */
  function StripMarks(s: seq<char>): (r: seq<char>)
    ensures NoneOf(r, IsCombiningMark)
    ensures forall c :: !IsCombiningMark(c) ==> multiset(r)[c] == multiset(s)[c]
  {
    FilterShape(s, IsNotCombiningMark);
    FilterCounts(s, IsNotCombiningMark);
    Filter(s, IsNotCombiningMark)
  }

  /** Step 3: remove leading and trailing white space. What is left follows
      the leading white space of `s`, is followed by white space only, and is
      empty (exactly when `s` is all white space) or starts and ends with a
      character that is not white space. */
  function Trim(s: seq<char>): (r: seq<char>)
    ensures r == [] || (!IsWhitespace(r[0]) && !IsWhitespace(r[|r| - 1]))
    ensures LeadingRun(s, IsWhitespace) + |r| <= |s|
    ensures r == s[LeadingRun(s, IsWhitespace)..LeadingRun(s, IsWhitespace) + |r|]
    ensures forall k :: LeadingRun(s, IsWhitespace) + |r| <= k < |s| ==> IsWhitespace(s[k])
    ensures r == [] <==> All(s, IsWhitespace)
  {
    TrimByShape(s, IsWhitespace);
    TrimByEmpty(s, IsWhitespace);
    TrimBy(s, IsWhitespace)
  }

  /** Step 4, for the character at position `i`: ASCII characters follow the
      ASCII mapping, any other character the abstract table. */
  function LowerAt(s: seq<char>, i: nat, lowerNonAscii: (seq<char>, nat) -> seq<char>): seq<char>
    requires i < |s|
  {
    if IsAscii(s[i]) then [AsciiLower(s[i])] else lowerNonAscii(s, i)
  }

  /** Step 4 applied to the characters of `s` from position `i` on. On an
      ASCII string it maps each character by the ASCII mapping, keeping the
      length, whatever the table does. */
  function LowerFrom(s: seq<char>, i: nat, lowerNonAscii: (seq<char>, nat) -> seq<char>): (r: seq<char>)
    requires i <= |s|
    ensures All(s[i..], IsAscii) ==> |r| == |s| - i && forall k :: 0 <= k < |r| ==> r[k] == AsciiLower(s[i + k])
    decreases |s| - i
  {
    if i == |s| then [] else LowerAt(s, i, lowerNonAscii) + LowerFrom(s, i + 1, lowerNonAscii)
  }

  /** Step 4: lower-case the whole string. An ASCII string is lower-cased
      character by character with `A`-`Z` becoming `a`-`z`. */
  function Lower(s: seq<char>, lowerNonAscii: (seq<char>, nat) -> seq<char>): (r: seq<char>)
    ensures All(s, IsAscii) ==> |r| == |s| && forall k :: 0 <= k < |r| ==> r[k] == AsciiLower(s[k])
  {
    assert s[0..] == s;
    LowerFrom(s, 0, lowerNonAscii)
  }

  /** No two hyphens are adjacent. */
  predicate NoDoubleHyphen(s: seq<char>) {
    forall k :: 0 <= k < |s| - 1 ==> !(IsHyphen(s[k]) && IsHyphen(s[k + 1]))
  }

  /** Length of the run of characters other than `a`-`z` and `0`-`9` that `s` starts with. */
  function SeparatorRun(s: seq<char>): (n: nat)
    ensures n <= |s|
    ensures forall k :: 0 <= k < n ==> IsSeparator(s[k])
    ensures n < |s| ==> IsLowerAlnum(s[n])
  {
    if s == [] || IsLowerAlnum(s[0]) then 0
    else
      var m := SeparatorRun(s[1..]);
      assert forall k :: 1 <= k < m + 1 ==> s[k] == s[1..][k - 1];
      1 + m
  }

  /** The separator run of `run + rest` is exactly `run` when `rest` does not
      start with a separator. */
  lemma {:induction false} SeparatorRunOfPadded(run: seq<char>, rest: seq<char>)
    requires forall k :: 0 <= k < |run| ==> IsSeparator(run[k])
    requires rest == [] || IsLowerAlnum(rest[0])
    ensures SeparatorRun(run + rest) == |run|
  {
    if run == [] {
      assert run + rest == rest;
    } else {
      assert (run + rest)[0] == run[0];
      assert (run + rest)[1..] == run[1..] + rest;
      SeparatorRunOfPadded(run[1..], rest);
    }
  }

  /** SeparatorRun is the generic leading run for the separator class; it is
      stated on its own so that its contract mentions `IsSeparator` directly. */
  lemma {:induction false} SeparatorRunIsLeadingRun(s: seq<char>)
    ensures SeparatorRun(s) == LeadingRun(s, IsSeparator)
  {
    if s != [] && IsSeparator(s[0]) {
      SeparatorRunIsLeadingRun(s[1..]);
    }
  }

  /** Step 5: replace every maximal run of characters other than `a`-`z` and
      `0`-`9` by one hyphen, scanning from the left as a global regular
      expression replacement does. */
  function Collapse(s: seq<char>): seq<char>
    decreases |s|
  {
    if s == [] then []
    else if IsLowerAlnum(s[0]) then [s[0]] + Collapse(s[1..])
    else "-" + Collapse(s[SeparatorRun(s)..])
  }

  /** The result of step 5 is empty exactly when the input is, and starts
      (ends) with a hyphen exactly when the input starts (ends) with a separator. */
  lemma {:induction false} CollapseEnds(s: seq<char>)
    ensures Collapse(s) == [] <==> s == []
    ensures Collapse(s) != [] ==> (IsHyphen(Collapse(s)[0]) <==> IsSeparator(s[0]))
    ensures Collapse(s) != [] ==> (IsHyphen(Collapse(s)[|Collapse(s)| - 1]) <==> IsSeparator(s[|s| - 1]))
    decreases |s|
  {
    if s != [] {
      var r := Collapse(s);
      if IsLowerAlnum(s[0]) {
        var u := s[1..];
        CollapseEnds(u);
        assert r == [s[0]] + Collapse(u);
        assert u != [] ==> u[|u| - 1] == s[|s| - 1];
      } else {
        var m := SeparatorRun(s);
        var u := s[m..];
        CollapseEnds(u);
        assert r == "-" + Collapse(u);
        if m == |s| {
          assert s[..m][|s| - 1] == s[|s| - 1];
        } else {
          assert u[|u| - 1] == s[|s| - 1];
        }
      }
    }
  }

  /** The result of step 5 is over `[a-z0-9-]`. */
  lemma {:induction false} CollapseAlphabet(s: seq<char>)
    ensures All(Collapse(s), IsKebabChar)
    decreases |s|
  {
    if s != [] {
      if IsLowerAlnum(s[0]) {
        CollapseAlphabet(s[1..]);
      } else {
        CollapseAlphabet(s[SeparatorRun(s)..]);
      }
    }
  }

  /** The result of step 5 never has two adjacent hyphens: after the hyphen
      that replaces a run comes a letter or a digit, or nothing. */
  lemma {:induction false} CollapseNoDoubleHyphen(s: seq<char>)
    ensures NoDoubleHyphen(Collapse(s))
    decreases |s|
  {
    if s != [] {
      var r := Collapse(s);
      if IsLowerAlnum(s[0]) {
        CollapseNoDoubleHyphen(s[1..]);
        assert r == [s[0]] + Collapse(s[1..]);
      } else {
        var m := SeparatorRun(s);
        var u := s[m..];
        CollapseNoDoubleHyphen(u);
        CollapseEnds(u);
        assert r == "-" + Collapse(u);
        assert u != [] ==> u[0] == s[m];
      }
    }
  }

  /** Step 6: remove the hyphens at the start and at the end. What is left
      follows the leading hyphens of `s`, is followed by hyphens only, and is
      empty (exactly when `s` is all hyphens) or starts and ends with a
      character other than a hyphen. */
  function StripEdgeHyphens(s: seq<char>): (r: seq<char>)
    ensures r == [] || (!IsHyphen(r[0]) && !IsHyphen(r[|r| - 1]))
    ensures LeadingRun(s, IsHyphen) + |r| <= |s|
    ensures r == s[LeadingRun(s, IsHyphen)..LeadingRun(s, IsHyphen) + |r|]
    ensures forall k :: LeadingRun(s, IsHyphen) + |r| <= k < |s| ==> IsHyphen(s[k])
    ensures r == [] <==> All(s, IsHyphen)
  {
    TrimByShape(s, IsHyphen);
    TrimByEmpty(s, IsHyphen);
    TrimBy(s, IsHyphen)
  }

  /** `s` neither starts nor ends with a hyphen. */
  predicate NoEdgeHyphen(s: seq<char>) {
    s == [] || (!IsHyphen(s[0]) && !IsHyphen(s[|s| - 1]))
  }

  /** A kebab-case string: `[a-z0-9-]` only, no two adjacent hyphens, no hyphen at either end. */
  predicate IsKebab(s: seq<char>) {
    All(s, IsKebabChar) && NoDoubleHyphen(s) && NoEdgeHyphen(s)
  }

  /** A piece `s[i..j]` of a string over `[a-z0-9-]` without adjacent hyphens is again one. */
  lemma PieceKeepsAlphabet(s: seq<char>, i: nat, j: nat)
    requires i <= j <= |s|
    requires All(s, IsKebabChar) && NoDoubleHyphen(s)
    ensures All(s[i..j], IsKebabChar) && NoDoubleHyphen(s[i..j])
  {
    forall k | 0 <= k < j - i ensures s[i..j][k] == s[i + k] { }
  }

  /** Step 6 turns a string over `[a-z0-9-]` without adjacent hyphens into kebab case. */
  lemma StripEdgeHyphensMakesKebab(c: seq<char>)
    requires All(c, IsKebabChar) && NoDoubleHyphen(c)
    ensures IsKebab(StripEdgeHyphens(c))
  {
    var i := LeadingRun(c, IsHyphen);
    PieceKeepsAlphabet(c, i, i + |StripEdgeHyphens(c)|);
  }

  /** Steps 1 to 4: the string the collapse works on. */
  function Lowered(input: seq<char>, t: UnicodeTables): seq<char> {
    Lower(Trim(StripMarks(t.nfd(input))), t.lowerNonAscii)
  }

  /** The whole pipeline of `kebabCase`; its result is always in kebab case. */
  function KebabCase(input: seq<char>, t: UnicodeTables): (r: seq<char>)
    ensures IsKebab(r)
  {
    var l := Lowered(input, t);
    CollapseAlphabet(l);
    CollapseNoDoubleHyphen(l);
    StripEdgeHyphensMakesKebab(Collapse(l));
    StripEdgeHyphens(Collapse(l))
  }
}
