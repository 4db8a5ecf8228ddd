/** What the pipeline of `kebabCase` guarantees, whatever the Unicode tables do. */
module KebabProperties {
  import opened Chars
  import opened Seqs
  import opened Pipeline

  /** The `[a-z0-9]` characters of a string, in order. */
  function Alnums(s: seq<char>): seq<char> {
    Filter(s, IsLowerAlnum)
  }

  /** A string with its hyphens deleted. */
  function RemoveHyphens(s: seq<char>): seq<char> {
    Filter(s, IsNotHyphen)
  }

  /** Step 2 keeps the order of what it keeps: it distributes over concatenation. */
  lemma StripMarksAppend(a: seq<char>, b: seq<char>)
    ensures StripMarks(a + b) == StripMarks(a) + StripMarks(b)
  {
    FilterAppend(a, b, IsNotCombiningMark);
  }

  /** Step 2 leaves a string without combining marks unchanged. */
  lemma StripMarksKeepsUnmarked(s: seq<char>)
    requires NoneOf(s, IsCombiningMark)
    ensures StripMarks(s) == s
  {
    FilterKeepsAll(s, IsNotCombiningMark);
  }

  /** On a single character, step 2 removes it exactly when it is a combining mark. */
  lemma StripMarksChar(c: char)
    ensures StripMarks([c]) == if IsCombiningMark(c) then [] else [c]
  {
    assert [c][1..] == [];
    assert Filter([c][1..], IsNotCombiningMark) == [];
  }

  /** Step 4 leaves a string over `[a-z0-9-]` unchanged, whatever the table. */
  lemma LowerKeepsKebabChars(s: seq<char>, lowerNonAscii: (seq<char>, nat) -> seq<char>)
    requires All(s, IsKebabChar)
    ensures Lower(s, lowerNonAscii) == s
  {
    forall k | 0 <= k < |s| ensures IsAscii(s[k]) && AsciiLower(s[k]) == s[k] {
      KebabCharIsInert(s[k]);
    }
  }

  /** Step 5 leaves a string over `[a-z0-9-]` without adjacent hyphens unchanged. */
  lemma {:induction false} CollapseKeepsCollapsed(s: seq<char>)
    requires All(s, IsKebabChar) && NoDoubleHyphen(s)
    ensures Collapse(s) == s
    decreases |s|
  {
    if s != [] {
      PieceKeepsAlphabet(s, 1, |s|);
      if IsLowerAlnum(s[0]) {
        CollapseKeepsCollapsed(s[1..]);
      } else {
        assert s[..1] == [s[0]];
        assert SeparatorRun(s) == 1 by {
          if |s| > 1 {
            assert s[1..][0] == s[1];
            SeparatorRunOfPadded(s[..1], s[1..]);
          } else {
            SeparatorRunOfPadded(s, []);
          }
          assert s[..1] + s[1..] == s + [] == s;
        }
        CollapseKeepsCollapsed(s[1..]);
        assert s == "-" + s[1..];
      }
    }
  }

  /** Step 5 passes letters and digits through unchanged. */
  lemma {:induction false} CollapseAlnumPrefix(w: seq<char>, rest: seq<char>)
    requires All(w, IsLowerAlnum)
    ensures Collapse(w + rest) == w + Collapse(rest)
    decreases |w|
  {
    if w != [] {
      assert (w + rest)[0] == w[0];
      assert (w + rest)[1..] == w[1..] + rest;
      CollapseAlnumPrefix(w[1..], rest);
      assert w == [w[0]] + w[1..];
    } else {
      assert w + rest == rest;
    }
  }

  /** Step 5 turns a maximal run of separators, however long, into exactly one hyphen. */
  lemma CollapseSeparatorRun(run: seq<char>, rest: seq<char>)
    requires run != [] && All(run, IsSeparator)
    requires rest == [] || IsLowerAlnum(rest[0])
    ensures Collapse(run + rest) == "-" + Collapse(rest)
  {
    SeparatorRunOfPadded(run, rest);
    assert (run + rest)[0] == run[0];
    assert (run + rest)[|run|..] == rest;
  }

  /** Step 5 deletes no letter or digit, duplicates none and reorders none:
      deleting the hyphens of its result gives the `[a-z0-9]` characters of its input. */
  lemma {:induction false} CollapseKeepsAlnums(s: seq<char>)
    ensures RemoveHyphens(Collapse(s)) == Alnums(s)
    decreases |s|
  {
    if s == [] {
    } else if IsLowerAlnum(s[0]) {
      CollapseAlnumStep(s);
      CollapseKeepsAlnums(s[1..]);
    } else {
      CollapseSeparatorStep(s);
      AlnumsAfterSeparators(s);
      CollapseKeepsAlnums(s[SeparatorRun(s)..]);
    }
  }

  lemma CollapseAlnumStep(s: seq<char>)
    requires s != [] && IsLowerAlnum(s[0])
    ensures RemoveHyphens(Collapse(s)) == [s[0]] + RemoveHyphens(Collapse(s[1..]))
    ensures Alnums(s) == [s[0]] + Alnums(s[1..])
  {
    var c := Collapse(s[1..]);
    assert Collapse(s) == [s[0]] + c;
    FilterAppend([s[0]], c, IsNotHyphen);
    assert [s[0]][1..] == [];
  }

  lemma CollapseSeparatorStep(s: seq<char>)
    requires s != [] && IsSeparator(s[0])
    ensures RemoveHyphens(Collapse(s)) == RemoveHyphens(Collapse(s[SeparatorRun(s)..]))
  {
    var c := Collapse(s[SeparatorRun(s)..]);
    assert Collapse(s) == "-" + c;
    FilterAppend("-", c, IsNotHyphen);
    assert "-"[1..] == [];
  }

  /** A leading run of separators holds no letter or digit. */
  lemma AlnumsAfterSeparators(s: seq<char>)
    ensures Alnums(s) == Alnums(s[SeparatorRun(s)..])
  {
    var m := SeparatorRun(s);
    assert s == s[..m] + s[m..];
    FilterAppend(s[..m], s[m..], IsLowerAlnum);
    FilterEmpty(s[..m], IsLowerAlnum);
  }

  /** Deleting the hyphens at the ends keeps everything else. */
  lemma StripEdgeHyphensKeepsRest(s: seq<char>)
    ensures RemoveHyphens(StripEdgeHyphens(s)) == RemoveHyphens(s)
  {
    var i := LeadingRun(s, IsHyphen);
    var r := StripEdgeHyphens(s);
    var a, b := s[..i], s[i + |r|..];
    EdgeHyphens(s, i, r);
    RemoveHyphensPadded(a, r, b);
  }

  /** Step 6 removes a prefix and a suffix of hyphens. */
  lemma EdgeHyphens(s: seq<char>, i: nat, r: seq<char>)
    requires i == LeadingRun(s, IsHyphen) && r == StripEdgeHyphens(s)
    ensures i + |r| <= |s|
    ensures s == s[..i] + r + s[i + |r|..]
    ensures All(s[..i], IsHyphen) && All(s[i + |r|..], IsHyphen)
  {
    var j := i + |r|;
    SplitThree(s, i, j);
    SuffixAll(s, j, IsHyphen);
    PrefixAll(s, i, IsHyphen);
  }

  /** Hyphens around a piece are deleted along with the piece's own. */
  lemma RemoveHyphensPadded(a: seq<char>, r: seq<char>, b: seq<char>)
    requires All(a, IsHyphen) && All(b, IsHyphen)
    ensures RemoveHyphens(a + r + b) == RemoveHyphens(r)
  {
    FilterAppend(a + r, b, IsNotHyphen);
    FilterAppend(a, r, IsNotHyphen);
    HyphensOnly(a);
    HyphensOnly(b);
  }

  lemma HyphensOnly(s: seq<char>)
    requires All(s, IsHyphen)
    ensures RemoveHyphens(s) == []
  {
    FilterEmpty(s, IsNotHyphen);
  }

  /** The result's letters and digits are exactly those of the lower-cased
      intermediate string, in their order there: deleting the hyphens of the
      result gives the `[a-z0-9]` characters of that string. */
  lemma KebabCaseKeepsAlnums(input: seq<char>, t: UnicodeTables)
    ensures RemoveHyphens(KebabCase(input, t)) == Alnums(Lowered(input, t))
  {
    var l := Lowered(input, t);
    StripEdgeHyphensKeepsRest(Collapse(l));
    CollapseKeepsAlnums(l);
  }

  /** The result is empty exactly when the lower-cased intermediate string has
      no `[a-z0-9]` character (the empty, all-space and all-punctuation inputs). */
  lemma KebabCaseEmpty(input: seq<char>, t: UnicodeTables)
    ensures KebabCase(input, t) == [] <==> NoneOf(Lowered(input, t), IsLowerAlnum)
  {
    var l := Lowered(input, t);
    var r := KebabCase(input, t);
    KebabCaseKeepsAlnums(input, t);
    FilterEmpty(l, IsLowerAlnum);
    FilterEmpty(r, IsNotHyphen);
    if r != [] {
      assert !IsHyphen(r[0]);
    }
  }

  /** Canonical decomposition leaves every ASCII string unchanged, as the
      Unicode Character Database has it (no ASCII character has a decomposition). */
  ghost predicate NfdKeepsAscii(nfd: seq<char> -> seq<char>) {
    forall s :: All(s, IsAscii) ==> nfd(s) == s
  }

  /** Every step leaves a kebab-case string unchanged. */
  lemma StepsKeepKebab(s: seq<char>, t: UnicodeTables)
    requires IsKebab(s)
    requires t.nfd(s) == s
    ensures KebabCase(s, t) == s
  {
    forall k | 0 <= k < |s| ensures !IsCombiningMark(s[k]) && IsAscii(s[k]) {
      KebabCharIsInert(s[k]);
    }
    StripMarksKeepsUnmarked(s);
    if s != [] {
      KebabCharIsInert(s[0]);
      KebabCharIsInert(s[|s| - 1]);
    }
    TrimByKeepsTrimmed(s, IsWhitespace);
    LowerKeepsKebabChars(s, t.lowerNonAscii);
    CollapseKeepsCollapsed(s);
    TrimByKeepsTrimmed(s, IsHyphen);
  }

  /** Converting twice is converting once. */
  lemma KebabCaseIdempotent(input: seq<char>, t: UnicodeTables)
    requires NfdKeepsAscii(t.nfd)
    ensures KebabCase(KebabCase(input, t), t) == KebabCase(input, t)
  {
    var r := KebabCase(input, t);
    forall k | 0 <= k < |r| ensures IsAscii(r[k]) {
      KebabCharIsInert(r[k]);
    }
    StepsKeepKebab(r, t);
  }
}
