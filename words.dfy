/** An independent description of the result: kebab case is the words of the
    lower-cased string, the maximal runs of `[a-z0-9]`, joined by single hyphens. */
module WordView {
  import opened Chars
  import opened Seqs
  import opened Pipeline
  import opened KebabProperties

  /** Length of the run of `[a-z0-9]` characters that `s` starts with. */
  function WordLength(s: seq<char>): (n: nat)
    ensures n <= |s|
    ensures forall k :: 0 <= k < n ==> IsLowerAlnum(s[k])
    ensures n < |s| ==> IsSeparator(s[n])
  {
    if s == [] || IsSeparator(s[0]) then 0
    else
      var m := WordLength(s[1..]);
      assert forall k :: 1 <= k < m + 1 ==> s[k] == s[1..][k - 1];
      1 + m
  }

  /** WordLength is the generic leading run for the class `[a-z0-9]`, stated
      on its own so that its contract mentions `IsLowerAlnum` directly. */
  lemma {:induction false} WordLengthIsLeadingRun(s: seq<char>)
    ensures WordLength(s) == LeadingRun(s, IsLowerAlnum)
  {
    if s != [] && IsLowerAlnum(s[0]) {
      WordLengthIsLeadingRun(s[1..]);
    }
  }

  /** The maximal runs of `[a-z0-9]` characters of `s`, in order. */
  function Words(s: seq<char>): seq<seq<char>>
    decreases |s|
  {
    if s == [] then []
    else if IsLowerAlnum(s[0]) then
      var n := WordLength(s);
      [s[..n]] + Words(s[n..])
    else Words(s[SeparatorRun(s)..])
  }

  /** Each word is a non-empty run of `[a-z0-9]`. */
  lemma {:induction false} WordsAreRuns(s: seq<char>)
    ensures forall i :: 0 <= i < |Words(s)| ==> Words(s)[i] != [] && All(Words(s)[i], IsLowerAlnum)
    decreases |s|
  {
    if s == [] {
    } else if IsLowerAlnum(s[0]) {
      var n := WordLength(s);
      var rest := Words(s[n..]);
      WordsAreRuns(s[n..]);
      var ws := Words(s);
      assert ws == [s[..n]] + rest;
      forall i | 0 <= i < |ws|
        ensures ws[i] != [] && All(ws[i], IsLowerAlnum)
      {
        if i > 0 {
          assert ws[i] == rest[i - 1];
        }
      }
    } else {
      WordsAreRuns(s[SeparatorRun(s)..]);
    }
  }

  /** There are no words exactly when the string is all separators. */
  lemma {:induction false} WordsEmpty(s: seq<char>)
    ensures Words(s) == [] <==> All(s, IsSeparator)
    decreases |s|
  {
    if s != [] && !IsLowerAlnum(s[0]) {
      var m := SeparatorRun(s);
      var u := s[m..];
      WordsEmpty(u);
      AllAfterPrefix(s, m, IsSeparator);
    }
  }

  /** The words joined by single hyphens. */
  function Join(ws: seq<seq<char>>): seq<char> {
    if |ws| == 0 then []
    else if |ws| == 1 then ws[0]
    else ws[0] + "-" + Join(ws[1..])
  }

  /** Words joined by hyphens neither start nor end with a hyphen. */
  lemma {:induction false} JoinEdges(ws: seq<seq<char>>)
    requires forall i :: 0 <= i < |ws| ==> ws[i] != [] && All(ws[i], IsLowerAlnum)
    ensures Join(ws) == [] <==> ws == []
    ensures Join(ws) != [] ==> !IsHyphen(Join(ws)[0]) && !IsHyphen(Join(ws)[|Join(ws)| - 1])
  {
    if |ws| > 1 {
      var rest := Join(ws[1..]);
      JoinEdges(ws[1..]);
      assert Join(ws) == ws[0] + "-" + rest;
      assert Join(ws)[0] == ws[0][0];
      assert Join(ws)[|Join(ws)| - 1] == rest[|rest| - 1];
    } else if |ws| == 1 {
      assert Join(ws)[0] == ws[0][0];
    }
  }

  /** Joining a first word to the rest. */
  lemma JoinCons(w: seq<char>, ws: seq<seq<char>>)
    ensures Join([w] + ws) == if ws == [] then w else w + "-" + Join(ws)
  {
    if ws != [] {
      assert ([w] + ws)[1..] == ws;
    }
  }

  /** The hyphen that step 5 leaves at the start: one when `s` starts with a separator. */
  function LeadingHyphen(s: seq<char>): seq<char> {
    if s != [] && IsSeparator(s[0]) then "-" else []
  }

  /** The hyphen that step 5 leaves at the end: one when `s` has a word and ends with a separator. */
  function TrailingHyphen(s: seq<char>): seq<char> {
    if Words(s) != [] && IsSeparator(s[|s| - 1]) then "-" else []
  }

  /** A string that starts with a letter or digit collapses as its first word
      followed by the collapse of the rest. */
  lemma CollapseFirstWord(s: seq<char>)
    requires s != [] && IsLowerAlnum(s[0])
    ensures Collapse(s) == s[..WordLength(s)] + Collapse(s[WordLength(s)..])
  {
    var n := WordLength(s);
    SplitAt(s, n);
    assert All(s[..n], IsLowerAlnum) by {
      forall k | 0 <= k < n ensures IsLowerAlnum(s[..n][k]) {
        assert s[..n][k] == s[k];
      }
    }
    CollapseAlnumPrefix(s[..n], s[n..]);
  }

  /** The three parts that step 5 produces from `s`. */
  predicate CollapsesToParts(s: seq<char>) {
    Collapse(s) == LeadingHyphen(s) + Join(Words(s)) + TrailingHyphen(s)
  }

  /** Step 5 in terms of words: the words joined by hyphens, with one more
      hyphen at each end where the input has a separator there. */
  lemma {:induction false} CollapseIsJoinOfWords(s: seq<char>)
    ensures Collapse(s) == LeadingHyphen(s) + Join(Words(s)) + TrailingHyphen(s)
    decreases |s|
  {
    if s == [] {
    } else if IsLowerAlnum(s[0]) {
      var n := WordLength(s);
      CollapseIsJoinOfWords(s[n..]);
      CollapseFirstWord(s);
      StepAfterWord(s, s[..n], s[n..]);
    } else {
      var u := s[SeparatorRun(s)..];
      CollapseIsJoinOfWords(u);
      StepAfterSeparators(s, u);
    }
  }

  /** The induction step for a string `s` that starts with separators and continues with `u`. */
  lemma StepAfterSeparators(s: seq<char>, u: seq<char>)
    requires s != [] && !IsLowerAlnum(s[0])
    requires u == s[SeparatorRun(s)..]
    requires CollapsesToParts(u)
    ensures CollapsesToParts(s)
  {
    SeparatorsUnfold(s, u);
    if u == [] {
      OnlySeparators(s, u);
    } else {
      SeparatorsThenWord(s, u);
      SameTrailingHyphen(s, u);
      PrependHyphen(Collapse(u), Join(Words(u)), TrailingHyphen(u));
    }
  }

  /** Steps 5 and the word view both skip the leading separators. */
  lemma SeparatorsUnfold(s: seq<char>, u: seq<char>)
    requires s != [] && !IsLowerAlnum(s[0])
    requires u == s[SeparatorRun(s)..]
    ensures Collapse(s) == "-" + Collapse(u)
    ensures Words(s) == Words(u)
    ensures LeadingHyphen(s) == "-"
  {
  }

  /** The case of StepAfterSeparators where `s` is all separators. */
  lemma OnlySeparators(s: seq<char>, u: seq<char>)
    requires u == [] && Collapse(s) == "-" + Collapse(u)
    requires Words(s) == Words(u) && LeadingHyphen(s) == "-"
    ensures CollapsesToParts(s)
  {
    assert Collapse(u) == [] && Words(u) == [];
    assert TrailingHyphen(s) == [];
  }

  /** The case of StepAfterSeparators where a word follows them. */
  lemma SeparatorsThenWord(s: seq<char>, u: seq<char>)
    requires s != [] && u != [] && u == s[SeparatorRun(s)..]
    ensures LeadingHyphen(u) == [] && u[|u| - 1] == s[|s| - 1]
  {
    SplitAt(s, SeparatorRun(s));
  }

  /** Two strings with the same words and the same last character leave the same trailing hyphen. */
  lemma SameTrailingHyphen(s: seq<char>, u: seq<char>)
    requires s != [] && u != [] && s[|s| - 1] == u[|u| - 1]
    requires Words(s) == Words(u)
    ensures TrailingHyphen(u) == TrailingHyphen(s)
  {
  }

  /** Proof step of StepAfterSeparators: the associativity it needs, stated on
      plain variables so that the solver does not unfold Collapse or Words. */
  lemma PrependHyphen(c: seq<char>, j: seq<char>, t: seq<char>)
    requires c == [] + j + t
    ensures "-" + c == "-" + j + t
  {
  }

  /** The induction step for a string `s` that starts with the word `w` and continues with `v`. */
  lemma StepAfterWord(s: seq<char>, w: seq<char>, v: seq<char>)
    requires s != [] && IsLowerAlnum(s[0])
    requires w == s[..WordLength(s)] && v == s[WordLength(s)..]
    requires Collapse(s) == w + Collapse(v)
    requires CollapsesToParts(v)
    ensures CollapsesToParts(s)
  {
    var n := WordLength(s);
    SplitAt(s, n);
    assert Words(s) == [w] + Words(v);
    assert LeadingHyphen(s) == [];
    JoinCons(w, Words(v));
    if v == [] {
      LastWord(s, w, v);
    } else {
      assert LeadingHyphen(v) == "-";
      if Words(v) == [] {
        LoneTrailingRun(s, w, v);
      } else {
        assert TrailingHyphen(v) == TrailingHyphen(s);
        WordThenMore(Collapse(s), w, Collapse(v), Join(Words(v)), TrailingHyphen(s));
      }
    }
  }

  /** The case of StepAfterWord where `w` is all of `s`. */
  lemma LastWord(s: seq<char>, w: seq<char>, v: seq<char>)
    requires s != [] && s == w + v && v == [] && IsLowerAlnum(s[|s| - 1])
    requires Collapse(s) == w + Collapse(v)
    requires Words(s) == [w] + Words(v) && LeadingHyphen(s) == []
    ensures CollapsesToParts(s)
  {
    assert s == w;
    assert Words(v) == [];
    assert Join(Words(s)) == w;
    assert TrailingHyphen(s) == [];
    assert Collapse(s) == w;
  }

  /** The case of StepAfterWord where only separators follow `w`. */
  lemma LoneTrailingRun(s: seq<char>, w: seq<char>, v: seq<char>)
    requires s == w + v && v != [] && Words(v) == [] && v[|v| - 1] == s[|s| - 1]
    requires Collapse(s) == w + Collapse(v)
    requires CollapsesToParts(v) && LeadingHyphen(v) == "-"
    requires Words(s) == [w] + Words(v) && LeadingHyphen(s) == []
    ensures CollapsesToParts(s)
  {
    WordsEmpty(v);
    assert IsSeparator(s[|s| - 1]);
    assert TrailingHyphen(v) == [];
    assert Join(Words(v)) == [];
    assert Collapse(v) == "-";
    assert Join(Words(s)) == w;
    assert TrailingHyphen(s) == "-";
    assert Collapse(s) == w + "-";
  }

  /** Proof step of StepAfterWord, for the case where more words follow `w`:
      the associativity it needs, stated on plain variables so that the solver
      does not unfold Collapse or Words. */
  lemma WordThenMore(cs: seq<char>, w: seq<char>, cv: seq<char>, j: seq<char>, t: seq<char>)
    requires cs == w + cv && cv == "-" + j + t
    ensures cs == [] + (w + "-" + j) + t
  {
  }

  /** The whole pipeline: the result is the words of the lower-cased
      intermediate string joined by single hyphens. */
  lemma KebabCaseIsJoinOfWords(input: seq<char>, t: UnicodeTables)
    ensures KebabCase(input, t) == Join(Words(Lowered(input, t)))
  {
    var l := Lowered(input, t);
    var lh, j, th := LeadingHyphen(l), Join(Words(l)), TrailingHyphen(l);
    CollapseIsJoinOfWords(l);
    WordsAreRuns(l);
    JoinEdges(Words(l));
    assert All(lh, IsHyphen) && All(th, IsHyphen);
    TrimByPadded(lh, j, th, IsHyphen);
    assert KebabCase(input, t) == TrimBy(lh + j + th, IsHyphen);
  }
}
