/** The examples given in the documentation of `kebabCase`, stated for every
    Unicode table whose decomposition of the input is the canonical one. Each
    example is split into the facts about its intermediate strings, one step
    per lemma, and a common lemma that chains them. */
module Examples {
  import opened Chars
  import opened Seqs
  import opened Pipeline
  import opened KebabProperties

  /** `lowered` is the ASCII lower-case mapping of `base`, an ASCII string
      without white space at its ends. */
  predicate LowersTo(base: seq<char>, lowered: seq<char>) {
    && All(base, IsAscii)
    && (base == [] || (!IsWhitespace(base[0]) && !IsWhitespace(base[|base| - 1])))
    && |lowered| == |base|
    && forall k :: 0 <= k < |base| ==> lowered[k] == AsciiLower(base[k])
  }

  /** Steps 1 to 4 on an input that is `base` once its marks are gone: steps 3
      and 4 then give the ASCII lower-case mapping of `base`. */
  lemma LoweredAscii(input: seq<char>, t: UnicodeTables, base: seq<char>, lowered: seq<char>)
    requires StripMarks(t.nfd(input)) == base
    requires LowersTo(base, lowered)
    ensures Lowered(input, t) == lowered
  {
    TrimByKeepsTrimmed(base, IsWhitespace);
  }

  /** The whole pipeline on such an input, when step 5 gives a string
      without hyphens at its ends: step 6 then keeps it. */
  lemma AsciiExample(input: seq<char>, t: UnicodeTables, base: seq<char>, lowered: seq<char>, result: seq<char>)
    requires StripMarks(t.nfd(input)) == base
    requires LowersTo(base, lowered)
    requires Collapse(lowered) == result
    requires NoEdgeHyphen(result)
    ensures KebabCase(input, t) == result
  {
    LoweredAscii(input, t, base, lowered);
    TrimByKeepsTrimmed(result, IsHyphen);
  }

  /** The whole pipeline on an input that is white space only once its marks are gone. */
  lemma BlankExample(input: seq<char>, t: UnicodeTables, base: seq<char>)
    requires StripMarks(t.nfd(input)) == base
    requires All(base, IsWhitespace)
    ensures KebabCase(input, t) == []
  {
    assert Lowered(input, t) == [];
    KebabCaseEmpty(input, t);
  }

  /** The whole pipeline on an input whose lowered form has no letter or digit. */
  lemma PunctuationExample(input: seq<char>, t: UnicodeTables, base: seq<char>, lowered: seq<char>)
    requires StripMarks(t.nfd(input)) == base
    requires LowersTo(base, lowered)
    requires NoneOf(lowered, IsLowerAlnum)
    ensures KebabCase(input, t) == []
  {
    LoweredAscii(input, t, base, lowered);
    KebabCaseEmpty(input, t);
  }

  /** `s` is the word `w`, a run of separators and a `rest` that is empty or
      starts with a letter or digit; `r` is `w`, one hyphen and `done`. */
  predicate WordThenRun(s: seq<char>, w: seq<char>, run: seq<char>, rest: seq<char>, done: seq<char>, r: seq<char>) {
    && s == w + (run + rest)
    && All(w, IsLowerAlnum)
    && run != [] && All(run, IsSeparator)
    && (rest == [] || IsLowerAlnum(rest[0]))
    && r == w + "-" + done
  }

  /** Step 5 on such a string, when it turns `rest` into `done`. */
  lemma CollapseWordThenRun(s: seq<char>, w: seq<char>, run: seq<char>, rest: seq<char>, done: seq<char>, r: seq<char>)
    requires WordThenRun(s, w, run, rest, done, r)
    requires Collapse(rest) == done
    ensures Collapse(s) == r
  {
    CollapseAlnumPrefix(w, run + rest);
    CollapseSeparatorRun(run, rest);
  }

  /** Step 5 on a last word. */
  lemma CollapseLastWord(w: seq<char>)
    requires All(w, IsLowerAlnum)
    ensures Collapse(w) == w
  {
    CollapseAlnumPrefix(w, []);
    assert w + [] == w;
  }

  /** Step 2 drops a combining mark between two pieces. */
  lemma StripMarksDrop(a: seq<char>, m: char, b: seq<char>)
    requires IsCombiningMark(m)
    ensures StripMarks(a + [m] + b) == StripMarks(a) + StripMarks(b)
  {
    StripMarksAppend(a + [m], b);
    StripMarksAppend(a, [m]);
    StripMarksChar(m);
  }

  /** `s` is the unmarked `a`, the mark `m`, the unmarked `b`, the mark `n`
      and the unmarked `c`; `r` is `a`, `b` and `c`. */
  predicate TwoMarks(s: seq<char>, a: seq<char>, m: char, b: seq<char>, n: char, c: seq<char>, r: seq<char>) {
    && s == a + [m] + (b + [n] + c)
    && NoneOf(a, IsCombiningMark) && NoneOf(b, IsCombiningMark) && NoneOf(c, IsCombiningMark)
    && IsCombiningMark(m) && IsCombiningMark(n)
    && r == a + (b + c)
  }

  /** Step 2 on such a string removes the two marks. */
  lemma StripTwoMarks(s: seq<char>, a: seq<char>, m: char, b: seq<char>, n: char, c: seq<char>, r: seq<char>)
    requires TwoMarks(s, a, m, b, n, c, r)
    ensures StripMarks(s) == r
  {
    StripMarksDrop(a, m, b + [n] + c);
    StripMarksDrop(b, n, c);
    StripMarksKeepsUnmarked(a);
    StripMarksKeepsUnmarked(b);
    StripMarksKeepsUnmarked(c);
  }

  /** Step 2 on an unmarked string followed by one mark removes the mark. */
  lemma StripFinalMark(s: seq<char>, a: seq<char>, m: char)
    requires s == a + [m] && NoneOf(a, IsCombiningMark) && IsCombiningMark(m)
    ensures StripMarks(s) == a
  {
    StripMarksDrop(a, m, []);
    StripMarksKeepsUnmarked(a);
    assert a + [m] + [] == s;
    assert StripMarks([]) == [];
    assert a + [] == a;
  }

  // Each example below is proved in two parts. Lemmas named after the example
  // and a step (`…Marks`: the input has no combining mark; `…Lowers`: its
  // lower-case form; `…Run1`, `…Run2`, `…Word`: how step 5 splits it into a
  // word, a separator run and the rest) state only facts about string
  // literals and mention no pipeline function. The example lemma itself then
  // chains those facts through the generic lemmas above. Keeping literal
  // facts apart from the recursive pipeline functions keeps the solver from
  // unfolding those functions on the literals.

  // "Hello World", the first documented example.

  lemma HelloWorldMarks()
    ensures NoneOf("Hello World", IsCombiningMark)
  {
  }

  lemma HelloWorldLowers()
    ensures LowersTo("Hello World", "hello world") && NoEdgeHyphen("hello-world")
  {
  }

  lemma HelloWorldRun1()
    ensures All("world", IsLowerAlnum)
    ensures WordThenRun("hello world", "hello", " ", "world", "world", "hello-world")
  {
  }

  lemma HelloWorld(t: UnicodeTables)
    requires t.nfd("Hello World") == "Hello World"
    ensures KebabCase("Hello World", t) == "hello-world"
  {
    HelloWorldMarks();
    HelloWorldLowers();
    HelloWorldRun1();
    StripMarksKeepsUnmarked("Hello World");
    CollapseLastWord("world");
    CollapseWordThenRun("hello world", "hello", " ", "world", "world", "hello-world");
    AsciiExample("Hello World", t, "Hello World", "hello world", "hello-world");
  }

  // "Hello   World": a run of several spaces becomes one hyphen.

  lemma HelloSpacesWorldMarks()
    ensures NoneOf("Hello   World", IsCombiningMark)
  {
  }

  lemma HelloSpacesWorldLowers()
    ensures LowersTo("Hello   World", "hello   world") && NoEdgeHyphen("hello-world")
  {
  }

  lemma HelloSpacesWorldRun1()
    ensures All("world", IsLowerAlnum)
    ensures WordThenRun("hello   world", "hello", "   ", "world", "world", "hello-world")
  {
  }

  lemma HelloSpacesWorld(t: UnicodeTables)
    requires t.nfd("Hello   World") == "Hello   World"
    ensures KebabCase("Hello   World", t) == "hello-world"
  {
    HelloSpacesWorldMarks();
    HelloSpacesWorldLowers();
    HelloSpacesWorldRun1();
    StripMarksKeepsUnmarked("Hello   World");
    CollapseLastWord("world");
    CollapseWordThenRun("hello   world", "hello", "   ", "world", "world", "hello-world");
    AsciiExample("Hello   World", t, "Hello   World", "hello   world", "hello-world");
  }

  // "This_is_a_test": underscores separate words too.

  lemma ThisIsATestMarks()
    ensures NoneOf("This_is_a_test", IsCombiningMark)
  {
  }

  lemma ThisIsATestLowers()
    ensures LowersTo("This_is_a_test", "this_is_a_test") && NoEdgeHyphen("this-is-a-test")
  {
  }

  lemma ThisIsATestRun1()
    ensures All("test", IsLowerAlnum)
    ensures WordThenRun("a_test", "a", "_", "test", "test", "a-test")
  {
  }

  lemma ThisIsATestRun2()
    ensures WordThenRun("is_a_test", "is", "_", "a_test", "a-test", "is-a-test")
  {
  }

  lemma ThisIsATestRun3()
    ensures WordThenRun("this_is_a_test", "this", "_", "is_a_test", "is-a-test", "this-is-a-test")
  {
  }

  lemma ThisIsATest(t: UnicodeTables)
    requires t.nfd("This_is_a_test") == "This_is_a_test"
    ensures KebabCase("This_is_a_test", t) == "this-is-a-test"
  {
    ThisIsATestMarks();
    ThisIsATestLowers();
    ThisIsATestRun1();
    ThisIsATestRun2();
    ThisIsATestRun3();
    StripMarksKeepsUnmarked("This_is_a_test");
    CollapseLastWord("test");
    CollapseWordThenRun("a_test", "a", "_", "test", "test", "a-test");
    CollapseWordThenRun("is_a_test", "is", "_", "a_test", "a-test", "is-a-test");
    CollapseWordThenRun("this_is_a_test", "this", "_", "is_a_test", "is-a-test", "this-is-a-test");
    AsciiExample("This_is_a_test", t, "This_is_a_test", "this_is_a_test", "this-is-a-test");
  }

  // "C'est un éléphant" with each é composed (U+00E9), which canonical
  // decomposition turns into e followed by U+0301 COMBINING ACUTE ACCENT.

  lemma CestUnElephantMarks()
    ensures TwoMarks("C'est un e\U{301}le\U{301}phant", "C'est un e", '\U{301}', "le", '\U{301}', "phant", "C'est un elephant")
  {
  }

  lemma CestUnElephantLowers()
    ensures LowersTo("C'est un elephant", "c'est un elephant") && NoEdgeHyphen("c-est-un-elephant")
  {
  }

  lemma CestUnElephantRun1()
    ensures All("elephant", IsLowerAlnum)
    ensures WordThenRun("un elephant", "un", " ", "elephant", "elephant", "un-elephant")
  {
  }

  lemma CestUnElephantRun2()
    ensures WordThenRun("est un elephant", "est", " ", "un elephant", "un-elephant", "est-un-elephant")
  {
  }

  lemma CestUnElephantRun3()
    ensures WordThenRun("c'est un elephant", "c", "'", "est un elephant", "est-un-elephant", "c-est-un-elephant")
  {
  }

  lemma CestUnElephant(t: UnicodeTables)
    requires t.nfd("C'est un \U{E9}l\U{E9}phant") == "C'est un e\U{301}le\U{301}phant"
    ensures KebabCase("C'est un \U{E9}l\U{E9}phant", t) == "c-est-un-elephant"
  {
    CestUnElephantMarks();
    CestUnElephantLowers();
    CestUnElephantRun1();
    CestUnElephantRun2();
    CestUnElephantRun3();
    StripTwoMarks("C'est un e\U{301}le\U{301}phant", "C'est un e", '\U{301}', "le", '\U{301}', "phant", "C'est un elephant");
    CollapseLastWord("elephant");
    CollapseWordThenRun("un elephant", "un", " ", "elephant", "elephant", "un-elephant");
    CollapseWordThenRun("est un elephant", "est", " ", "un elephant", "un-elephant", "est-un-elephant");
    CollapseWordThenRun("c'est un elephant", "c", "'", "est un elephant", "est-un-elephant", "c-est-un-elephant");
    AsciiExample("C'est un \U{E9}l\U{E9}phant", t, "C'est un elephant", "c'est un elephant", "c-est-un-elephant");
  }

  // "éléphant" with each é composed.

  lemma ElephantMarks()
    ensures TwoMarks("e\U{301}le\U{301}phant", "e", '\U{301}', "le", '\U{301}', "phant", "elephant")
  {
  }

  lemma ElephantLowers()
    ensures LowersTo("elephant", "elephant") && NoEdgeHyphen("elephant")
  {
  }

  lemma ElephantWord()
    ensures All("elephant", IsLowerAlnum)
  {
  }

  lemma Elephant(t: UnicodeTables)
    requires t.nfd("\U{E9}l\U{E9}phant") == "e\U{301}le\U{301}phant"
    ensures KebabCase("\U{E9}l\U{E9}phant", t) == "elephant"
  {
    ElephantMarks();
    ElephantLowers();
    ElephantWord();
    StripTwoMarks("e\U{301}le\U{301}phant", "e", '\U{301}', "le", '\U{301}', "phant", "elephant");
    CollapseLastWord("elephant");
    AsciiExample("\U{E9}l\U{E9}phant", t, "elephant", "elephant", "elephant");
  }

  // "café" with its é composed.

  lemma CafeMarks()
    ensures "cafe\U{301}" == "cafe" + ['\U{301}'] && NoneOf("cafe", IsCombiningMark) && IsCombiningMark('\U{301}')
  {
  }

  lemma CafeLowers()
    ensures LowersTo("cafe", "cafe") && NoEdgeHyphen("cafe")
  {
  }

  lemma CafeWord()
    ensures All("cafe", IsLowerAlnum)
  {
  }

  lemma Cafe(t: UnicodeTables)
    requires t.nfd("caf\U{E9}") == "cafe\U{301}"
    ensures KebabCase("caf\U{E9}", t) == "cafe"
  {
    CafeMarks();
    CafeLowers();
    CafeWord();
    StripFinalMark("cafe\U{301}", "cafe", '\U{301}');
    CollapseLastWord("cafe");
    AsciiExample("caf\U{E9}", t, "cafe", "cafe", "cafe");
  }

  // Inputs without letters or digits give the empty string.

  lemma EmptyInput(t: UnicodeTables)
    requires t.nfd("") == ""
    ensures KebabCase("", t) == []
  {
    StripMarksKeepsUnmarked("");
    BlankExample("", t, "");
  }

  // The literal facts about `"   "`: no mark, and all white space.
  lemma SpacesFacts()
    ensures NoneOf("   ", IsCombiningMark) && All("   ", IsWhitespace)
  {
  }

  lemma SpacesOnly(t: UnicodeTables)
    requires t.nfd("   ") == "   "
    ensures KebabCase("   ", t) == []
  {
    SpacesFacts();
    StripMarksKeepsUnmarked("   ");
    BlankExample("   ", t, "   ");
  }

  // The literal facts about `"---"`: no mark, lower-cased to itself, no letter or digit.
  lemma HyphensFacts()
    ensures NoneOf("---", IsCombiningMark) && LowersTo("---", "---") && NoneOf("---", IsLowerAlnum)
  {
  }

  lemma HyphensOnlyInput(t: UnicodeTables)
    requires t.nfd("---") == "---"
    ensures KebabCase("---", t) == []
  {
    HyphensFacts();
    StripMarksKeepsUnmarked("---");
    PunctuationExample("---", t, "---", "---");
  }

  /** A string already in kebab case is its own conversion. */
  lemma AlreadyKebab(t: UnicodeTables)
    requires t.nfd("already-kebab-case") == "already-kebab-case"
    ensures KebabCase("already-kebab-case", t) == "already-kebab-case"
  {
    StepsKeepKebab("already-kebab-case", t);
  }
}
