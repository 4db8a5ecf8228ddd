/** Generic sequence operations that the pipeline steps are built from: keeping
    the elements that satisfy a predicate, and trimming the elements that
    satisfy it off both ends. */
module Seqs {

  /** Every element of `s` satisfies `p`. */
  predicate All<T>(s: seq<T>, p: T -> bool) {
    forall k :: 0 <= k < |s| ==> p(s[k])
  }

  /** No element of `s` satisfies `p`. */
  predicate NoneOf<T>(s: seq<T>, p: T -> bool) {
    forall k :: 0 <= k < |s| ==> !p(s[k])
  }

  /** The elements of `s` that satisfy `p`, in their order in `s`. */
  function Filter<T(==,!new)>(s: seq<T>, p: T -> bool): seq<T> {
    if s == [] then []
    else (if p(s[0]) then [s[0]] else []) + Filter(s[1..], p)
  }

  /** What survives the filter satisfies `p`, and nothing is added. */
  lemma {:induction false} FilterShape<T(!new)>(s: seq<T>, p: T -> bool)
    ensures |Filter(s, p)| <= |s|
    ensures All(Filter(s, p), p)
  {
    if s != [] {
      FilterShape(s[1..], p);
    }
  }

  /** Filtering keeps every occurrence of every element that satisfies `p`
      and no occurrence of any other. */
  lemma {:induction false} FilterCounts<T(!new)>(s: seq<T>, p: T -> bool)
    ensures forall x :: p(x) ==> multiset(Filter(s, p))[x] == multiset(s)[x]
    ensures forall x :: !p(x) ==> multiset(Filter(s, p))[x] == 0
  {
    if s != [] {
      FilterCounts(s[1..], p);
      var x := if p(s[0]) then [s[0]] else [];
      assert Filter(s, p) == x + Filter(s[1..], p);
      assert multiset(Filter(s, p)) == multiset(x) + multiset(Filter(s[1..], p));
      assert s == [s[0]] + s[1..];
      assert multiset(s) == multiset([s[0]]) + multiset(s[1..]);
    }
  }

  /** Filtering distributes over concatenation; with the one-element case this
      pins Filter down completely, and with it the order of what survives. */
  lemma {:induction false} FilterAppend<T(!new)>(a: seq<T>, b: seq<T>, p: T -> bool)
    ensures Filter(a + b, p) == Filter(a, p) + Filter(b, p)
  {
    if a == [] {
      assert a + b == b;
    } else {
      var x := if p(a[0]) then [a[0]] else [];
      var r, q := Filter(a[1..], p), Filter(b, p);
      calc {
        Filter(a + b, p);
      == { assert (a + b)[0] == a[0]; assert (a + b)[1..] == a[1..] + b; }
        x + Filter(a[1..] + b, p);
      == { FilterAppend(a[1..], b, p); }
        x + (r + q);
      == { assert x + (r + q) == (x + r) + q; }
        Filter(a, p) + q;
      }
    }
  }

  /** A sequence all of whose elements satisfy `p` is its own filter. */
  lemma {:induction false} FilterKeepsAll<T(!new)>(s: seq<T>, p: T -> bool)
    requires All(s, p)
    ensures Filter(s, p) == s
  {
    if s != [] {
      FilterKeepsAll(s[1..], p);
    }
  }

  /** The filter is empty exactly when no element satisfies `p`. */
  lemma {:induction false} FilterEmpty<T(!new)>(s: seq<T>, p: T -> bool)
    ensures Filter(s, p) == [] <==> NoneOf(s, p)
  {
    if s != [] {
      FilterEmpty(s[1..], p);
      if NoneOf(s, p) {
        assert NoneOf(s[1..], p) by {
          forall k | 0 <= k < |s[1..]| ensures !p(s[1..][k]) {
            assert s[1..][k] == s[k + 1];
          }
        }
      } else if !p(s[0]) {
        assert !NoneOf(s[1..], p) by {
          var k :| 0 <= k < |s| && p(s[k]);
          assert s[1..][k - 1] == s[k];
        }
      }
    }
  }

  /** Length of the longest prefix of `s` whose elements satisfy `p`. */
  function LeadingRun<T>(s: seq<T>, p: T -> bool): (n: nat)
    ensures n <= |s|
    ensures forall k :: 0 <= k < n ==> p(s[k])
    ensures n < |s| ==> !p(s[n])
  {
    if s == [] || !p(s[0]) then 0
    else
      var m := LeadingRun(s[1..], p);
      assert forall k :: 1 <= k < m + 1 ==> s[k] == s[1..][k - 1];
      1 + m
  }

  /** Length of the longest suffix of `s` whose elements satisfy `p`. */
  function TrailingRun<T>(s: seq<T>, p: T -> bool): (n: nat)
    ensures n <= |s|
    ensures forall k :: |s| - n <= k < |s| ==> p(s[k])
    ensures n < |s| ==> !p(s[|s| - 1 - n])
  {
    if s == [] || !p(s[|s| - 1]) then 0
    else
      var m := TrailingRun(s[..|s| - 1], p);
      assert forall k :: |s| - 1 - m <= k < |s| - 1 ==> s[k] == s[..|s| - 1][k];
      1 + m
  }

  /** `s` with its longest leading and longest trailing runs of `p`-elements removed. */
  function TrimBy<T>(s: seq<T>, p: T -> bool): seq<T> {
    var i := LeadingRun(s, p);
    s[i..|s| - TrailingRun(s[i..], p)]
  }

  /** What trimming leaves is the piece of `s` that follows the leading run,
      everything after it satisfies `p`, and it is empty or starts and ends
      with an element that does not satisfy `p`. */
  lemma TrimByShape<T>(s: seq<T>, p: T -> bool)
    ensures TrimBy(s, p) == [] || (!p(TrimBy(s, p)[0]) && !p(TrimBy(s, p)[|TrimBy(s, p)| - 1]))
    ensures LeadingRun(s, p) + |TrimBy(s, p)| <= |s|
    ensures TrimBy(s, p) == s[LeadingRun(s, p)..LeadingRun(s, p) + |TrimBy(s, p)|]
    ensures forall k :: LeadingRun(s, p) + |TrimBy(s, p)| <= k < |s| ==> p(s[k])
  {
    var i := LeadingRun(s, p);
    var t := s[i..];
    var j := TrailingRun(t, p);
    var r := TrimBy(s, p);
    assert r == s[i..|s| - j];
    assert |r| == |t| - j;
    forall k | i + |r| <= k < |s|
      ensures p(s[k])
    {
      assert s[k] == t[k - i];
    }
    if r != [] {
      assert r[0] == s[i] == t[0];
      assert r[|r| - 1] == t[|t| - 1 - j];
    }
  }

  /** Splitting a sequence at `n`, and what the two pieces start and end with. */
  lemma SplitAt<T>(s: seq<T>, n: nat)
    requires n <= |s|
    ensures s == s[..n] + s[n..]
    ensures n < |s| ==> s[n..][0] == s[n] && s[n..][|s| - n - 1] == s[|s| - 1]
    ensures 0 < n ==> s[..n][0] == s[0] && s[..n][n - 1] == s[n - 1]
  {
  }

  /** Cutting a sequence at two points. */
  lemma SplitThree<T>(s: seq<T>, i: nat, j: nat)
    requires i <= j <= |s|
    ensures s == s[..i] + s[i..j] + s[j..]
  {
    assert s[..j] == s[..i] + s[i..j];
    assert s == s[..j] + s[j..];
  }

  /** A prefix whose elements all satisfy `p`, as a sequence. */
  lemma PrefixAll<T>(s: seq<T>, n: nat, p: T -> bool)
    requires n <= |s| && forall k :: 0 <= k < n ==> p(s[k])
    ensures All(s[..n], p)
  {
    forall k | 0 <= k < n ensures p(s[..n][k]) {
      assert s[..n][k] == s[k];
    }
  }

  /** A suffix whose elements all satisfy `p`, as a sequence. */
  lemma SuffixAll<T>(s: seq<T>, n: nat, p: T -> bool)
    requires n <= |s| && forall k :: n <= k < |s| ==> p(s[k])
    ensures All(s[n..], p)
  {
    forall k | 0 <= k < |s| - n ensures p(s[n..][k]) {
      assert s[n..][k] == s[n + k];
    }
  }

  /** Behind a prefix of `p`-elements, all of `s` satisfies `p` exactly when the rest does. */
  lemma AllAfterPrefix<T>(s: seq<T>, n: nat, p: T -> bool)
    requires n <= |s| && forall k :: 0 <= k < n ==> p(s[k])
    ensures All(s, p) <==> All(s[n..], p)
  {
    forall k | n <= k < |s| ensures s[k] == s[n..][k - n] { }
  }

  /** The leading run of `p`-elements in `a + rest` is exactly `a` when `rest`
      does not start with a `p`-element. */
  lemma {:induction false} LeadingRunOfPadded<T>(a: seq<T>, rest: seq<T>, p: T -> bool)
    requires All(a, p)
    requires rest == [] || !p(rest[0])
    ensures LeadingRun(a + rest, p) == |a|
  {
    if a == [] {
      assert a + rest == rest;
    } else {
      assert (a + rest)[0] == a[0];
      assert (a + rest)[1..] == a[1..] + rest;
      LeadingRunOfPadded(a[1..], rest, p);
    }
  }

  /** The trailing run of `p`-elements in `rest + b` is exactly `b` when `rest`
      does not end with a `p`-element. */
  lemma {:induction false} TrailingRunOfPadded<T>(rest: seq<T>, b: seq<T>, p: T -> bool)
    requires All(b, p)
    requires rest == [] || !p(rest[|rest| - 1])
    ensures TrailingRun(rest + b, p) == |b|
  {
    if b == [] {
      assert rest + b == rest;
    } else {
      var s := rest + b;
      assert s[|s| - 1] == b[|b| - 1];
      assert s[..|s| - 1] == rest + b[..|b| - 1];
      TrailingRunOfPadded(rest, b[..|b| - 1], p);
    }
  }

  /** Trimming removes exactly the padding: whatever `p`-elements surround a
      piece that starts and ends with non-`p` elements, trimming returns the piece. */
  lemma TrimByPadded<T>(a: seq<T>, w: seq<T>, b: seq<T>, p: T -> bool)
    requires All(a, p) && All(b, p)
    requires w == [] || (!p(w[0]) && !p(w[|w| - 1]))
    ensures TrimBy(a + w + b, p) == w
  {
    var s := a + w + b;
    if w == [] {
      assert s == a + b;
      assert All(a + b, p) by {
        forall k | 0 <= k < |a + b| ensures p((a + b)[k]) {
          if k >= |a| { assert (a + b)[k] == b[k - |a|]; }
        }
      }
      LeadingRunOfPadded(a + b, [], p);
      assert a + b + [] == a + b;
    } else {
      assert s == a + (w + b);
      LeadingRunOfPadded(a, w + b, p);
      assert s[|a|..] == w + b;
      TrailingRunOfPadded(w, b, p);
    }
  }

  /** A sequence that already starts and ends with non-`p` elements is not trimmed. */
  lemma TrimByKeepsTrimmed<T>(s: seq<T>, p: T -> bool)
    requires s == [] || (!p(s[0]) && !p(s[|s| - 1]))
    ensures TrimBy(s, p) == s
  {
    TrimByPadded([], s, [], p);
    assert [] + s + [] == s;
  }

  /** Trimming leaves nothing exactly when every element satisfies `p`. */
  lemma TrimByEmpty<T>(s: seq<T>, p: T -> bool)
    ensures TrimBy(s, p) == [] <==> All(s, p)
  {
    TrimByShape(s, p);
    if All(s, p) {
      TrimByPadded(s, [], [], p);
      assert s + [] + [] == s;
    }
  }
}
