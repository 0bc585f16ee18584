/** Order-preserving selection over sequences: the model of boolean-mask indexing
    (`frame[mask]`), which keeps the rows whose mask entry is true, in their original
    order, and counts of the rows a mask keeps. */
module Sequences {

  /** A non-empty sequence is all but its last element followed by its last element. */
  lemma {:induction false} SplitLast<T>(s: seq<T>)
    requires |s| > 0
    ensures s == s[..|s| - 1] + [s[|s| - 1]]
  {
  }

  /** The elements of `s` satisfying `p`, in their original order. Built from the
      front of the sequence to the back, one element at a time. */
  function Select<T>(s: seq<T>, p: T -> bool): (r: seq<T>)
    ensures |r| <= |s|
    ensures forall x :: x in r ==> x in s && p(x)
    ensures multiset(r) <= multiset(s)
  {
    if |s| == 0 then []
    else
      var init, last := s[..|s| - 1], s[|s| - 1];
      SplitLast(s);
      var kept := Select(init, p);
      if p(last) then kept + [last] else kept
  }

  /** Number of elements of `s` satisfying `p` (`len(frame[mask])`). */
  function Count<T>(s: seq<T>, p: T -> bool): (n: nat)
    ensures n <= |s|
  {
    |Select(s, p)|
  }

  /** `sub` is `s` read at the strictly increasing positions `idx`: nothing is
      invented, nothing is duplicated and the relative order is kept. */
  ghost predicate SubsequenceAt<T>(sub: seq<T>, s: seq<T>, idx: seq<nat>)
  {
    && |idx| == |sub|
    && (forall i :: 0 <= i < |idx| ==> idx[i] < |s| && sub[i] == s[idx[i]])
    && (forall i, j :: 0 <= i < j < |idx| ==> idx[i] < idx[j])
  }

  /** The positions of `s` whose element satisfies `p`, in increasing order. */
  function Positions<T>(s: seq<T>, p: T -> bool): (idx: seq<nat>)
    ensures forall i :: 0 <= i < |idx| ==> idx[i] < |s| && p(s[idx[i]])
    ensures forall i, j :: 0 <= i < j < |idx| ==> idx[i] < idx[j]
    ensures forall j {:trigger j in idx} :: 0 <= j < |s| && p(s[j]) ==> j in idx
  {
    if |s| == 0 then []
    else
      var before := Positions(s[..|s| - 1], p);
      if p(s[|s| - 1]) then before + [|s| - 1] else before
  }

  /** A position is listed by `Positions` if and only if its element passes the test. */
  lemma {:induction false} PositionsExact<T>(s: seq<T>, p: T -> bool)
    ensures forall j {:trigger j in Positions(s, p)} :: 0 <= j < |s| ==> (j in Positions(s, p) <==> p(s[j]))
  {
    var idx := Positions(s, p);
    forall j | 0 <= j < |s| && j in idx ensures p(s[j]) {
      var i :| 0 <= i < |idx| && idx[i] == j;
    }
  }

  /** An index correspondence with all but the last element of `s` extends to `s`,
      whether or not the last element is read. */
  lemma {:induction false} ReadAtExtend<T>(sub: seq<T>, idx: seq<nat>, s: seq<T>, read: bool)
    requires |s| > 0
    requires |sub| == |idx|
    requires forall i :: 0 <= i < |idx| ==> idx[i] < |s| - 1 && sub[i] == s[..|s| - 1][idx[i]]
    ensures var sub', idx' := if read then sub + [s[|s| - 1]] else sub, if read then idx + [|s| - 1] else idx;
      && |sub'| == |idx'|
      && forall i :: 0 <= i < |idx'| ==> idx'[i] < |s| && sub'[i] == s[idx'[i]]
  {
  }

  /** The `i`-th selected element is the element at the `i`-th listed position. */
  lemma {:induction false} SelectAtPositions<T>(s: seq<T>, p: T -> bool)
    ensures |Select(s, p)| == |Positions(s, p)|
    ensures forall i :: 0 <= i < |Positions(s, p)| ==> Select(s, p)[i] == s[Positions(s, p)[i]]
  {
    if |s| > 0 {
      var init := s[..|s| - 1];
      SelectAtPositions(init, p);
      ReadAtExtend(Select(init, p), Positions(init, p), s, p(s[|s| - 1]));
    }
  }

  /** `Select` keeps exactly the elements at `Positions`: its result is `s` read at
      strictly increasing positions, and a position is read if and only if its
      element passes the test. */
  lemma {:induction false} SelectIsSubsequence<T>(s: seq<T>, p: T -> bool)
    ensures SubsequenceAt(Select(s, p), s, Positions(s, p))
    ensures forall j {:trigger j in Positions(s, p)} :: 0 <= j < |s| ==> (j in Positions(s, p) <==> p(s[j]))
  {
    SelectAtPositions(s, p);
    PositionsExact(s, p);
  }

  /** Selecting with `p` and then with `q` is selecting once with both. */
  lemma {:induction false} SelectSelect<T>(s: seq<T>, p: T -> bool, q: T -> bool, pq: T -> bool)
    requires forall x :: pq(x) == (p(x) && q(x))
    ensures Select(Select(s, p), q) == Select(s, pq)
  {
    if |s| > 0 {
      var init, last := s[..|s| - 1], s[|s| - 1];
      SelectSelect(init, p, q, pq);
      var kept := Select(init, p);
      if p(last) {
        assert (kept + [last])[..|kept + [last]| - 1] == kept;
      }
    }
  }

  /** Selection only looks at the elements present: two tests that agree on every
      element of `s` select the same subsequence. */
  lemma {:induction false} SelectAgree<T>(s: seq<T>, p: T -> bool, q: T -> bool)
    requires forall x :: x in s ==> p(x) == q(x)
    ensures Select(s, p) == Select(s, q)
  {
    if |s| > 0 {
      var init := s[..|s| - 1];
      assert forall x :: x in init ==> x in s;
      SelectAgree(init, p, q);
    }
  }

  /** A test every element passes selects the whole sequence. */
  lemma {:induction false} SelectAll<T>(s: seq<T>, p: T -> bool)
    requires forall x :: x in s ==> p(x)
    ensures Select(s, p) == s
  {
    if |s| > 0 {
      var init := s[..|s| - 1];
      assert forall x :: x in init ==> x in s;
      SelectAll(init, p);
      SplitLast(s);
    }
  }

  /** Selecting a second time with the same test changes nothing. */
  lemma {:induction false} SelectIdempotent<T>(s: seq<T>, p: T -> bool)
    ensures Select(Select(s, p), p) == Select(s, p)
  {
    SelectAll(Select(s, p), p);
  }

  /** Every element is counted by exactly one of a test and its negation. */
  lemma {:induction false} CountSplit<T>(s: seq<T>, p: T -> bool, q: T -> bool)
    requires forall x :: q(x) == !p(x)
    ensures Count(s, p) + Count(s, q) == |s|
  {
    if |s| > 0 {
      CountSplit(s[..|s| - 1], p, q);
    }
  }
}
