/** What `filtrar_dados` promises its callers, stated against the reference semantics
    `Matches`: a subsequence of the input, membership exactly when every active
    criterion holds, unset criteria imposing nothing, order-independent steps. */
module FilterLaws {
  import opened Optional
  import opened Sequences
  import opened Records
  import opened Filtering

  /** The filtered rows are the input read at strictly increasing positions, and a
      position is read exactly when its row satisfies every active criterion. */
  lemma {:induction false} FilterIsSubsequence(rs: seq<Record>, c: Criteria)
    ensures SubsequenceAt(Filter(rs, c), rs, Positions(rs, Keep(c)))
    ensures forall j :: 0 <= j < |rs| ==> (j in Positions(rs, Keep(c)) <==> Matches(c, rs[j]))
    ensures multiset(Filter(rs, c)) <= multiset(rs)
  {
    FilterSelectsMatches(rs, c);
    SelectIsSubsequence(rs, Keep(c));
  }

  /** A row value occurs in the result exactly when it occurs in the input and
      satisfies every active criterion. */
  lemma {:induction false} FilterMembership(rs: seq<Record>, c: Criteria)
    ensures forall r :: r in Filter(rs, c) <==> r in rs && Matches(c, r)
  {
    FilterSelectsMatches(rs, c);
    FilterIsSubsequence(rs, c);
    forall r | r in rs && Matches(c, r) ensures r in Filter(rs, c) {
      var j :| 0 <= j < |rs| && rs[j] == r;
      var idx := Positions(rs, Keep(c));
      assert j in idx;
      var i :| 0 <= i < |idx| && idx[i] == j;
      assert Filter(rs, c)[i] == r;
    }
  }

  /** With nothing selected and no date range every row passes, in order. */
  lemma {:induction false} NoCriteriaKeepsAll(rs: seq<Record>)
    ensures Filter(rs, NoCriteria) == rs
  {
    FilterSelectsMatches(rs, NoCriteria);
    SelectAll(rs, Keep(NoCriteria));
  }

  /** Criteria that accept the same rows filter alike. */
  lemma {:induction false} SameFilter(rs: seq<Record>, c1: Criteria, c2: Criteria)
    requires forall r :: Matches(c1, r) == Matches(c2, r)
    ensures Filter(rs, c1) == Filter(rs, c2)
  {
    FilterSelectsMatches(rs, c1);
    FilterSelectsMatches(rs, c2);
    SelectAgree(rs, Keep(c1), Keep(c2));
  }

  /** An unset dropdown (`None`) and an empty selection (`[]`) filter alike. */
  lemma {:induction false} EmptySelectionIsUnset(rs: seq<Record>, c: Criteria)
    ensures Filter(rs, c.(status := Some({}))) == Filter(rs, c.(status := None))
    ensures Filter(rs, c.(priority := Some({}))) == Filter(rs, c.(priority := None))
    ensures Filter(rs, c.(impacted := Some({}))) == Filter(rs, c.(impacted := None))
  {
    SameFilter(rs, c.(status := Some({})), c.(status := None));
    SameFilter(rs, c.(priority := Some({})), c.(priority := None));
    SameFilter(rs, c.(impacted := Some({})), c.(impacted := None));
  }

  /** A date range missing either bound does not filter by date at all. */
  lemma {:induction false} OneBoundIsNoRange(rs: seq<Record>, c: Criteria)
    requires c.start.None? || c.end.None?
    ensures Filter(rs, c) == Filter(rs, c.(start := None, end := None))
  {
    SameFilter(rs, c, c.(start := None, end := None));
  }

  /** Once both bounds are given, a row without a parsable date is never kept, and a
      row dated exactly on either bound of a non-empty range is kept when the other
      criteria hold. */
  lemma {:induction false} DateRangeInclusive(rs: seq<Record>, c: Criteria)
    requires DateActive(c)
    ensures forall r :: r in Filter(rs, c) ==> r.created.Day?
    ensures forall r :: r in rs && Matches(c.(start := None, end := None), r) &&
                        r.created.Day? && r.created == c.start.value &&
                        c.end.value.Day? && r.created.ordinal <= c.end.value.ordinal
                        ==> r in Filter(rs, c)
    ensures forall r :: r in rs && Matches(c.(start := None, end := None), r) &&
                        r.created.Day? && r.created == c.end.value &&
                        c.start.value.Day? && c.start.value.ordinal <= r.created.ordinal
                        ==> r in Filter(rs, c)
  {
    FilterMembership(rs, c);
  }

  /** The criteria are conjunctive: running the steps in any order, repeating some,
      gives `filtrar_dados`'s result as long as every step runs at least once. */
  lemma {:induction false} StageOrderIrrelevant(rs: seq<Record>, c: Criteria, order: seq<Stage>)
    requires forall st: Stage :: st in order
    ensures ApplyStages(rs, c, order) == Filter(rs, c)
  {
    ApplyStagesSelects(rs, c, order);
    FilterSelectsMatches(rs, c);
    forall r ensures PassingAll(order, c)(r) == Keep(c)(r) {
      MatchesIffAllStages(c, r, order);
    }
    SelectAgree(rs, PassingAll(order, c), Keep(c));
  }

  /** Filtering a filtered result again with the same criteria changes nothing. */
  lemma {:induction false} FilterIdempotent(rs: seq<Record>, c: Criteria)
    ensures Filter(Filter(rs, c), c) == Filter(rs, c)
  {
    FilterSelectsMatches(rs, c);
    FilterSelectsMatches(Filter(rs, c), c);
    SelectIdempotent(rs, Keep(c));
  }

  /** Both criteria hold. */
  function KeepBoth(c1: Criteria, c2: Criteria): Record -> bool
  {
    r => Matches(c1, r) && Matches(c2, r)
  }

  /** Two successive filterings commute: each equals keeping the rows that satisfy
      both sets of criteria. */
  lemma {:induction false} FilterCommutes(rs: seq<Record>, c1: Criteria, c2: Criteria)
    ensures Filter(Filter(rs, c1), c2) == Select(rs, KeepBoth(c1, c2))
    ensures Filter(Filter(rs, c1), c2) == Filter(Filter(rs, c2), c1)
  {
    FilterSelectsMatches(rs, c1);
    FilterSelectsMatches(rs, c2);
    FilterSelectsMatches(Filter(rs, c1), c2);
    FilterSelectsMatches(Filter(rs, c2), c1);
    SelectSelect(rs, Keep(c1), Keep(c2), KeepBoth(c1, c2));
    SelectSelect(rs, Keep(c2), Keep(c1), KeepBoth(c2, c1));
    SelectAgree(rs, KeepBoth(c1, c2), KeepBoth(c2, c1));
  }
}
