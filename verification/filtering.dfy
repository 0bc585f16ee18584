/** `filtrar_dados`: narrows the rows by the selected statuses, priorities and modules
    and by an inclusive creation-date range, each criterion optional. */
module Filtering {
  import opened Optional
  import opened Sequences
  import opened Records

  /** A multi-select dropdown value. `isin` only tests membership, so the selected
      list is a set; `None` is the unset dropdown. */
  type Selection = Option<set<string>>

  /** The arguments of `filtrar_dados` after the frame. A date bound is `None` when
      not given and `Some(NaT)` when it is pandas' NaT. */
  datatype Criteria = Criteria(
    status: Selection,
    priority: Selection,
    impacted: Selection,
    start: Option<Stamp>,
    end: Option<Stamp>
  )

  /** The four criteria, one per guarded step of the source. */
  datatype Stage = ByStatus | ByPriority | ByModule | ByDate

  /** The criteria with nothing selected. */
  const NoCriteria := Criteria(None, None, None, None, None)

  /** Python truthiness of a dropdown value: `None` and `[]` are both false. */
  predicate Active(sel: Selection)
  {
    sel.Some? && sel.value != {}
  }

  /** `if data_ini and data_fim`: both bounds given. A timestamp is truthy, and so is
      NaT, which is a `datetime` subclass defining no falsity. */
  predicate DateActive(c: Criteria)
  {
    c.start.Some? && c.end.Some?
  }

  /** `column.isin(selection)` on one cell: a NaN cell is in no list of strings. */
  predicate Member(cell: Option<string>, sel: Selection)
  {
    cell.Some? && sel.Some? && cell.value in sel.value
  }

  /** `(d >= lo) & (d <= hi)`: both bounds inclusive, NaT on either side fails. */
  predicate InRange(d: Stamp, lo: Stamp, hi: Stamp)
  {
    AtOrAfter(d, lo) && AtOrBefore(d, hi)
  }

  /** Whether the source runs the step for `st`. */
  predicate StageActive(st: Stage, c: Criteria)
  {
    match st
    case ByStatus => Active(c.status)
    case ByPriority => Active(c.priority)
    case ByModule => Active(c.impacted)
    case ByDate => DateActive(c)
  }

  /** The mask of the step for `st`, evaluated on one row. */
  predicate StageTest(st: Stage, c: Criteria, r: Record)
  {
    match st
    case ByStatus => Member(r.status, c.status)
    case ByPriority => Member(r.priority, c.priority)
    case ByModule => Member(r.impacted, c.impacted)
    case ByDate => DateActive(c) && InRange(r.created, c.start.value, c.end.value)
  }

  /** The mask of the step for `st` as a function on rows. */
  function StageMask(st: Stage, c: Criteria): Record -> bool
  {
    r => StageTest(st, c, r)
  }

  /** One guarded step: `if <criterion>: frame = frame[<mask>]`. */
  function ApplyStage(rs: seq<Record>, c: Criteria, st: Stage): seq<Record>
  {
    if StageActive(st, c) then Select(rs, StageMask(st, c)) else rs
  }

  /** `filtrar_dados(frame, status, prioridade, modulo, data_ini, data_fim)`: the four
      steps in the order the source runs them. */
  function Filter(rs: seq<Record>, c: Criteria): seq<Record>
  {
    var byStatus := ApplyStage(rs, c, ByStatus);
    var byPriority := ApplyStage(byStatus, c, ByPriority);
    var byModule := ApplyStage(byPriority, c, ByModule);
    ApplyStage(byModule, c, ByDate)
  }

  /** The steps run in an arbitrary order, possibly repeating or omitting some. */
  function ApplyStages(rs: seq<Record>, c: Criteria, order: seq<Stage>): seq<Record>
    decreases |order|
  {
    if |order| == 0 then rs else ApplyStages(ApplyStage(rs, c, order[0]), c, order[1..])
  }

  // ---------------------------------------------------------------------------
  // Reference semantics: a row is kept when it satisfies every active criterion.

  /** Row `r` satisfies every criterion of `c` that is active. */
  predicate Matches(c: Criteria, r: Record)
  {
    && (Active(c.status) ==> r.status.Some? && r.status.value in c.status.value)
    && (Active(c.priority) ==> r.priority.Some? && r.priority.value in c.priority.value)
    && (Active(c.impacted) ==> r.impacted.Some? && r.impacted.value in c.impacted.value)
    && (DateActive(c) ==>
          && r.created.Day?
          && c.start.value.Day? && c.start.value.ordinal <= r.created.ordinal
          && c.end.value.Day? && r.created.ordinal <= c.end.value.ordinal)
  }

  /** `Matches(c, _)` as a function on rows. */
  function Keep(c: Criteria): Record -> bool
  {
    r => Matches(c, r)
  }

  /** Row `r` passes the step for `st`: the step is skipped, or its mask holds. */
  predicate Passes(st: Stage, c: Criteria, r: Record)
  {
    !StageActive(st, c) || StageTest(st, c, r)
  }

  /** Row `r` passes every step listed in `order`. */
  predicate PassesAll(order: seq<Stage>, c: Criteria, r: Record)
  {
    forall i :: 0 <= i < |order| ==> Passes(order[i], c, r)
  }

  /** `PassesAll(order, c, _)` as a function on rows. */
  function PassingAll(order: seq<Stage>, c: Criteria): Record -> bool
  {
    r => PassesAll(order, c, r)
  }

  /** The order the source runs the steps in. */
  const SourceOrder := [ByStatus, ByPriority, ByModule, ByDate]

  /** Every row satisfies the reference criteria exactly when it passes every step. */
  lemma {:induction false} MatchesIffAllStages(c: Criteria, r: Record, order: seq<Stage>)
    requires forall st: Stage :: st in order
    ensures Matches(c, r) <==> PassesAll(order, c, r)
  {
    assert ByStatus in order && ByPriority in order && ByModule in order && ByDate in order;
    if Matches(c, r) {
      forall i | 0 <= i < |order|
        ensures Passes(order[i], c, r)
      {
      }
    } else {
      if !Passes(ByStatus, c, r) {
      } else if !Passes(ByPriority, c, r) {
      } else if !Passes(ByModule, c, r) {
      } else {
        assert !Passes(ByDate, c, r);
      }
    }
  }

  /** One step keeps exactly the rows that pass it, in order. */
  lemma {:induction false} ApplyStageSelects(rs: seq<Record>, c: Criteria, st: Stage)
    ensures ApplyStage(rs, c, st) == Select(rs, PassingAll([st], c))
  {
    forall r ensures PassesAll([st], c, r) == Passes(st, c, r) {
      assert [st][0] == st;
    }
    if StageActive(st, c) {
      SelectAgree(rs, StageMask(st, c), PassingAll([st], c));
    } else {
      SelectAll(rs, PassingAll([st], c));
    }
  }

  /** Passing a list of steps is passing its first step and the rest. */
  lemma {:induction false} PassesAllCons(order: seq<Stage>, c: Criteria, r: Record)
    requires |order| > 0
    ensures PassesAll(order, c, r) == (PassesAll([order[0]], c, r) && PassesAll(order[1..], c, r))
  {
    if PassesAll([order[0]], c, r) && PassesAll(order[1..], c, r) {
      assert Passes(order[0], c, r) by { assert [order[0]][0] == order[0]; }
      forall i | 1 <= i < |order| ensures Passes(order[i], c, r) {
        assert order[i] == order[1..][i - 1];
      }
    }
  }

  /** Running any list of steps keeps exactly the rows that pass all of them, in their
      original order. */
  lemma {:induction false} ApplyStagesSelects(rs: seq<Record>, c: Criteria, order: seq<Stage>)
    ensures ApplyStages(rs, c, order) == Select(rs, PassingAll(order, c))
    decreases |order|
  {
    if |order| == 0 {
      SelectAll(rs, PassingAll(order, c));
    } else {
      var first := ApplyStage(rs, c, order[0]);
      ApplyStageSelects(rs, c, order[0]);
      ApplyStagesSelects(first, c, order[1..]);
      forall r ensures PassingAll(order, c)(r) == (PassingAll([order[0]], c)(r) && PassingAll(order[1..], c)(r)) {
        PassesAllCons(order, c, r);
      }
      SelectSelect(rs, PassingAll([order[0]], c), PassingAll(order[1..], c), PassingAll(order, c));
    }
  }

  /** `filtrar_dados` is the source order of steps. */
  lemma {:induction false} FilterIsSourceOrder(rs: seq<Record>, c: Criteria)
    ensures Filter(rs, c) == ApplyStages(rs, c, SourceOrder)
  {
    var s1 := ApplyStage(rs, c, ByStatus);
    var s2 := ApplyStage(s1, c, ByPriority);
    var s3 := ApplyStage(s2, c, ByModule);
    assert SourceOrder[1..] == [ByPriority, ByModule, ByDate];
    assert SourceOrder[1..][1..] == [ByModule, ByDate];
    assert SourceOrder[1..][1..][1..] == [ByDate];
    assert ApplyStages(s3, c, [ByDate]) == ApplyStage(s3, c, ByDate) by {
      assert [ByDate][1..] == [];
    }
  }

  /** The source's step sequence is the reference semantics: `filtrar_dados` keeps
      exactly the rows satisfying every active criterion, in their original order. */
  lemma {:induction false} FilterSelectsMatches(rs: seq<Record>, c: Criteria)
    ensures Filter(rs, c) == Select(rs, Keep(c))
  {
    FilterIsSourceOrder(rs, c);
    ApplyStagesSelects(rs, c, SourceOrder);
    assert forall st: Stage :: st in SourceOrder by {
      forall st: Stage ensures st in SourceOrder {
        match st
        case ByStatus => assert SourceOrder[0] == st;
        case ByPriority => assert SourceOrder[1] == st;
        case ByModule => assert SourceOrder[2] == st;
        case ByDate => assert SourceOrder[3] == st;
      }
    }
    forall r ensures PassingAll(SourceOrder, c)(r) == Keep(c)(r) {
      MatchesIffAllStages(c, r, SourceOrder);
    }
    SelectAgree(rs, PassingAll(SourceOrder, c), Keep(c));
  }
}
