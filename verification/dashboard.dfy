/** `atualizar_conteudo`, without rendering: loads the frame, derives the dropdown
    options and the default date range, filters with that range and computes the
    indicator cards and the data behind the three charts. */
module Dashboard {
  import opened Optional
  import opened Sequences
  import opened Records
  import opened Filtering
  import opened Tally
  import opened DateBounds

  const StatusHeader := "Status Card"
  const PriorityHeader := "Prioridade"
  const ModuleHeader := "Módulo Impactado"
  const CreatedHeader := "Data Criação"

  /** The one status the indicator cards count as resolved (exact, case-sensitive). */
  const ResolvedStatus := "Resolvido"

  /** A loaded table: its column names and its rows. */
  datatype Frame = Frame(columns: seq<string>, rows: seq<Record>)

  /** The `dcc.Upload` state passed to the callback: data-URL contents and file name. */
  datatype Upload = Upload(contents: string, filename: string)

  /** What the callback raises. */
  datatype Error =
    | MissingColumn(header: string)   // KeyError on `frame[header]`
    | MalformedUpload                 // the upload contents do not split into exactly two parts at commas
    | UndefinedName(name: string)     // NameError: a module used but never imported

  /** The three indicator cards. */
  datatype Indicators = Indicators(total: nat, resolved: nat, open: int)

  /** The callback's outputs, in the order it returns them, with each figure reduced
      to the table Plotly draws. */
  datatype View = View(
    statusOptions: seq<string>,
    priorityOptions: seq<string>,
    moduleOptions: seq<string>,
    start: Stamp,
    end: Stamp,
    tableColumns: seq<string>,
    table: seq<Record>,
    statusCounts: Counts<string>,
    priorityCounts: Counts<string>,
    daily: Counts<int>,
    indicators: Indicators
  )

  /** The row's status is exactly `Resolvido`; a NaN status is not. */
  predicate IsResolved(r: Record)
  {
    r.status == Some(ResolvedStatus)
  }

  /** The row's status is anything but `Resolvido`, NaN included. */
  predicate IsOpen(r: Record)
  {
    !IsResolved(r)
  }

  /** The separator between the media type and the payload of a data URL. */
  predicate IsComma(ch: char)
  {
    ch == ','
  }

  /** The module-level frame: the workbook sheet when the file exists, otherwise
      `pd.DataFrame()`, which has no columns at all. */
  function StartupFrame(fileExists: bool, sheet: Frame): Frame
  {
    if fileExists then sheet else Frame([], [])
  }

  /** The frame the callback works on: the start-up frame when nothing was uploaded.
      An upload always raises: the split must give exactly two parts, and then
      `base64` is not imported. */
  function LoadFrame(contents: Option<Upload>, startup: Frame): (r: Result<Frame, Error>)
    ensures r.Success? <==> contents.None?
    ensures r.Success? ==> r.value == startup
    ensures r.Failure? ==> r.error == MalformedUpload || r.error == UndefinedName("base64")
  {
    match contents
    case None => Success(startup)
    case Some(upload) =>
      if Count(upload.contents, IsComma) != 1 then Failure(MalformedUpload)
      else Failure(UndefinedName("base64"))
  }

  /** The order in which the callback first reads the required columns. */
  const ReadOrder := [CreatedHeader, StatusHeader, PriorityHeader, ModuleHeader]

  /** The first of the columns the callback reads, in the order it reads them, that
      the frame lacks. */
  function FirstMissing(columns: seq<string>): (missing: Option<string>)
    ensures missing.None? <==> forall i :: 0 <= i < |ReadOrder| ==> ReadOrder[i] in columns
    ensures missing.Some? ==> missing.value !in columns
    ensures missing.Some? ==> exists i :: 0 <= i < |ReadOrder| && missing.value == ReadOrder[i] &&
                                forall j :: 0 <= j < i ==> ReadOrder[j] in columns
  {
    assert ReadOrder[0] == CreatedHeader && ReadOrder[1] == StatusHeader;
    assert ReadOrder[2] == PriorityHeader && ReadOrder[3] == ModuleHeader;
    if CreatedHeader !in columns then Some(CreatedHeader)
    else if StatusHeader !in columns then Some(StatusHeader)
    else if PriorityHeader !in columns then Some(PriorityHeader)
    else if ModuleHeader !in columns then Some(ModuleHeader)
    else None
  }

  /** The indicator cards of the filtered rows. */
  function Summarize(rows: seq<Record>): (ind: Indicators)
    ensures ind.total == |rows|
    ensures ind.resolved == Count(rows, IsResolved) <= ind.total
    ensures ind.open >= 0 && ind.open == Count(rows, IsOpen)
    ensures ind.resolved + ind.open == ind.total
  {
    var total := |rows|;
    var resolved := Count(rows, IsResolved);
    CountSplit(rows, IsResolved, IsOpen);
    Indicators(total, resolved, total - resolved)
  }

  /** The date range the callback filters with: the earliest and latest parsed
      creation dates, NaT when none parsed; no category is selected. */
  function DefaultCriteria(rows: seq<Record>): (c: Criteria)
    ensures !Active(c.status) && !Active(c.priority) && !Active(c.impacted)
    ensures DateActive(c)
    ensures forall r :: r in rows && IsDated(r) ==> InRange(r.created, c.start.value, c.end.value)
    ensures (forall r :: r in rows ==> !IsDated(r)) ==> c.start.value.NaT? && c.end.value.NaT?
    ensures c.start.value.Day? ==> exists r :: r in rows && r.created == c.start.value
    ensures c.end.value.Day? ==> exists r :: r in rows && r.created == c.end.value
  {
    var dates := CreatedColumn(rows);
    var c := Criteria(None, None, None, Some(Earliest(dates)), Some(Latest(dates)));
    forall r | r in rows && IsDated(r)
      ensures InRange(r.created, c.start.value, c.end.value)
    {
      var i :| 0 <= i < |rows| && rows[i] == r;
      assert dates[i] == r.created;
    }
    assert c.start.value.Day? ==> exists r :: r in rows && r.created == c.start.value by {
      if c.start.value.Day? {
        var i :| 0 <= i < |dates| && dates[i] == c.start.value;
        assert rows[i] in rows;
      }
    }
    assert c.end.value.Day? ==> exists r :: r in rows && r.created == c.end.value by {
      if c.end.value.Day? {
        var i :| 0 <= i < |dates| && dates[i] == c.end.value;
        assert rows[i] in rows;
      }
    }
    c
  }

  /** With the default range, filtering keeps every row whose date parsed and drops
      every row whose date did not, in order. */
  lemma {:induction false} DefaultRangeKeepsDated(rows: seq<Record>)
    ensures Filter(rows, DefaultCriteria(rows)) == Select(rows, IsDated)
  {
    var c := DefaultCriteria(rows);
    FilterSelectsMatches(rows, c);
    SelectAgree(rows, Keep(c), IsDated);
  }

  /** Every cell of a column of dated rows' days is present. */
  lemma {:induction false} DatedDaysPresent(rows: seq<Record>)
    requires forall r :: r in rows ==> IsDated(r)
    ensures Present(DayColumn(rows)) == |rows|
  {
    var days := DayColumn(rows);
    forall cell | cell in days ensures IsPresent(cell) {
      var i :| 0 <= i < |days| && days[i] == cell;
      assert rows[i] in rows;
    }
    SelectAll(days, IsPresent);
  }

  /** Everything the callback computes from a frame that has the required columns. */
  function BuildView(f: Frame): (v: View)
    ensures v.table == f.rows && v.tableColumns == f.columns
    ensures v.statusOptions == Unique(StatusColumn(f.rows))
    ensures v.priorityOptions == Unique(PriorityColumn(f.rows))
    ensures v.moduleOptions == Unique(ModuleColumn(f.rows))
    ensures Distinct(v.statusOptions) && forall s :: s in v.statusOptions <==> Some(s) in StatusColumn(f.rows)
    ensures Distinct(v.priorityOptions) && forall s :: s in v.priorityOptions <==> Some(s) in PriorityColumn(f.rows)
    ensures Distinct(v.moduleOptions) && forall s :: s in v.moduleOptions <==> Some(s) in ModuleColumn(f.rows)
    ensures forall r :: r in f.rows && IsDated(r) ==> AtOrAfter(r.created, v.start) && AtOrBefore(r.created, v.end)
    ensures v.start.Day? ==> v.start in CreatedColumn(f.rows)
    ensures v.end.Day? ==> v.end in CreatedColumn(f.rows)
    ensures v.indicators.total == Count(f.rows, IsDated)
    ensures v.indicators.resolved + v.indicators.open == v.indicators.total
    ensures 0 <= v.indicators.resolved <= v.indicators.total
    ensures v.indicators.resolved == Count(Select(f.rows, IsDated), IsResolved)
    ensures v.indicators.open == Count(Select(f.rows, IsDated), IsOpen)
    ensures var kept := Select(f.rows, IsDated);
      && Keys(v.statusCounts) == Unique(StatusColumn(kept))
      && AllPositive(v.statusCounts)
      && (forall s :: CountOf(v.statusCounts, s) == Occurrences(StatusColumn(kept), s))
      && Sum(v.statusCounts) <= v.indicators.total
    ensures var kept := Select(f.rows, IsDated);
      && Keys(v.priorityCounts) == Unique(PriorityColumn(kept))
      && AllPositive(v.priorityCounts)
      && (forall s :: CountOf(v.priorityCounts, s) == Occurrences(PriorityColumn(kept), s))
      && Sum(v.priorityCounts) <= v.indicators.total
    ensures var kept := Select(f.rows, IsDated);
      && Ascending(v.daily)
      && AllPositive(v.daily)
      && (forall d :: CountOf(v.daily, d) == Occurrences(DayColumn(kept), d))
      && Sum(v.daily) == v.indicators.total
  {
    var rows := f.rows;
    var dates := CreatedColumn(rows);
    var criteria := DefaultCriteria(rows);
    var kept := Filter(rows, criteria);
    DefaultRangeKeepsDated(rows);
    DatedDaysPresent(kept);
    View(
      Unique(StatusColumn(rows)),
      Unique(PriorityColumn(rows)),
      Unique(ModuleColumn(rows)),
      criteria.start.value,
      criteria.end.value,
      f.columns,
      rows,
      GroupCounts(StatusColumn(kept)),
      GroupCounts(PriorityColumn(kept)),
      SortedGroupCounts(DayColumn(kept)),
      Summarize(kept))
  }

  /** `atualizar_conteudo(contents, filename)`: raises for any upload and for a frame
      lacking a required column; otherwise returns the view of the frame. */
  function Refresh(contents: Option<Upload>, startup: Frame): (r: Result<View, Error>)
    ensures r.Success? <==> contents.None? && FirstMissing(startup.columns).None?
    ensures contents.None? && FirstMissing(startup.columns).Some? ==>
      r == Failure(MissingColumn(FirstMissing(startup.columns).value))
    ensures r.Success? ==> r.value.table == startup.rows
    ensures r.Success? ==> r.value == BuildView(startup)
  {
    match LoadFrame(contents, startup)
    case Failure(e) => Failure(e)
    case Success(f) =>
      match FirstMissing(f.columns)
      case Some(header) => Failure(MissingColumn(header))
      case None => Success(BuildView(f))
  }

  /** Without the workbook on disk the callback raises a KeyError for `Data Criação`
      on its first invocation instead of showing an empty dashboard. */
  lemma {:induction false} MissingWorkbookFails(sheet: Frame)
    ensures Refresh(None, StartupFrame(false, sheet)) == Failure(MissingColumn(CreatedHeader))
  {
  }

  /** A row whose date did not parse stays in the table but leaves the cards and the
      status counts: with one dated and one undated `Resolvido` row, the total is 1
      and `Resolvido` is counted once. */
  lemma {:induction false} UndatedRowLeavesAggregates()
    ensures var dated := Record(Some(ResolvedStatus), None, None, Day(1));
      var undated := Record(Some(ResolvedStatus), None, None, NaT);
      var v := BuildView(Frame([StatusHeader, PriorityHeader, ModuleHeader, CreatedHeader], [dated, undated]));
      && v.table == [dated, undated]
      && v.indicators.total == 1
      && CountOf(v.statusCounts, ResolvedStatus) == 1
  {
    var dated := Record(Some(ResolvedStatus), None, None, Day(1));
    var undated := Record(Some(ResolvedStatus), None, None, NaT);
    var rows := [dated, undated];
    assert rows[..1] == [dated];
    assert [dated][..0] == [];
    assert Select([dated], IsDated) == [dated];
    assert Select(rows, IsDated) == Select([dated], IsDated);
    var kept := Select(rows, IsDated);
    var column := StatusColumn(kept);
    assert column == [Some(ResolvedStatus)];
    assert column[..0] == [];
    assert Occurrences(column, ResolvedStatus) == 1;
  }
}
