/** One row of the problem-management sheet, reduced to the four columns the dashboard
    reads, and the column projections the aggregates group by. */
module Records {
  import opened Optional

  /** A parsed `Data Criação` cell: `pd.to_datetime(..., dayfirst=True, errors='coerce')`
      yields either a timestamp, here its calendar-day ordinal, or NaT. */
  datatype Stamp = NaT | Day(ordinal: int)

  /** A row. A categorical cell is `None` when pandas reads it as NaN. */
  datatype Record = Record(
    status: Option<string>,    // 'Status Card'
    priority: Option<string>,  // 'Prioridade'
    impacted: Option<string>,  // 'Módulo Impactado'
    created: Stamp             // 'Data Criação'
  )

  /** `d >= bound` on pandas timestamps: any comparison involving NaT is false. */
  predicate AtOrAfter(d: Stamp, bound: Stamp)
  {
    d.Day? && bound.Day? && d.ordinal >= bound.ordinal
  }

  /** `d <= bound` on pandas timestamps: any comparison involving NaT is false. */
  predicate AtOrBefore(d: Stamp, bound: Stamp)
  {
    d.Day? && bound.Day? && d.ordinal <= bound.ordinal
  }

  /** The row's creation date parsed. */
  predicate IsDated(r: Record)
  {
    r.created.Day?
  }

  /** `.dt.date` of a creation cell: the calendar day, or missing for NaT. */
  function DayKey(d: Stamp): Option<int>
  {
    match d
    case NaT => None
    case Day(n) => Some(n)
  }

  /** `frame['Status Card']`. */
  function StatusColumn(rs: seq<Record>): seq<Option<string>>
  {
    seq(|rs|, i requires 0 <= i < |rs| => rs[i].status)
  }

  /** `frame['Prioridade']`. */
  function PriorityColumn(rs: seq<Record>): seq<Option<string>>
  {
    seq(|rs|, i requires 0 <= i < |rs| => rs[i].priority)
  }

  /** `frame['Módulo Impactado']`. */
  function ModuleColumn(rs: seq<Record>): seq<Option<string>>
  {
    seq(|rs|, i requires 0 <= i < |rs| => rs[i].impacted)
  }

  /** `frame['Data Criação']`. */
  function CreatedColumn(rs: seq<Record>): seq<Stamp>
  {
    seq(|rs|, i requires 0 <= i < |rs| => rs[i].created)
  }

  /** `frame['Data Criação'].dt.date`. */
  function DayColumn(rs: seq<Record>): seq<Option<int>>
  {
    seq(|rs|, i requires 0 <= i < |rs| => DayKey(rs[i].created))
  }
}
