/** `Series.min()` and `Series.max()` on the parsed creation dates: NaT cells are
    skipped, and the result is NaT when no cell parsed. */
module DateBounds {
  import opened Records

  /** The earlier of two stamps, ignoring NaT. */
  function Earlier(a: Stamp, b: Stamp): Stamp
  {
    if a.NaT? then b
    else if b.NaT? then a
    else if b.ordinal < a.ordinal then b else a
  }

  /** The later of two stamps, ignoring NaT. */
  function Later(a: Stamp, b: Stamp): Stamp
  {
    if a.NaT? then b
    else if b.NaT? then a
    else if b.ordinal > a.ordinal then b else a
  }

  /** `column.min()`: the earliest parsed date, NaT when none parsed. */
  function Earliest(ds: seq<Stamp>): (m: Stamp)
    ensures m.NaT? <==> forall i :: 0 <= i < |ds| ==> ds[i].NaT?
    ensures m.Day? ==> m in ds
    ensures forall i :: 0 <= i < |ds| && ds[i].Day? ==> m.Day? && m.ordinal <= ds[i].ordinal
  {
    if |ds| == 0 then NaT
    else
      var init := ds[..|ds| - 1];
      assert ds == init + [ds[|ds| - 1]];
      Earlier(Earliest(init), ds[|ds| - 1])
  }

  /** `column.max()`: the latest parsed date, NaT when none parsed. */
  function Latest(ds: seq<Stamp>): (m: Stamp)
    ensures m.NaT? <==> forall i :: 0 <= i < |ds| ==> ds[i].NaT?
    ensures m.Day? ==> m in ds
    ensures forall i :: 0 <= i < |ds| && ds[i].Day? ==> m.Day? && ds[i].ordinal <= m.ordinal
  {
    if |ds| == 0 then NaT
    else
      var init := ds[..|ds| - 1];
      assert ds == init + [ds[|ds| - 1]];
      Later(Latest(init), ds[|ds| - 1])
  }
}
