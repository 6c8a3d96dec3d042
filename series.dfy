/**
 * Column-level definitions of the synthetic operational-metrics table of
 * generate_synthetic_data.py: the timestamp column, numpy's clip, the
 * positional and label-based row-window assignments pandas performs, the
 * change-deployment comparison, the two label columns and the column order.
 *
 * Everything here is a value: the table object that is mutated in place
 * lives in module SyntheticData and is specified by these functions.
 */
module Series {

  datatype Option<T> = None | Some(value: T)

  // ---------------------------------------------------------------------
  // Constants of the generator
  // ---------------------------------------------------------------------

  /** Spacing of consecutive rows, in minutes (freq="5min"). */
  const StepMinutes: int := 5
  /** Rows per day at 5-minute spacing (24 * 12). */
  const RowsPerDay: nat := 288
  /** The row count the script asks for: five years of 365 days. */
  const ScriptRowCount: nat := RowsPerDay * 365 * 5

  /** The spike is the positional slice df.index[SpikeStart:SpikeStop]. */
  const SpikeStart: nat := 100
  const SpikeStop: nat := 144

  /** Width of the change-deployment window before the spike. */
  const ChangeLookbackMinutes: int := 30
  /** The incident label starts this many rows before the spike's first row. */
  const IncidentLeadRows: nat := 4

  const CpuFloor: real := 5.0
  const CpuCeiling: real := 98.0
  const MemFloor: real := 10.0
  const MemCeiling: real := 98.0
  /** Bounds of the uniform draws written into the spike rows. */
  const SpikeLow: real := 90.0
  const SpikeHigh: real := 97.0

  const HostId: string := "app-01"
  const ServiceName: string := "payments-api"
  const P1: string := "P1"
  const NoIncident: string := "None"

  // ---------------------------------------------------------------------
  // Generic column helpers
  // ---------------------------------------------------------------------

  /** A column holding `v` on each of `n` rows (a scalar broadcast). */
  function Filled<T>(n: nat, v: T): (r: seq<T>)
  {
    seq(n, _ => v)
  }

  /** Number of rows of `s` equal to `x`. */
  function Count<T(==)>(s: seq<T>, x: T): (c: nat)
    ensures c <= |s|
    ensures c == 0 <==> x !in s
  {
    if s == [] then 0
    else
      var init := s[..|s| - 1];
      assert s == init + [s[|s| - 1]];
      Count(init, x) + (if s[|s| - 1] == x then 1 else 0)
  }

  /** A value occupying exactly the rows lo..hi-1 of a column occurs hi - lo times. */
  lemma {:induction false} CountWindow<T>(s: seq<T>, x: T, lo: nat, hi: nat)
    requires lo <= hi <= |s|
    requires forall i :: 0 <= i < |s| ==> (s[i] == x <==> lo <= i < hi)
    ensures Count(s, x) == hi - lo
  {
    if s != [] {
      var m := |s| - 1;
      var init := s[..m];
      var lo', hi' := if lo < m then lo else m, if hi < m then hi else m;
      assert forall i :: 0 <= i < |init| ==> init[i] == s[i];
      CountWindow(init, x, lo', hi');
    }
  }

  /**
   * Positional assignment of a block of values to a row window: the rows
   * lo .. lo+|vals|-1 of `col` receive `vals` in order (df.loc[rows] = values).
   */
  function Overwrite<T>(col: seq<T>, lo: nat, vals: seq<T>): (r: seq<T>)
    requires lo + |vals| <= |col|
    ensures |r| == |col|
    ensures forall i :: 0 <= i < |col| ==>
              r[i] == if lo <= i < lo + |vals| then vals[i - lo] else col[i]
  {
    col[..lo] + vals + col[lo + |vals|..]
  }

  /**
   * df.loc[lo:hi, c] = v on a table whose index is 0 .. |col|-1: a label
   * slice, so BOTH ends are included, and labels outside the index select
   * no row (the bounds are clamped to the rows that exist).
   */
  function LabelSliceSet<T>(col: seq<T>, lo: int, hi: int, v: T): (r: seq<T>)
    ensures |r| == |col|
    ensures forall i :: 0 <= i < |col| ==> r[i] == if lo <= i <= hi then v else col[i]
  {
    var a := if lo < 0 then 0 else if lo > |col| then |col| else lo;
    var b := if hi + 1 < a then a else if hi + 1 > |col| then |col| else hi + 1;
    Overwrite(col, a, Filled(b - a, v))
  }

  // ---------------------------------------------------------------------
  // Timestamps (pd.date_range with a 5-minute frequency), in minutes
  // ---------------------------------------------------------------------

  /** n instants, `start` minutes and every 5 minutes after it. */
  function Timestamps(start: int, n: nat): (ts: seq<int>)
  {
    seq(n, i => start + StepMinutes * i)
  }

  /** The column has n rows, starts at `start` and advances by exactly one step per row. */
  lemma TimestampsEvenlySpaced(start: int, n: nat)
    ensures |Timestamps(start, n)| == n
    ensures n > 0 ==> Timestamps(start, n)[0] == start
    ensures forall i :: 0 <= i < n - 1 ==>
              Timestamps(start, n)[i + 1] == Timestamps(start, n)[i] + StepMinutes
  {
  }

  /** No duplicates and no reordering: later rows have strictly later timestamps. */
  lemma TimestampsStrictlyIncreasing(start: int, n: nat)
    ensures forall i, j :: 0 <= i < j < n ==> Timestamps(start, n)[i] < Timestamps(start, n)[j]
  {
  }

  /** Inverse of the column: an instant occurs iff it lies on the 5-minute grid inside the range, and then in row (t - start) / 5. */
  lemma TimestampRow(start: int, n: nat, t: int)
    ensures t in Timestamps(start, n) <==>
              (t - start) % StepMinutes == 0 && 0 <= (t - start) / StepMinutes < n
    ensures t in Timestamps(start, n) ==> Timestamps(start, n)[(t - start) / StepMinutes] == t
  {
    var ts := Timestamps(start, n);
    var k := (t - start) / StepMinutes;
    if (t - start) % StepMinutes == 0 && 0 <= k < n {
      assert ts[k] == t;
    }
    if t in ts {
      var i :| 0 <= i < n && ts[i] == t;
      assert t - start == StepMinutes * i;
      assert k == i;
    }
  }

  // ---------------------------------------------------------------------
  // Baseline utilisation: np.clip
  // ---------------------------------------------------------------------

  /** np.clip on one value, i.e. min(max(x, lo), hi). */
  function Clip(x: real, lo: real, hi: real): (r: real)
    ensures r <= hi
    ensures lo <= hi ==> lo <= r
    ensures lo <= x <= hi ==> r == x
    ensures x < lo && lo <= hi ==> r == lo
    ensures hi < x ==> r == hi
    ensures hi < lo ==> r == hi
  {
    var raised := if x < lo then lo else x;
    if raised > hi then hi else raised
  }

  /** np.clip applied element-wise to a column. */
  function ClipAll(xs: seq<real>, lo: real, hi: real): (r: seq<real>)
    ensures |r| == |xs|
    ensures forall i :: 0 <= i < |xs| ==> r[i] <= hi
    ensures lo <= hi ==> forall i :: 0 <= i < |xs| ==> lo <= r[i]
    ensures forall i :: 0 <= i < |xs| && lo <= xs[i] <= hi ==> r[i] == xs[i]
  {
    seq(|xs|, i requires 0 <= i < |xs| => Clip(xs[i], lo, hi))
  }

  // ---------------------------------------------------------------------
  // The spike: rows df.index[100:144]
  // ---------------------------------------------------------------------

  /** First row of the positional slice [SpikeStart:SpikeStop] of an n-row index (Python clamps slice bounds). */
  function SpikeFirst(n: nat): nat
  {
    if n < SpikeStart then n else SpikeStart
  }

  /** One past the last row of that slice. */
  function SpikeEnd(n: nat): nat
  {
    if n < SpikeStop then n else SpikeStop
  }

  /** The script's own row count holds the whole 44-row spike, so every step succeeds for it. */
  lemma ScriptRowCountHoldsSpike()
    ensures ScriptRowCount == 525600
    ensures SpikeStart < SpikeStop <= ScriptRowCount
    ensures SpikeRowCount(ScriptRowCount) == 44
  {
  }

  /** Number of spike rows, which is also the number of uniform draws per spiked column. */
  function SpikeRowCount(n: nat): (k: nat)
    ensures SpikeFirst(n) + k == SpikeEnd(n) <= n
    ensures n >= SpikeStop ==> k == SpikeStop - SpikeStart
    ensures k == 0 <==> n <= SpikeStart
  {
    SpikeEnd(n) - SpikeFirst(n)
  }

  /** A baseline column after the spike overwrite: clipped draws, with the spike rows replaced by the spike draws. */
  function SpikedColumn(draws: seq<real>, floor: real, ceiling: real, spike: seq<real>): (col: seq<real>)
    requires |spike| == SpikeRowCount(|draws|)
  {
    Overwrite(ClipAll(draws, floor, ceiling), SpikeFirst(|draws|), spike)
  }

  /**
   * With n >= 144 the spike is rows 100..143: those 44 rows hold the spike
   * draws in order and every other row keeps its clipped baseline value.
   */
  lemma SpikedColumnRows(draws: seq<real>, floor: real, ceiling: real, spike: seq<real>)
    requires |draws| >= SpikeStop
    requires |spike| == SpikeRowCount(|draws|)
    ensures |spike| == 44
    ensures |SpikedColumn(draws, floor, ceiling, spike)| == |draws|
    ensures forall i :: SpikeStart <= i < SpikeStop ==>
              SpikedColumn(draws, floor, ceiling, spike)[i] == spike[i - SpikeStart]
    ensures forall i :: 0 <= i < |draws| && !(SpikeStart <= i < SpikeStop) ==>
              SpikedColumn(draws, floor, ceiling, spike)[i] == Clip(draws[i], floor, ceiling)
  {
  }

  /** Bounds of the finished cpu/mem column for any row count. */
  lemma SpikedColumnBounds(draws: seq<real>, floor: real, ceiling: real, spike: seq<real>)
    requires |spike| == SpikeRowCount(|draws|)
    requires floor <= SpikeLow && SpikeHigh <= ceiling
    requires forall k :: 0 <= k < |spike| ==> SpikeLow <= spike[k] <= SpikeHigh
    ensures forall i :: SpikeFirst(|draws|) <= i < SpikeEnd(|draws|) ==>
              SpikeLow <= SpikedColumn(draws, floor, ceiling, spike)[i] <= SpikeHigh
    ensures forall i :: 0 <= i < |draws| ==>
              floor <= SpikedColumn(draws, floor, ceiling, spike)[i] <= ceiling
  {
  }

  // ---------------------------------------------------------------------
  // Change deployment: 30 minutes before the spike's first timestamp
  // ---------------------------------------------------------------------

  /** (ts >= t0 - 30 min) & (ts < t0), cast to 0/1. */
  function ChangeFlags(ts: seq<int>, t0: int): (flags: seq<int>)
  {
    seq(|ts|, i requires 0 <= i < |ts| =>
      if t0 - ChangeLookbackMinutes <= ts[i] && ts[i] < t0 then 1 else 0)
  }

  /**
   * On the 5-minute grid the 30-minute window before row k's timestamp is
   * the six rows k-6 .. k-1 (fewer when k < 6); all other rows are 0.
   */
  lemma ChangeFlagRows(start: int, n: nat, k: nat)
    requires k < n
    ensures |ChangeFlags(Timestamps(start, n), Timestamps(start, n)[k])| == n
    ensures forall i :: 0 <= i < n ==>
              ChangeFlags(Timestamps(start, n), Timestamps(start, n)[k])[i]
                == if k - 6 <= i < k then 1 else 0
  {
  }

  /** With the spike at row 100, exactly six rows (94..99) carry the change flag. */
  lemma ChangeFlagCount(start: int, n: nat)
    requires SpikeStart < n
    ensures var flags := ChangeFlags(Timestamps(start, n), Timestamps(start, n)[SpikeStart]);
            Count(flags, 1) == 6 &&
            (forall i :: 0 <= i < n ==> (flags[i] == 1 <==> 94 <= i < 100)) &&
            Count(flags, 0) == n - 6
  {
    var flags := ChangeFlags(Timestamps(start, n), Timestamps(start, n)[SpikeStart]);
    ChangeFlagRows(start, n, SpikeStart);
    CountWindow(flags, 1, 94, 100);
    CountComplement(flags, 0, 1);
  }

  /** In a column holding only a and b, the rows holding a are all rows not holding b. */
  lemma {:induction false} CountComplement<T>(s: seq<T>, a: T, b: T)
    requires a != b
    requires forall i :: 0 <= i < |s| ==> s[i] == a || s[i] == b
    ensures Count(s, a) + Count(s, b) == |s|
  {
    if s != [] {
      var init := s[..|s| - 1];
      assert forall i :: 0 <= i < |init| ==> init[i] == s[i];
      CountComplement(init, a, b);
    }
  }

  // ---------------------------------------------------------------------
  // Labels
  // ---------------------------------------------------------------------

  /** incident_open_in_next_2h: zeros, then 1 on the label slice [100-4 : 100]. */
  function IncidentColumn(n: nat): seq<int>
  {
    LabelSliceSet(Filled(n, 0), SpikeStart - IncidentLeadRows, SpikeStart, 1)
  }

  /** Exactly the five rows 96..100 (both ends) are labelled, ending at the spike's first row. */
  lemma IncidentLabelRows(n: nat)
    requires SpikeStart < n
    ensures |IncidentColumn(n)| == n
    ensures forall i :: 0 <= i < n ==> IncidentColumn(n)[i] == if 96 <= i <= 100 then 1 else 0
    ensures Count(IncidentColumn(n), 1) == 5
    ensures Count(IncidentColumn(n), 0) == n - 5
  {
    var col := IncidentColumn(n);
    CountWindow(col, 1, 96, 101);
    CountComplement(col, 0, 1);
  }

  /** p1_or_p2_next_incident: "None" everywhere, then "P1" on the row labelled 100. */
  function PriorityColumn(n: nat): seq<string>
    requires SpikeStart < n
  {
    Filled(n, NoIncident)[SpikeStart := P1]
  }

  /** "P1" occurs on exactly one row, the spike's first; every other row is "None". */
  lemma PriorityRows(n: nat)
    requires SpikeStart < n
    ensures |PriorityColumn(n)| == n
    ensures forall i :: 0 <= i < n ==> (PriorityColumn(n)[i] == P1 <==> i == SpikeStart)
    ensures forall i :: 0 <= i < n && i != SpikeStart ==> PriorityColumn(n)[i] == NoIncident
    ensures Count(PriorityColumn(n), P1) == 1
    ensures Count(PriorityColumn(n), NoIncident) == n - 1
  {
    var col := PriorityColumn(n);
    CountWindow(col, P1, SpikeStart, SpikeStart + 1);
    CountComplement(col, NoIncident, P1);
  }

  /** is_holiday: the scalar 0 broadcast, so no row is a holiday. */
  lemma NoHolidays(n: nat)
    ensures |Filled(n, 0)| == n
    ensures Count(Filled(n, 0), 1) == 0
    ensures Count(Filled(n, 0), 0) == n
  {
    CountWindow(Filled(n, 0), 0, 0, n);
  }

  // ---------------------------------------------------------------------
  // Columns and their order
  // ---------------------------------------------------------------------

  /** The eleven columns of the table. */
  datatype Column =
    | TimestampUtc | Host | Service | CpuPct | MemPct | DiskUsedPct | ErrorRate
    | IsHoliday | ChangeDeployedPrev1h | IncidentOpenInNext2h | P1OrP2NextIncident

  /** The header name of each column. */
  function Name(c: Column): string
  {
    match c
    case TimestampUtc => "timestamp_utc"
    case Host => "host_id"
    case Service => "service"
    case CpuPct => "cpu_pct"
    case MemPct => "mem_pct"
    case DiskUsedPct => "disk_used_pct"
    case ErrorRate => "error_rate"
    case IsHoliday => "is_holiday"
    case ChangeDeployedPrev1h => "change_deployed_prev_1h"
    case IncidentOpenInNext2h => "incident_open_in_next_2h"
    case P1OrP2NextIncident => "p1_or_p2_next_incident"
  }

  /** Assigning df[c]: an existing column keeps its place, a new one goes last. */
  function WithColumn(cols: seq<Column>, c: Column): seq<Column>
  {
    if c in cols then cols else cols + [c]
  }

  /** Adds each column of `cs` in turn. */
  function WithColumns(cols: seq<Column>, cs: seq<Column>): seq<Column>
    decreases |cs|
  {
    if cs == [] then cols else WithColumns(WithColumn(cols, cs[0]), cs[1..])
  }

  /** Columns of the frame built from the timestamps and the two identifiers. */
  const CreatedColumns: seq<Column> := [TimestampUtc, Host, Service]
  /** The four baseline metric columns, in the order they are assigned. */
  const BaselineColumns: seq<Column> := [CpuPct, MemPct, DiskUsedPct, ErrorRate]

  /** The order the final selection asks for. */
  const FinalColumns: seq<Column> :=
    [TimestampUtc, Host, Service, CpuPct, MemPct, DiskUsedPct,
     ErrorRate, IsHoliday, ChangeDeployedPrev1h, IncidentOpenInNext2h, P1OrP2NextIncident]

  /** The column order the script's assignments leave before the final selection. */
  function InsertionOrder(): seq<Column>
  {
    var baseline := WithColumns(CreatedColumns, BaselineColumns);
    var changed := WithColumn(baseline, ChangeDeployedPrev1h);
    var holiday := WithColumn(changed, IsHoliday);
    var incident := WithColumn(holiday, IncidentOpenInNext2h);
    WithColumn(incident, P1OrP2NextIncident)
  }

  /** df[wanted]: the frame restricted to `wanted`, in that order, or a KeyError when one is missing. */
  function SelectColumns(cols: seq<Column>, wanted: seq<Column>): (r: Option<seq<Column>>)
  {
    if forall w :: w in wanted ==> w in cols then Some(wanted) else None
  }

  /**
   * No label appears twice. Every frame the script builds has this shape:
   * df[c] = ... never adds a label that is already there.
   */
  predicate DistinctColumns(cols: seq<Column>)
  {
    forall i, j :: 0 <= i < j < |cols| ==> cols[i] != cols[j]
  }

  /**
   * df[wanted] succeeds for any reordering of the existing columns, and the
   * frame it yields holds each of them exactly as often as before. With a
   * repeated label pandas would return every column carrying it, so the
   * existing labels are taken to be distinct.
   */
  lemma SelectPermutation(cols: seq<Column>, wanted: seq<Column>)
    requires DistinctColumns(cols)
    requires multiset(wanted) == multiset(cols)
    ensures SelectColumns(cols, wanted).Some?
    ensures multiset(SelectColumns(cols, wanted).value) == multiset(cols)
  {
    forall w | w in wanted ensures w in cols {
      assert w in multiset(wanted);
    }
  }

  /** Distinct columns have distinct header names. */
  lemma NamesDistinct(c: Column, d: Column)
    ensures Name(c) == Name(d) <==> c == d
  {
  }

  /** The insertion order written out: the change flag was added before is_holiday. */
  lemma InsertionOrderValue()
    ensures InsertionOrder() ==
      [TimestampUtc, Host, Service, CpuPct, MemPct, DiskUsedPct,
       ErrorRate, ChangeDeployedPrev1h, IsHoliday, IncidentOpenInNext2h, P1OrP2NextIncident]
  {
    calc {
      WithColumns(CreatedColumns, BaselineColumns);
      WithColumns(CreatedColumns + [CpuPct], [MemPct, DiskUsedPct, ErrorRate]);
      WithColumns(CreatedColumns + [CpuPct, MemPct], [DiskUsedPct, ErrorRate]);
      WithColumns(CreatedColumns + [CpuPct, MemPct, DiskUsedPct], [ErrorRate]);
      CreatedColumns + BaselineColumns;
    }
  }

  /** A column's position in the insertion order. */
  function InsertionRank(c: Column): nat
  {
    match c
    case TimestampUtc => 0
    case Host => 1
    case Service => 2
    case CpuPct => 3
    case MemPct => 4
    case DiskUsedPct => 5
    case ErrorRate => 6
    case ChangeDeployedPrev1h => 7
    case IsHoliday => 8
    case IncidentOpenInNext2h => 9
    case P1OrP2NextIncident => 10
  }

  /** The columns in insertion order carry no label twice. */
  lemma InsertionOrderDistinct()
    ensures DistinctColumns(InsertionOrder())
  {
    InsertionOrderValue();
    var order := InsertionOrder();
    assert forall i :: 0 <= i < |order| ==> InsertionRank(order[i]) == i;
  }

  /** No column is asked for twice by the final selection. */
  lemma FinalColumnsDistinct()
    ensures |FinalColumns| == 11
    ensures forall i, j :: 0 <= i < j < |FinalColumns| ==> FinalColumns[i] != FinalColumns[j]
  {
  }

  /**
   * The final selection reorders: it moves is_holiday ahead of
   * change_deployed_prev_1h, which were added the other way round, and
   * leaves every other column where it was.
   */
  lemma FinalColumnOrder()
    ensures |InsertionOrder()| == |FinalColumns| == 11
    ensures forall i :: 0 <= i < 11 && i != 7 && i != 8 ==> InsertionOrder()[i] == FinalColumns[i]
    ensures InsertionOrder()[7] == FinalColumns[8] == ChangeDeployedPrev1h
    ensures InsertionOrder()[8] == FinalColumns[7] == IsHoliday
  {
    InsertionOrderValue();
  }

  /** Two sequences that differ only by exchanging the entries at k and k+1 are permutations of each other. */
  lemma SwapNeighboursPermutes<T>(a: seq<T>, b: seq<T>, k: nat)
    requires k + 1 < |a| == |b|
    requires forall i :: 0 <= i < |a| && i != k && i != k + 1 ==> a[i] == b[i]
    requires a[k] == b[k + 1] && a[k + 1] == b[k]
    ensures multiset(a) == multiset(b)
  {
    assert a == a[..k] + [a[k], a[k + 1]] + a[k + 2..];
    assert b == a[..k] + [a[k + 1], a[k]] + a[k + 2..];
  }

  /** The final selection succeeds and keeps all eleven columns: it is a permutation of the insertion order. */
  lemma FinalSelectionKeepsAll()
    ensures multiset(InsertionOrder()) == multiset(FinalColumns)
    ensures SelectColumns(InsertionOrder(), FinalColumns) == Some(FinalColumns)
  {
    FinalColumnOrder();
    var order := InsertionOrder();
    SwapNeighboursPermutes(order, FinalColumns, 7);
    forall w | w in FinalColumns ensures w in order {
      assert w in multiset(FinalColumns);
    }
  }
}
