/**
 * The table of generate_synthetic_data.py as the mutable object the script
 * builds and then edits in place: one array per data column, all of the
 * same length, and the list of columns that currently exist, in order.
 *
 * The script has no loops; each vectorised assignment (`df[c] = ...`,
 * `df.loc[rows, cols] = ...`) is a `forall` statement over the rows it
 * touches. Random draws, the disk ramp plus noise and the rounded error
 * rates are inputs.
 */
module SyntheticData {
  import opened Series

  class MetricsTable {
    /** Number of rows; no step adds or removes one. */
    const n: nat
    /** timestamp_utc, in minutes since an arbitrary origin. */
    const timestamp: seq<int>
    /** host_id and service: one scalar broadcast to every row. */
    const hostId: string
    const service: string
    const cpu: array<real>
    const mem: array<real>
    const disk: array<real>
    const errorRate: array<real>
    const isHoliday: array<int>
    const changeDeployed: array<int>
    const incidentNext2h: array<int>
    const nextIncident: array<string>
    /** The columns that exist so far, in the frame's order. */
    var columns: seq<Column>

    /** Every column has n rows and no two columns share storage. */
    ghost predicate Valid()
    {
      |timestamp| == n &&
      cpu.Length == n && mem.Length == n && disk.Length == n && errorRate.Length == n &&
      isHoliday.Length == n && changeDeployed.Length == n && incidentNext2h.Length == n &&
      nextIncident.Length == n &&
      cpu != mem && cpu != disk && cpu != errorRate &&
      mem != disk && mem != errorRate && disk != errorRate &&
      isHoliday != changeDeployed && isHoliday != incidentNext2h &&
      changeDeployed != incidentNext2h
    }

    /** The frame of timestamps and the two identifier columns (lines 7-12). */
    constructor (start: int, rowCount: nat)
      ensures Valid()
      ensures n == rowCount && timestamp == Timestamps(start, rowCount)
      ensures hostId == HostId && service == ServiceName
      ensures columns == CreatedColumns
      ensures fresh(cpu) && fresh(mem) && fresh(disk) && fresh(errorRate)
      ensures fresh(isHoliday) && fresh(changeDeployed) && fresh(incidentNext2h) && fresh(nextIncident)
    {
      n := rowCount;
      timestamp := Timestamps(start, rowCount);
      hostId, service := HostId, ServiceName;
      cpu := new real[rowCount];
      mem := new real[rowCount];
      disk := new real[rowCount];
      errorRate := new real[rowCount];
      isHoliday := new int[rowCount];
      changeDeployed := new int[rowCount];
      incidentNext2h := new int[rowCount];
      nextIncident := new string[rowCount];
      columns := CreatedColumns;
    }

    /**
     * Baseline utilisation (lines 16-19): cpu and mem are their normal
     * draws clipped to [5, 98] and [10, 98]; disk and error rate are the
     * values given.
     */
    method AddBaseline(cpuDraws: seq<real>, memDraws: seq<real>, diskValues: seq<real>, errorValues: seq<real>)
      requires Valid()
      requires |cpuDraws| == n && |memDraws| == n && |diskValues| == n && |errorValues| == n
      modifies this, cpu, mem, disk, errorRate
      ensures cpu[..] == ClipAll(cpuDraws, CpuFloor, CpuCeiling)
      ensures mem[..] == ClipAll(memDraws, MemFloor, MemCeiling)
      ensures disk[..] == diskValues && errorRate[..] == errorValues
      ensures columns == WithColumns(old(columns), BaselineColumns)
    {
      forall i | 0 <= i < n {
        cpu[i] := Clip(cpuDraws[i], CpuFloor, CpuCeiling);
      }
      forall i | 0 <= i < n {
        mem[i] := Clip(memDraws[i], MemFloor, MemCeiling);
      }
      forall i | 0 <= i < n {
        disk[i] := diskValues[i];
      }
      forall i | 0 <= i < n {
        errorRate[i] := errorValues[i];
      }
      columns := WithColumns(columns, BaselineColumns);
    }

    /**
     * The sustained spike (lines 22-23): the rows df.index[100:144] of cpu
     * and mem receive the two columns of the uniform draw matrix; every
     * other row keeps its value.
     */
    method InjectSpike(spikeCpu: seq<real>, spikeMem: seq<real>)
      requires Valid()
      requires |spikeCpu| == SpikeRowCount(n) && |spikeMem| == SpikeRowCount(n)
      modifies cpu, mem
      ensures cpu[..] == Overwrite(old(cpu[..]), SpikeFirst(n), spikeCpu)
      ensures mem[..] == Overwrite(old(mem[..]), SpikeFirst(n), spikeMem)
    {
      var first := SpikeFirst(n);
      forall i | first <= i < first + |spikeCpu| {
        cpu[i] := spikeCpu[i - first];
      }
      forall i | first <= i < first + |spikeMem| {
        mem[i] := spikeMem[i - first];
      }
    }

    /**
     * The change-deployment flag (lines 26-28): 1 where the timestamp lies
     * in the 30 minutes before the spike's first timestamp. Reading that
     * first row fails (IndexError) when the spike slice is empty, which is
     * `ok == false`, and then nothing changes.
     */
    method AddChangeFlag() returns (ok: bool)
      requires Valid()
      modifies this, changeDeployed
      ensures ok <==> SpikeStart < n
      ensures ok ==> changeDeployed[..] == ChangeFlags(timestamp, timestamp[SpikeStart])
      ensures ok ==> columns == WithColumn(old(columns), ChangeDeployedPrev1h)
      ensures !ok ==> columns == old(columns) && changeDeployed[..] == old(changeDeployed[..])
    {
      if n <= SpikeStart {
        return false;
      }
      var t0 := timestamp[SpikeStart];
      forall i | 0 <= i < n {
        changeDeployed[i] := ChangeFlags(timestamp, t0)[i];
      }
      columns := WithColumn(columns, ChangeDeployedPrev1h);
      ok := true;
    }

    /** The holiday flag (line 31): the scalar 0 on every row. */
    method AddHolidayFlag()
      requires Valid()
      modifies this, isHoliday
      ensures isHoliday[..] == Filled(n, 0)
      ensures columns == WithColumn(old(columns), IsHoliday)
    {
      forall i | 0 <= i < n {
        isHoliday[i] := 0;
      }
      columns := WithColumn(columns, IsHoliday);
    }

    /**
     * incident_open_in_next_2h (lines 36-37): the column is created as 0,
     * then rows 96..100 (a label slice, both ends) are set to 1. The column
     * already exists when locating the spike's first row fails.
     */
    method LabelIncidentWindow() returns (ok: bool)
      requires Valid()
      modifies this, incidentNext2h
      ensures ok <==> SpikeStart < n
      ensures incidentNext2h[..] == if ok then IncidentColumn(n) else Filled(n, 0)
      ensures columns == WithColumn(old(columns), IncidentOpenInNext2h)
    {
      forall i | 0 <= i < n {
        incidentNext2h[i] := 0;
      }
      columns := WithColumn(columns, IncidentOpenInNext2h);
      if n <= SpikeStart {
        return false;
      }
      var lo, hi := SpikeStart - IncidentLeadRows, SpikeStart;
      forall i | lo <= i <= hi && i < n {
        incidentNext2h[i] := 1;
      }
      ok := true;
    }

    /**
     * p1_or_p2_next_incident (lines 38-39): "None" on every row, then "P1"
     * on the spike's first row; as above, that row may not exist.
     */
    method LabelPriority() returns (ok: bool)
      requires Valid()
      modifies this, nextIncident
      ensures ok <==> SpikeStart < n
      ensures ok ==> nextIncident[..] == PriorityColumn(n)
      ensures !ok ==> nextIncident[..] == Filled(n, NoIncident)
      ensures columns == WithColumn(old(columns), P1OrP2NextIncident)
    {
      forall i | 0 <= i < n {
        nextIncident[i] := NoIncident;
      }
      columns := WithColumn(columns, P1OrP2NextIncident);
      if n <= SpikeStart {
        return false;
      }
      nextIncident[SpikeStart] := P1;
      ok := true;
    }

    /**
     * df[wanted] (lines 42-46): the frame restricted to `wanted`, in that
     * order; a KeyError (`ok == false`) when one of them does not exist.
     * The data columns are untouched. The frame's labels are distinct, as
     * in every frame the script builds.
     */
    method SelectColumnsInPlace(wanted: seq<Column>) returns (ok: bool)
      requires DistinctColumns(columns)
      modifies this
      ensures ok <==> SelectColumns(old(columns), wanted).Some?
      ensures columns == if ok then wanted else old(columns)
    {
      var selected := SelectColumns(columns, wanted);
      if selected.None? {
        return false;
      }
      columns := selected.value;
      ok := true;
    }

    /**
     * Everything the script derives from the spike's position and then
     * the final column selection (lines 26-46), stopping at the first
     * failing step. The metric columns are not touched.
     */
    method DeriveFlagsAndLabels() returns (ok: bool)
      requires Valid()
      requires columns == WithColumns(CreatedColumns, BaselineColumns)
      modifies this, changeDeployed, isHoliday, incidentNext2h, nextIncident
      ensures ok <==> SpikeStart < n
      ensures ok ==> changeDeployed[..] == ChangeFlags(timestamp, timestamp[SpikeStart])
      ensures ok ==> isHoliday[..] == Filled(n, 0)
      ensures ok ==> incidentNext2h[..] == IncidentColumn(n)
      ensures ok ==> nextIncident[..] == PriorityColumn(n)
      ensures ok ==> columns == FinalColumns
      ensures !ok ==> columns == old(columns)
      ensures !ok ==> changeDeployed[..] == old(changeDeployed[..]) && isHoliday[..] == old(isHoliday[..])
      ensures !ok ==> incidentNext2h[..] == old(incidentNext2h[..]) && nextIncident[..] == old(nextIncident[..])
    {
      ok := AddChangeFlag();
      if !ok {
        return;
      }
      AddHolidayFlag();
      ok := LabelIncidentWindow();
      assert ok;
      ok := LabelPriority();
      assert ok;
      assert columns == InsertionOrder();
      ok := SelectFinalColumns();
    }

    /**
     * The final selection (lines 42-46) applied to the frame the
     * assignments leave: it cannot fail, and it yields the final order.
     */
    method SelectFinalColumns() returns (ok: bool)
      requires columns == InsertionOrder()
      modifies this
      ensures ok && columns == FinalColumns
    {
      InsertionOrderDistinct();
      FinalSelectionKeepsAll();
      ok := SelectColumnsInPlace(FinalColumns);
    }
  }

  /**
   * The whole script for n rows starting at `start` minutes (lines 7-46),
   * with the random draws and derived float columns as inputs. It stops at
   * the first failing step, as the script does; with the script's own n
   * (ScriptRowCount) it succeeds.
   */
  method Generate(start: int, n: nat, cpuDraws: seq<real>, memDraws: seq<real>,
                  diskValues: seq<real>, errorValues: seq<real>,
                  spikeCpu: seq<real>, spikeMem: seq<real>)
    returns (t: MetricsTable, ok: bool)
    requires |cpuDraws| == n && |memDraws| == n && |diskValues| == n && |errorValues| == n
    requires |spikeCpu| == SpikeRowCount(n) && |spikeMem| == SpikeRowCount(n)
    ensures fresh(t) && t.Valid() && t.n == n
    ensures ok <==> SpikeStart < n
    ensures t.timestamp == Timestamps(start, n)
    ensures t.hostId == HostId && t.service == ServiceName
    ensures t.cpu[..] == SpikedColumn(cpuDraws, CpuFloor, CpuCeiling, spikeCpu)
    ensures t.mem[..] == SpikedColumn(memDraws, MemFloor, MemCeiling, spikeMem)
    ensures t.disk[..] == diskValues && t.errorRate[..] == errorValues
    ensures ok ==> t.changeDeployed[..] == ChangeFlags(t.timestamp, t.timestamp[SpikeStart])
    ensures ok ==> t.isHoliday[..] == Filled(n, 0)
    ensures ok ==> t.incidentNext2h[..] == IncidentColumn(n)
    ensures ok ==> t.nextIncident[..] == PriorityColumn(n)
    ensures ok ==> t.columns == FinalColumns
    ensures !ok ==> t.columns == WithColumns(CreatedColumns, BaselineColumns)
  {
    t := new MetricsTable(start, n);
    t.AddBaseline(cpuDraws, memDraws, diskValues, errorValues);
    t.InjectSpike(spikeCpu, spikeMem);
    ok := t.DeriveFlagsAndLabels();
  }
}
