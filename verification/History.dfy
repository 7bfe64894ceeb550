/** Lean context history: rows of anchors and diffs, replay to an earlier point, and rollback.

    Sources: internal/workflow/repository/history.go:31-178, internal/workflow/engine/engine.go:1108-1144,
    internal/workflow/service/instance.go:634-639, 879-901, 1163-1166, 1695-1709 and 2496-2520. */
module History {
  import opened Wrappers
  import opened ContextPath
  import opened ContextDiff

  /** One history row; rows are kept in cursor order, so a cursor is a position. A JSON null
      diff is None. System rows (group entries, delay parks, routed failures, joins, anchors)
      carry the empty occurrence id. */
  datatype Row = Row(occurrence: string, isAnchor: bool, snapshot: Json, diff: Option<Diff>, superseded: bool)

  datatype Restore = Restored(ctx: Context) | Gap | TooDeep

  const DEFAULT_REPLAY_MAX: nat := 500

  function SnapshotOf(raw: Json): Option<Context> {
    FieldsOf(Some(raw))
  }

  function Visible(rows: seq<Row>): (r: seq<Row>)
    ensures |r| <= |rows|
  {
    if rows == [] then []
    else
      var last := rows[|rows| - 1];
      Visible(rows[..|rows| - 1]) + if last.superseded then [] else [last]
  }

  /** The context a plain left-to-right fold gives: an anchor replaces it, a diff is applied. */
  ghost function Value(initial: Option<Context>, rows: seq<Row>): Option<Context>
    decreases |rows|
  {
    if rows == [] then initial
    else
      var last := rows[|rows| - 1];
      if last.isAnchor then SnapshotOf(last.snapshot)
      else
        var before := Value(initial, rows[..|rows| - 1]);
        if before.None? || last.diff.None? then None else ApplyDiff(before.value, last.diff.value)
  }

  /** How many rows follow the last anchor. */
  function Depth(rows: seq<Row>): (d: nat)
    ensures d <= |rows|
    decreases |rows|
  {
    if rows == [] || rows[|rows| - 1].isAnchor then 0 else Depth(rows[..|rows| - 1]) + 1
  }

  /** What a replay limited to `max` diffs may answer for the visible rows `rows`: the fold's context,
      a gap met within the limit, or too deep. */
  ghost function Reconstructed(initial: Option<Context>, rows: seq<Row>, max: nat): Restore {
    var n := if Depth(rows) > max then |rows| - (Depth(rows) - max) else |rows|;
    match Value(initial, rows[..n])
    case None => Gap
    case Some(ctx) => if Depth(rows) > max then TooDeep else Restored(ctx)
  }

  function Superseded(row: Row): Row {
    if row.occurrence != "" then row.(superseded := true) else row
  }

  function SupersededFrom(rows: seq<Row>, target: nat): (r: seq<Row>)
    ensures |r| == |rows|
    ensures forall i | 0 <= i < |rows| :: r[i] == if i >= target then Superseded(rows[i]) else rows[i]
  {
    if rows == [] then []
    else
      var n := |rows| - 1;
      SupersededFrom(rows[..n], target) + [if n >= target then Superseded(rows[n]) else rows[n]]
  }

  lemma {:induction false} DepthIsSuffix(rows: seq<Row>, i: nat)
    requires i <= |rows| && (i == 0 || rows[i - 1].isAnchor)
    requires forall j | i <= j < |rows| :: !rows[j].isAnchor
    ensures Depth(rows) == |rows| - i
    decreases |rows|
  {
    if i < |rows| {
      DepthIsSuffix(rows[..|rows| - 1], i);
    }
  }

  lemma {:induction false} ValueGap(initial: Option<Context>, rows: seq<Row>, i: nat)
    requires i <= |rows| && Value(initial, rows[..i]) == None
    requires forall j | i <= j < |rows| :: !rows[j].isAnchor
    ensures Value(initial, rows) == None
    decreases |rows|
  {
    if i == |rows| {
      assert rows[..i] == rows;
    } else {
      assert rows[..|rows| - 1][..i] == rows[..i];
      ValueGap(initial, rows[..|rows| - 1], i);
    }
  }

  /** The stored history of one instance. */
  class HistoryStore {
    var rows: seq<Row>
    const replayMax: nat

    /** A replay limit of zero or less falls back to the default. */
    constructor (max: int)
      ensures rows == [] && replayMax == if max <= 0 then DEFAULT_REPLAY_MAX else max
    {
      rows := [];
      replayMax := if max <= 0 then DEFAULT_REPLAY_MAX else max;
    }

    method Append(row: Row)
      modifies this
      ensures rows == old(rows) + [row]
    {
      rows := rows + [row];
    }

    /** Supersedes the target row and every later visible row that belongs to an occurrence. */
    method SupersedeAfter(target: nat)
      modifies this
      ensures rows == SupersededFrom(old(rows), target)
      ensures |rows| == |old(rows)| && forall j | 0 <= j < |rows| ::
                rows[j] == if j >= target && old(rows)[j].occurrence != "" then old(rows)[j].(superseded := true) else old(rows)[j]
    {
      var n := |rows|;
      for i := 0 to |rows|
        invariant |rows| == n
        invariant forall j | 0 <= j < n :: rows[j] ==
                    if target <= j < i then Superseded(old(rows)[j]) else old(rows)[j]
      {
        if i >= target && !rows[i].superseded && rows[i].occurrence != "" {
          rows := rows[i := rows[i].(superseded := true)];
        }
      }
    }

    /** The context just before the row at `target`: replay the visible rows from their last anchor,
        or from `initial` when there is none. */
    method ReconstructBefore(target: nat, initial: Json) returns (r: Restore)
      requires target <= |rows|
      ensures r == Reconstructed(SnapshotOf(initial), Visible(rows[..target]), replayMax)
    {
      var visible := Visible(rows[..target]);
      var lastAnchor := -1;
      for i := 0 to |visible|
        invariant -1 <= lastAnchor < i
        invariant lastAnchor >= 0 ==> visible[lastAnchor].isAnchor
        invariant forall j | lastAnchor < j < i :: !visible[j].isAnchor
      {
        if visible[i].isAnchor {
          lastAnchor := i;
        }
      }
      var base := if lastAnchor >= 0 then visible[lastAnchor].snapshot else initial;
      assert Value(SnapshotOf(initial), visible[..lastAnchor + 1]) == SnapshotOf(base) by {
        if lastAnchor >= 0 {
          assert visible[..lastAnchor + 1][lastAnchor] == visible[lastAnchor];
        }
      }
      DepthIsSuffix(visible, lastAnchor + 1);
      if !base.Obj? {
        GapAnyway(SnapshotOf(initial), visible, lastAnchor + 1, replayMax);
        return Gap;
      }
      r := ReplayDiffs(SnapshotOf(initial), visible, lastAnchor + 1, base.fields);
    }

    /** Replays the diffs from `start`, where no anchor is left. */
    method ReplayDiffs(ghost initial: Option<Context>, rows: seq<Row>, start: nat, base: Context) returns (r: Restore)
      requires start <= |rows| && Value(initial, rows[..start]) == Some(base)
      requires Depth(rows) == |rows| - start && forall j | start <= j < |rows| :: !rows[j].isAnchor
      ensures r == Reconstructed(initial, rows, replayMax)
    {
      var ctx, replayed := base, 0;
      for i := start to |rows|
        invariant replayed == i - start <= replayMax
        invariant Value(initial, rows[..i]) == Some(ctx)
      {
        if rows[i].isAnchor {
          assert false;
        }
        replayed := replayed + 1;
        if replayed > replayMax {
          DeepAnyway(initial, rows, i, replayMax);
          return TooDeep;
        }
        var next := ReplayTurn(initial, rows, i, ctx);
        if next.None? {
          GapAnyway(initial, rows, i + 1, replayMax);
          return Gap;
        }
        ctx := next.value;
      }
      assert rows[..|rows|] == rows;
      AllReplayed(initial, rows, replayMax);
      return Restored(ctx);
    }

    method ReplayTurn(ghost initial: Option<Context>, rows: seq<Row>, i: nat, ctx: Context) returns (next: Option<Context>)
      requires i < |rows| && Value(initial, rows[..i]) == Some(ctx) && !rows[i].isAnchor
      ensures next == Value(initial, rows[..i + 1])
    {
      ValueStep(initial, rows, i);
      if rows[i].diff.None? {
        return None;
      }
      next := Apply(ctx, rows[i].diff.value);
    }
  }

  lemma ValueStep(initial: Option<Context>, rows: seq<Row>, i: nat)
    requires i < |rows| && Value(initial, rows[..i]).Some? && !rows[i].isAnchor
    ensures Value(initial, rows[..i + 1]) ==
            if rows[i].diff.None? then None else ApplyDiff(Value(initial, rows[..i]).value, rows[i].diff.value)
  {
    assert rows[..i + 1][..i] == rows[..i];
  }

  lemma AllReplayed(initial: Option<Context>, rows: seq<Row>, max: nat)
    requires Depth(rows) <= max && Value(initial, rows).Some?
    ensures Reconstructed(initial, rows, max) == Restored(Value(initial, rows).value)
  {
    assert rows[..|rows|] == rows;
  }

  /** A replay that reads as many rows as the limit allows without a gap, and not all, is too deep. */
  lemma DeepAnyway(initial: Option<Context>, rows: seq<Row>, i: nat, max: nat)
    requires i < |rows| && Depth(rows) > max && i == |rows| - Depth(rows) + max && Value(initial, rows[..i]).Some?
    ensures Reconstructed(initial, rows, max) == TooDeep
  {
  }

  /** A gap among the rows a limited replay reads is reported whatever follows. */
  lemma GapAnyway(initial: Option<Context>, rows: seq<Row>, i: nat, max: nat)
    requires i <= |rows| && i <= |rows| - Depth(rows) + max
    requires Value(initial, rows[..i]) == None
    requires forall j | i <= j < |rows| :: !rows[j].isAnchor
    ensures Reconstructed(initial, rows, max) == Gap
  {
    var n := if Depth(rows) > max then |rows| - (Depth(rows) - max) else |rows|;
    assert rows[..n][..i] == rows[..i];
    ValueGap(initial, rows[..n], i);
  }
}
