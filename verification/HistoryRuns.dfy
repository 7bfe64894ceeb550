/** The lean history of an instance over whole runs: commits, input deliveries, replaced
    contexts and rollbacks. Replay agrees with the contexts that were stored.

    Sources: internal/workflow/engine/engine.go:1108-1144, internal/workflow/repository/history.go:70-150,
    internal/workflow/service/instance.go:634-639, 895-901, 1163-1166, 1695-1709, 1908-1932 and 2499-2520. */
module HistoryRuns {
  import opened Wrappers
  import opened Strings
  import opened ContextPath
  import opened ContextDiff
  import opened DiffRoundTrip
  import opened History

  // ---- The rows each writer appends ----

  /** Which row numbers are an anchor's turn: every `anchorEvery`-th row, none when that is not positive. */
  function Turns(anchorEvery: int): nat -> bool {
    n => anchorEvery > 0 && (n + 1) % anchorEvery == 0
  }

  function AnchorRow(ctx: Context): Row {
    Row("", true, Obj(ctx), None, false)
  }

  /** A row an engine commit appends; `due` says whether it is an anchor's turn. */
  ghost predicate CommitRow(row: Row, due: bool, start: Context, end: Context, occurrence: string) {
    && row.occurrence == occurrence && !row.superseded && row.isAnchor == due
    && (if row.isAnchor then row.snapshot == Obj(end) && row.diff.None?
        else row.snapshot.Null? && row.diff.Some? && Represents(row.diff.value, start, end))
  }

  /** A row an input delivery appends: never an anchor, and an empty diff when none can be computed. */
  ghost predicate DeliveryRow(row: Row, start: Context, end: Context, occurrence: string) {
    && row.occurrence == occurrence && !row.superseded && !row.isAnchor && row.diff.Some?
    && (if Diffable(start, end) then Represents(row.diff.value, start, end) else row.diff.value == Diff(map[], []))
  }

  /** Fails exactly when no diff can be computed; then nothing is committed. */
  method HistoryForCommit(history: seq<Row>, start: Context, end: Context, occurrence: string, anchorEvery: int)
      returns (r: Option<Row>)
    ensures r.Some? <==> Diffable(start, end)
    ensures r.Some? ==> CommitRow(r.value, Turns(anchorEvery)(|history|), start, end, occurrence)
    ensures r.Some? ==> (r.value.isAnchor <==> anchorEvery > 0 && (|history| + 1) % anchorEvery == 0)
  {
    var diff := DiffMaps(start, end);
    if diff.None? {
      return None;
    }
    var row := Row(occurrence, false, Null, Some(diff.value), false);
    if anchorEvery > 0 && (|history| + 1) % anchorEvery == 0 {
      row := row.(isAnchor := true, snapshot := Obj(end), diff := None);
    }
    return Some(row);
  }

  method HistoryForDelivery(start: Context, end: Context, occurrence: string) returns (row: Row)
    ensures DeliveryRow(row, start, end, occurrence)
  {
    var diff := DiffMaps(start, end);
    return Row(occurrence, false, Null, Some(if diff.None? then Diff(map[], []) else diff.value), false);
  }

  // ---- One row against the fold ----

  const EMPTY: Option<Context> := Some(map[])

  lemma VisibleSnoc(rows: seq<Row>, row: Row)
    ensures Visible(rows + [row]) == Visible(rows) + if row.superseded then [] else [row]
  {
    assert (rows + [row])[..|rows|] == rows;
  }

  lemma DiffRowSnoc(rows: seq<Row>, row: Row)
    requires !row.isAnchor && row.diff.Some? && Value(EMPTY, rows).Some?
    ensures Value(EMPTY, rows + [row]) == ApplyDiff(Value(EMPTY, rows).value, row.diff.value)
    ensures Depth(rows + [row]) == Depth(rows) + 1
  {
    assert (rows + [row])[..|rows|] == rows;
  }

  lemma ValueSnoc(rows: seq<Row>, row: Row)
    requires !row.superseded
    ensures Value(EMPTY, Visible(rows + [row])) ==
            if row.isAnchor then SnapshotOf(row.snapshot)
            else if Value(EMPTY, Visible(rows)).None? || row.diff.None? then None
            else ApplyDiff(Value(EMPTY, Visible(rows)).value, row.diff.value)
    ensures Depth(Visible(rows + [row])) == if row.isAnchor then 0 else Depth(Visible(rows)) + 1
  {
    VisibleSnoc(rows, row);
    var v := Visible(rows);
    assert (v + [row])[..|v|] == v;
  }

  /** A commit keeps replay equal to the stored context exactly when it is an anchor or maps
      changed only under bare path keys; otherwise replay reports a gap, never a wrong context. */
  lemma CommitIsFaithful(rows: seq<Row>, row: Row, due: bool, start: Context, end: Context, occurrence: string)
    requires Value(EMPTY, Visible(rows)) == Some(start) && Diffable(start, end)
    requires CommitRow(row, due, start, end, occurrence)
    ensures Value(EMPTY, Visible(rows + [row])) ==
            if due || PathSafe(start, end) then Some(end) else None
  {
    ValueSnoc(rows, row);
    if !row.isAnchor {
      DiffRestores(start, end, row.diff.value);
    }
  }

  /** Whether a delivery's row replays to the context the delivery stored. */
  predicate DeliverySafe(start: Context, end: Context) {
    if Diffable(start, end) then PathSafe(start, end) else start == end
  }

  lemma EmptyDiffKeeps(ctx: Context)
    ensures ApplyDiff(ctx, Diff(map[], [])) == Some(ctx)
  {
    var d := Diff(map[], []);
    assert d.set_.Keys == {};
    assert Order(d.set_.Keys) == [];
  }

  /** A delivery keeps replay equal to the stored context exactly when it is safe. An undiffable
      one is recorded as no change, so replay then silently keeps the old context. */
  lemma DeliveryIsFaithful(rows: seq<Row>, row: Row, start: Context, end: Context, occurrence: string)
    requires Value(EMPTY, Visible(rows)) == Some(start) && DeliveryRow(row, start, end, occurrence)
    ensures Value(EMPTY, Visible(rows + [row])) == Some(end) <==> DeliverySafe(start, end)
    ensures !Diffable(start, end) ==> Value(EMPTY, Visible(rows + [row])) == Some(start)
  {
    ValueSnoc(rows, row);
    DeliveryReplays(row, start, end, occurrence);
  }

  lemma DeliveryReplays(row: Row, start: Context, end: Context, occurrence: string)
    requires DeliveryRow(row, start, end, occurrence)
    ensures ApplyDiff(start, row.diff.value) == Some(end) <==> DeliverySafe(start, end)
    ensures !Diffable(start, end) ==> ApplyDiff(start, row.diff.value) == Some(start)
  {
    if Diffable(start, end) {
      DiffRestores(start, end, row.diff.value);
    } else {
      EmptyDiffKeeps(start);
    }
  }

  /** A delivery that stores a dotted top-level key: the row says nothing changed. */
  lemma DottedKeyIsForgotten(rows: seq<Row>, row: Row)
    requires Value(EMPTY, Visible(rows)) == Some(map[]) && DeliveryRow(row, map[], map["a.b" := Null], "occurrence")
    ensures Value(EMPTY, Visible(rows + [row])) == Some(map[])
  {
    assert "a.b"[1] == '.' && '.' in "a.b" && !PlainKey("a.b");
    var after: Context := map["a.b" := Null];
    assert "a.b" in after.Keys;
    DeliveryIsFaithful(rows, row, map[], after, "occurrence");
  }

  // ---- Runs ----

  /** An instance's rows and stored context, with the context that was stored before each row. */
  datatype Log = Log(rows: seq<Row>, ctx: Context, befores: seq<Context>)

  datatype Op =
    | Commit(end: Context, occurrence: string)
    | Deliver(end: Context, occurrence: string)
    | Replace(ctx: Context)
    | Rollback(target: nat)

  /** Positions replay is asked about: rows of live occurrences, and the end of the log. */
  predicate Askable(l: Log, k: nat) {
    k == |l.rows| || (k < |l.rows| && !l.rows[k].superseded && l.rows[k].occurrence != "")
  }

  function Before(l: Log, k: nat): Context
    requires |l.befores| == |l.rows| && k <= |l.rows|
  {
    if k == |l.rows| then l.ctx else l.befores[k]
  }

  ghost predicate Appended(l: Log, row: Row, ctx: Context, l': Log) {
    l' == Log(l.rows + [row], ctx, l.befores + [l.ctx])
  }

  /** One operation. A rollback to a row of a live occurrence restores by replay, supersedes, then
      appends an anchor; when replay fails it changes nothing. */
  ghost predicate Step(l: Log, op: Op, l': Log, due: nat -> bool, max: nat) {
    match op
    case Commit(end, occ) => Diffable(l.ctx, end) && exists row ::
      CommitRow(row, due(|l.rows|), l.ctx, end, occ) && Appended(l, row, end, l')
    case Deliver(end, occ) => occ != "" && exists row :: DeliveryRow(row, l.ctx, end, occ) && Appended(l, row, end, l')
    case Replace(ctx) => Appended(l, AnchorRow(ctx), ctx, l')
    case Rollback(t) => t < |l.rows| && Askable(l, t) && RolledBack(l, t, l', max)
  }

  ghost predicate RolledBack(l: Log, t: nat, l': Log, max: nat)
    requires t < |l.rows|
  {
    match Reconstructed(EMPTY, Visible(l.rows[..t]), max)
    case Restored(c) => Appended(l.(rows := SupersededFrom(l.rows, t)), AnchorRow(c), c, l')
    case _ => l' == l
  }

  /** No delivery takes the turn of an anchor. */
  predicate Punctual(l: Log, op: Op, due: nat -> bool) {
    op.Deliver? ==> !due(|l.rows|)
  }

  /** What a row of a writer says about the contexts stored before and after it. */
  ghost predicate RowFits(row: Row, start: Context, end: Context) {
    if row.isAnchor then SnapshotOf(row.snapshot) == Some(end)
    else row.diff.Some? && if Diffable(start, end) then Represents(row.diff.value, start, end) else row.diff.value == Diff(map[], [])
  }

  /** Every live row says what was stored around it. */
  ghost predicate Told(l: Log) {
    && |l.befores| == |l.rows|
    && forall i: nat | i < |l.rows| && !l.rows[i].superseded :: RowFits(l.rows[i], l.befores[i], Before(l, i + 1))
  }

  predicate LiveAnchor(l: Log, i: nat) {
    i < |l.rows| && l.rows[i].isAnchor && !l.rows[i].superseded
  }

  /** Every row at an anchor's turn is an anchor, whoever wrote it. */
  predicate OnTime(l: Log, due: nat -> bool) {
    forall i | 0 <= i < |l.rows| && due(i) :: l.rows[i].isAnchor
  }

  /** A superseded row always has a live anchor between it and any position asked about. */
  ghost predicate Covered(l: Log) {
    forall j: nat, k: nat | j < k <= |l.rows| && l.rows[j].superseded && Askable(l, k) ::
      AnchorBetween(l, j, k)
  }

  ghost predicate AnchorBetween(l: Log, j: nat, k: nat) {
    exists i: nat :: j < i < k && LiveAnchor(l, i)
  }

  ghost predicate Inv(l: Log) {
    && |l.rows| > 0 && LiveAnchor(l, 0) && l.rows[0].occurrence == ""
    && Told(l) && Covered(l)
  }

  // ---- The changes a replay goes through ----

  /** A live row that replay to `k` reads: no live anchor follows it before `k`. */
  ghost predicate Behind(l: Log, i: nat, k: nat) {
    i < k <= |l.rows| && !l.rows[i].superseded && !l.rows[i].isAnchor && !AnchorBetween(l, i, k)
  }

  /** Maps changed only under bare path keys in every row that replay to `k` reads. */
  ghost predicate SafeBehind(l: Log, k: nat)
    requires |l.befores| == |l.rows|
  {
    forall i: nat | Behind(l, i, k) :: PathSafe(l.befores[i], Before(l, i + 1))
  }

  /** A change a row can record: one with a diff, or none at all. */
  predicate Recordable(start: Context, end: Context) {
    Diffable(start, end) || start == end
  }

  ghost predicate RecordedBehind(l: Log, k: nat)
    requires |l.befores| == |l.rows|
  {
    forall i: nat | Behind(l, i, k) :: Recordable(l.befores[i], Before(l, i + 1))
  }

  // ---- How far replay has to go ----

  lemma PrefixDepth(rows: seq<Row>, k: nat)
    requires 0 < k <= |rows|
    ensures var row := rows[k - 1];
            Depth(Visible(rows[..k])) ==
            if row.superseded then Depth(Visible(rows[..k - 1])) else if row.isAnchor then 0 else Depth(Visible(rows[..k - 1])) + 1
  {
    var row := rows[k - 1];
    assert rows[..k] == rows[..k - 1] + [row];
    VisibleSnoc(rows[..k - 1], row);
    if row.superseded {
      assert Visible(rows[..k - 1]) + [] == Visible(rows[..k - 1]);
    } else {
      ValueSnoc(rows[..k - 1], row);
    }
  }

  lemma {:induction false} DepthAfterAnchor(l: Log, i: nat, k: nat)
    requires LiveAnchor(l, i) && i < k <= |l.rows|
    ensures Depth(Visible(l.rows[..k])) <= k - 1 - i
    decreases k
  {
    PrefixDepth(l.rows, k);
    if k - 1 > i {
      DepthAfterAnchor(l, i, k - 1);
    }
  }

  lemma LastLiveAnchor(l: Log, k: nat) returns (i: nat)
    requires LiveAnchor(l, 0) && 0 < k <= |l.rows|
    ensures i < k && LiveAnchor(l, i) && forall j: nat | i < j < k :: !LiveAnchor(l, j)
  {
    i := k - 1;
    while !LiveAnchor(l, i)
      invariant i < k && forall j: nat | i < j < k :: !LiveAnchor(l, j)
      decreases i
    {
      i := i - 1;
    }
  }

  lemma {:induction false} AtLeastOnce(k: int, a: int)
    requires a > 0
    ensures k > 0 ==> k * a >= a
    ensures k < 0 ==> k * a <= 0 - a
    decreases if k > 0 then k else -k
  {
    if k > 1 {
      AtLeastOnce(k - 1, a);
      assert k * a == (k - 1) * a + a;
    } else if k < -1 {
      AtLeastOnce(k + 1, a);
      assert k * a == (k + 1) * a - a;
    }
  }

  lemma MultipleHasNoRemainder(x: int, a: int, q: int)
    requires a > 0 && x == q * a
    ensures x % a == 0
  {
    assert x == x / a * a + x % a;
    assert (q - x / a) * a == x % a;
    AtLeastOnce(q - x / a, a);
  }

  /** Among any A rows in a row, one is at an anchor's turn. */
  lemma AnchorTurn(i: nat, a: nat) returns (j: nat)
    requires a > 0
    ensures i < j <= i + a && Turns(a)(j)
  {
    var x := i + 1;
    j := i + a - x % a;
    assert x == x / a * a + x % a;
    assert (x / a + 1) * a == x / a * a + a;
    MultipleHasNoRemainder(j + 1, a, x / a + 1);
  }

  /** After the last live anchor before a position asked about, no row is at an anchor's turn. */
  lemma NoTurnAfter(l: Log, due: nat -> bool, i: nat, j: nat, k: nat)
    requires Inv(l) && OnTime(l, due) && i < j < k <= |l.rows| && Askable(l, k)
    requires forall n: nat | i < n < k :: !LiveAnchor(l, n)
    ensures !due(j)
  {
    assert l.rows[j].superseded ==> AnchorBetween(l, j, k);
    assert !AnchorBetween(l, j, k);
    assert !LiveAnchor(l, j);
  }

  /** When anchors are on time, replay to any position asked about reads fewer diffs than the anchor
      interval, through any number of rollbacks. */
  lemma ReplayIsShort(l: Log, anchorEvery: nat, k: nat)
    requires Inv(l) && OnTime(l, Turns(anchorEvery)) && anchorEvery > 0 && 0 < k <= |l.rows| && Askable(l, k)
    ensures Depth(Visible(l.rows[..k])) < anchorEvery
  {
    var i := LastLiveAnchor(l, k);
    DepthAfterAnchor(l, i, k);
    var j := AnchorTurn(i, anchorEvery);
    if j < k {
      NoTurnAfter(l, Turns(anchorEvery), i, j, k);
    }
  }

  /** The rows from `i` on that replay to `m` reads when `i` is the last live anchor. */
  predicate Unbroken(l: Log, i: nat, m: nat) {
    LiveAnchor(l, i) && i < m <= |l.rows| && forall j: nat | i < j < m :: !l.rows[j].superseded && !l.rows[j].isAnchor
  }

  lemma BehindIsUnbroken(l: Log, i: nat, k: nat)
    requires Inv(l) && Askable(l, k) && i < k <= |l.rows| && LiveAnchor(l, i) && forall j: nat | i < j < k :: !LiveAnchor(l, j)
    ensures Unbroken(l, i, k) && forall j: nat :: Behind(l, j, k) <==> i < j < k
  {
    forall j: nat | i < j < k
      ensures !l.rows[j].superseded && !l.rows[j].isAnchor && !AnchorBetween(l, j, k)
    {
      assert !LiveAnchor(l, j);
      assert l.rows[j].superseded ==> AnchorBetween(l, j, k);
    }
    forall j: nat | j < i
      ensures AnchorBetween(l, j, k)
    {
      assert j < i < k && LiveAnchor(l, i);
    }
  }

  /** The fold of the live rows before position `k`. */
  ghost function Fold(rows: seq<Row>, k: nat): Option<Context>
    requires k <= |rows|
    decreases k
  {
    if k == 0 then EMPTY else AfterRow(Fold(rows, k - 1), rows[k - 1])
  }

  ghost function AfterRow(before: Option<Context>, row: Row): Option<Context> {
    if row.superseded then before
    else if row.isAnchor then SnapshotOf(row.snapshot)
    else if before.None? || row.diff.None? then None
    else ApplyDiff(before.value, row.diff.value)
  }

  lemma ValueAfterRow(rows: seq<Row>, row: Row)
    ensures Value(EMPTY, Visible(rows + [row])) == AfterRow(Value(EMPTY, Visible(rows)), row)
  {
    if row.superseded {
      VisibleSnoc(rows, row);
      assert Visible(rows) + [] == Visible(rows);
    } else {
      ValueSnoc(rows, row);
    }
  }

  lemma {:induction false} FoldIsValue(rows: seq<Row>, k: nat)
    requires k <= |rows|
    ensures Fold(rows, k) == Value(EMPTY, Visible(rows[..k]))
    decreases k
  {
    if k > 0 {
      FoldIsValue(rows, k - 1);
      assert rows[..k] == rows[..k - 1] + [rows[k - 1]];
      ValueAfterRow(rows[..k - 1], rows[k - 1]);
    }
  }

  lemma DiffReplays(d: Diff, start: Context, end: Context)
    requires Recordable(start, end)
    requires if Diffable(start, end) then Represents(d, start, end) else d == Diff(map[], [])
    ensures ApplyDiff(start, d) == if PathSafe(start, end) then Some(end) else None
  {
    if Diffable(start, end) {
      DiffRestores(start, end, d);
    } else {
      EmptyDiffKeeps(start);
    }
  }

  ghost predicate SafeAt(l: Log, j: nat) {
    j < |l.rows| == |l.befores| && PathSafe(l.befores[j], Before(l, j + 1))
  }

  lemma FoldAtAnchor(l: Log, i: nat)
    requires Told(l) && LiveAnchor(l, i)
    ensures Fold(l.rows, i + 1) == Some(Before(l, i + 1))
  {
    assert RowFits(l.rows[i], l.befores[i], Before(l, i + 1));
  }

  /** What one more row does to the fold: it goes on exactly when the change is safe, and a gap stays. */
  ghost predicate FoldsAt(l: Log, j: nat)
    requires |l.befores| == |l.rows| && j < |l.rows|
  {
    (Fold(l.rows, j).Some? ==> Fold(l.rows, j) == Some(l.befores[j])) ==>
      Fold(l.rows, j + 1) == if Fold(l.rows, j).Some? && SafeAt(l, j) then Some(Before(l, j + 1)) else None
  }

  lemma FoldMore(l: Log, j: nat)
    requires Told(l) && j < |l.rows| && !l.rows[j].superseded && !l.rows[j].isAnchor
    requires Recordable(l.befores[j], Before(l, j + 1))
    ensures FoldsAt(l, j)
  {
    assert RowFits(l.rows[j], l.befores[j], Before(l, j + 1));
    DiffReplays(l.rows[j].diff.value, l.befores[j], Before(l, j + 1));
  }

  ghost predicate SafeSince(l: Log, i: nat, m: nat) {
    forall j: nat | i < j < m :: SafeAt(l, j)
  }

  /** The fold from the last live anchor on: the stored context as long as changes are safe, and from the
      first unsafe one on nothing at all, whatever follows. */
  lemma FoldSince(l: Log, i: nat, m: nat)
    requires Told(l) && Unbroken(l, i, m)
    requires forall j: nat | i < j < m :: Recordable(l.befores[j], Before(l, j + 1))
    ensures Fold(l.rows, m) == if SafeSince(l, i, m) then Some(Before(l, m)) else None
  {
    FoldAtAnchor(l, i);
    forall j: nat | i < j < m
      ensures FoldsAt(l, j)
    {
      FoldMore(l, j);
    }
    FoldsTogether(l, i, m);
  }

  lemma {:induction false} FoldsTogether(l: Log, i: nat, m: nat)
    requires |l.befores| == |l.rows| && i < m <= |l.rows|
    requires Fold(l.rows, i + 1) == Some(Before(l, i + 1)) && forall j: nat | i < j < m :: FoldsAt(l, j)
    ensures Fold(l.rows, m) == if SafeSince(l, i, m) then Some(Before(l, m)) else None
    decreases m
  {
    if m > i + 1 {
      FoldsTogether(l, i, m - 1);
      SafeSinceMore(l, i, m - 1);
      assert FoldsAt(l, m - 1);
    }
  }

  lemma SafeSinceMore(l: Log, i: nat, j: nat)
    requires i < j
    ensures SafeSince(l, i, j + 1) <==> SafeSince(l, i, j) && SafeAt(l, j)
  {
  }

  /** What replay answers wherever it is asked, when the rows it reads are recorded: the context stored
      before the row if and only if at most `max` rows follow the last anchor and maps changed in
      them only under bare path keys; otherwise a gap or "too deep", never a wrong context. */
  lemma ReplayIsExact(l: Log, max: nat, k: nat)
    requires Inv(l) && k <= |l.rows| && Askable(l, k) && RecordedBehind(l, k)
    ensures var rows := Visible(l.rows[..k]);
            var answer := Reconstructed(EMPTY, rows, max);
            && (SafeBehind(l, k) ==> answer == if Depth(rows) <= max then Restored(Before(l, k)) else TooDeep)
            && (!SafeBehind(l, k) ==> if Depth(rows) <= max then answer == Gap else answer in {Gap, TooDeep})
  {
    FoldBehind(l, k);
    ReplayOfFold(Visible(l.rows[..k]), max);
  }

  lemma FoldBehind(l: Log, k: nat)
    requires Inv(l) && k <= |l.rows| && Askable(l, k) && RecordedBehind(l, k)
    ensures Value(EMPTY, Visible(l.rows[..k])) == if SafeBehind(l, k) then Some(Before(l, k)) else None
  {
    var i := LastLiveAnchor(l, k);
    BehindIsUnbroken(l, i, k);
    FoldSince(l, i, k);
    SafeBehindIsSince(l, i, k);
    FoldIsValue(l.rows, k);
  }

  lemma SafeBehindIsSince(l: Log, i: nat, k: nat)
    requires |l.befores| == |l.rows| && k <= |l.rows| && forall j: nat :: Behind(l, j, k) <==> i < j < k
    ensures SafeBehind(l, k) <==> SafeSince(l, i, k)
  {
    if SafeBehind(l, k) {
      forall j: nat | i < j < k
        ensures SafeAt(l, j)
      {
        assert Behind(l, j, k);
      }
    }
    if SafeSince(l, i, k) {
      forall j: nat | Behind(l, j, k)
        ensures PathSafe(l.befores[j], Before(l, j + 1))
      {
        assert SafeAt(l, j);
      }
    }
  }

  lemma ReplayOfFold(rows: seq<Row>, max: nat)
    ensures var answer := Reconstructed(EMPTY, rows, max);
            if Depth(rows) > max then answer in {Gap, TooDeep}
            else answer == match Value(EMPTY, rows) case Some(ctx) => Restored(ctx) case None => Gap
    ensures Depth(rows) > max && Value(EMPTY, rows).Some? ==> Reconstructed(EMPTY, rows, max) == TooDeep
  {
    if Depth(rows) <= max {
      assert rows[..|rows|] == rows;
    } else {
      var i := |rows| - (Depth(rows) - max);
      NoAnchorInDepth(rows);
      if Value(EMPTY, rows[..i]) == None {
        ValueGap(EMPTY, rows, i);
      }
    }
  }

  lemma {:induction false} NoAnchorInDepth(rows: seq<Row>)
    ensures forall j | |rows| - Depth(rows) <= j < |rows| :: !rows[j].isAnchor
    decreases |rows|
  {
    if rows != [] && !rows[|rows| - 1].isAnchor {
      var init := rows[..|rows| - 1];
      NoAnchorInDepth(init);
      assert forall j | 0 <= j < |init| :: init[j] == rows[j];
    }
  }

  // ---- Every operation keeps the invariant ----

  /** `l'` is `l` with rows superseded only from `t` on, and one live row more. */
  ghost predicate Extends(l: Log, l': Log, t: nat) {
    var n := |l.rows|;
    && |l.befores| == n && |l'.rows| == |l'.befores| == n + 1 && t <= n && !l'.rows[n].superseded
    && l'.befores[..n] == l.befores && l'.befores[n] == l.ctx && l'.rows[..t] == l.rows[..t]
    && forall i | t <= i < n :: l'.rows[i] == Superseded(l.rows[i])
  }

  lemma KeptRow(l: Log, l': Log, t: nat, i: nat)
    requires Extends(l, l', t) && i < |l.rows| && !l'.rows[i].superseded
    ensures l'.rows[i] == l.rows[i] && l'.befores[i] == l.befores[i] && Before(l', i + 1) == Before(l, i + 1)
  {
    var n := |l.rows|;
    if i < t {
      assert l'.rows[..t][i] == l.rows[..t][i];
    }
    assert l'.befores[..n][i] == l.befores[i];
    if i + 1 < n {
      assert l'.befores[..n][i + 1] == l.befores[i + 1];
    }
  }

  lemma ExtendIsTold(l: Log, l': Log, t: nat)
    requires Told(l) && Extends(l, l', t) && RowFits(l'.rows[|l.rows|], l.ctx, l'.ctx)
    ensures Told(l')
  {
    forall i: nat | i < |l'.rows| && !l'.rows[i].superseded
      ensures RowFits(l'.rows[i], l'.befores[i], Before(l', i + 1))
    {
      if i < |l.rows| {
        KeptRow(l, l', t, i);
      }
    }
  }

  lemma ExtendIsCovered(l: Log, l': Log, t: nat)
    requires Covered(l) && Extends(l, l', t)
    requires t == |l.rows| || l'.rows[|l.rows|].isAnchor
    requires t == |l.rows| || !Askable(l', |l.rows|)
    ensures Covered(l')
  {
    var n := |l.rows|;
    assert forall i | 0 <= i < t :: l'.rows[i] == l'.rows[..t][i] && l.rows[i] == l.rows[..t][i];
    forall j: nat, k: nat | j < k <= |l'.rows| && l'.rows[j].superseded && Askable(l', k)
      ensures AnchorBetween(l', j, k)
    {
      if k == n + 1 && t < n {
        assert LiveAnchor(l', n);
      } else {
        var m := if k == n + 1 then n else k;
        assert m <= t && j < m && Askable(l, m) && AnchorBetween(l, j, m);
        var i: nat :| j < i < m && LiveAnchor(l, i);
        assert LiveAnchor(l', i);
      }
    }
  }

  lemma ExtendIsOnTime(l: Log, l': Log, t: nat, due: nat -> bool)
    requires OnTime(l, due) && Extends(l, l', t)
    requires due(|l.rows|) ==> l'.rows[|l.rows|].isAnchor
    ensures OnTime(l', due)
  {
    forall i | 0 <= i < |l'.rows| && due(i)
      ensures l'.rows[i].isAnchor
    {
      if i < t {
        assert l'.rows[..t][i] == l.rows[..t][i];
      }
    }
  }

  lemma AppendExtends(l: Log, row: Row, ctx: Context, l': Log)
    requires |l.befores| == |l.rows| && Appended(l, row, ctx, l') && !row.superseded
    ensures Extends(l, l', |l.rows|) && l'.rows[|l.rows|] == row
  {
    var n := |l.rows|;
    assert l'.rows[..n] == l.rows && l.rows[..n] == l.rows;
  }

  lemma AppendKeeps(l: Log, row: Row, ctx: Context, l': Log)
    requires Inv(l) && Appended(l, row, ctx, l') && !row.superseded && RowFits(row, l.ctx, ctx)
    ensures Inv(l') && Extends(l, l', |l.rows|) && l'.rows[|l.rows|] == row
  {
    AppendExtends(l, row, ctx, l');
    ExtendIsTold(l, l', |l.rows|);
    ExtendIsCovered(l, l', |l.rows|);
    assert l'.rows[0] == l.rows[0];
  }

  lemma RollbackExtends(l: Log, t: nat, c: Context, l': Log)
    requires |l.befores| == |l.rows| && t < |l.rows|
    requires Appended(l.(rows := SupersededFrom(l.rows, t)), AnchorRow(c), c, l')
    ensures Extends(l, l', t) && l'.rows[|l.rows|] == AnchorRow(c) && l'.ctx == c
  {
    var n := |l.rows|;
    assert l'.rows == SupersededFrom(l.rows, t) + [AnchorRow(c)];
    assert l'.rows[..t] == l.rows[..t] && l'.befores[..n] == l.befores;
  }

  lemma RollbackKeeps(l: Log, t: nat, c: Context, l': Log)
    requires Inv(l) && t < |l.rows| && Askable(l, t)
    requires Appended(l.(rows := SupersededFrom(l.rows, t)), AnchorRow(c), c, l')
    ensures Inv(l') && Extends(l, l', t) && l'.rows[|l.rows|] == AnchorRow(c)
  {
    RollbackExtends(l, t, c, l');
    ExtendIsTold(l, l', t);
    ExtendIsCovered(l, l', t);
    assert l'.rows[0] == l'.rows[..t][0] && l.rows[0] == l.rows[..t][0];
  }

  /** An operation changes nothing or extends the log by a row that is an anchor or records the change
      it made, whatever that change is. */
  lemma StepExtends(l: Log, op: Op, l': Log, due: nat -> bool, max: nat) returns (t: nat)
    requires Inv(l) && Step(l, op, l', due, max)
    ensures Inv(l')
    ensures l' == l || (Extends(l, l', t) && (due(|l.rows|) && Punctual(l, op, due) ==> l'.rows[|l.rows|].isAnchor))
    ensures l' == l || l'.rows[|l.rows|].isAnchor || ((op.Commit? || op.Deliver?) && l'.ctx == op.end)
  {
    t := |l.rows|;
    match op {
      case Commit(end, occ) =>
        var row :| CommitRow(row, due(|l.rows|), l.ctx, end, occ) && Appended(l, row, end, l');
        AppendKeeps(l, row, end, l');
      case Deliver(end, occ) =>
        var row :| DeliveryRow(row, l.ctx, end, occ) && Appended(l, row, end, l');
        AppendKeeps(l, row, end, l');
      case Replace(ctx) =>
        AppendKeeps(l, AnchorRow(ctx), ctx, l');
      case Rollback(target) =>
        var r := Reconstructed(EMPTY, Visible(l.rows[..target]), max);
        if r.Restored? {
          t := target;
          RollbackKeeps(l, t, r.ctx, l');
        }
    }
  }

  /** Every live change that a diff row stands for. */
  ghost predicate AllChanges(l: Log, ok: (Context, Context) -> bool)
    requires |l.befores| == |l.rows|
  {
    forall i: nat | i < |l.rows| && !l.rows[i].superseded && !l.rows[i].isAnchor :: ok(l.befores[i], Before(l, i + 1))
  }

  predicate ChangeOk(l: Log, op: Op, ok: (Context, Context) -> bool) {
    op.Commit? || op.Deliver? ==> ok(l.ctx, op.end)
  }

  /** Every operation, without exception, keeps the log told and covered. It keeps anchors on time unless a
      delivery takes an anchor's turn, and any property of changes that its own change has. */
  lemma StepKeeps(l: Log, op: Op, l': Log, due: nat -> bool, max: nat, ok: (Context, Context) -> bool)
    requires Inv(l) && Step(l, op, l', due, max)
    ensures Inv(l')
    ensures OnTime(l, due) && Punctual(l, op, due) ==> OnTime(l', due)
    ensures AllChanges(l, ok) && ChangeOk(l, op, ok) ==> AllChanges(l', ok)
  {
    var t := StepExtends(l, op, l', due, max);
    if l' != l {
      if OnTime(l, due) && Punctual(l, op, due) {
        ExtendIsOnTime(l, l', t, due);
      }
      if AllChanges(l, ok) && ChangeOk(l, op, ok) {
        forall i: nat | i < |l'.rows| && !l'.rows[i].superseded && !l'.rows[i].isAnchor
          ensures ok(l'.befores[i], Before(l', i + 1))
        {
          if i < |l.rows| {
            KeptRow(l, l', t, i);
          }
        }
      }
    }
  }

  /** Creation stores the first context together with its anchor. */
  function Created(ctx: Context): Log {
    Log([AnchorRow(ctx)], ctx, [ctx])
  }

  lemma CreatedIsSound(ctx: Context, due: nat -> bool, ok: (Context, Context) -> bool)
    ensures Inv(Created(ctx)) && OnTime(Created(ctx), due) && AllChanges(Created(ctx), ok)
  {
  }

  /** Any operations, one after the other, from creation on. */
  ghost predicate IsRun(run: seq<Log>, ops: seq<Op>, due: nat -> bool, max: nat) {
    && |run| == |ops| + 1 && (exists ctx :: run[0] == Created(ctx))
    && forall i | 0 <= i < |ops| :: Step(run[i], ops[i], run[i + 1], due, max)
  }

  ghost predicate IsPunctual(run: seq<Log>, ops: seq<Op>, due: nat -> bool) {
    |run| == |ops| + 1 && forall i | 0 <= i < |ops| :: Punctual(run[i], ops[i], due)
  }

  ghost predicate ChangesOk(run: seq<Log>, ops: seq<Op>, ok: (Context, Context) -> bool) {
    |run| == |ops| + 1 && forall i | 0 <= i < |ops| :: ChangeOk(run[i], ops[i], ok)
  }

  lemma {:induction false} RunKeeps(run: seq<Log>, ops: seq<Op>, due: nat -> bool, max: nat, ok: (Context, Context) -> bool, n: nat)
    requires IsRun(run, ops, due, max) && n < |run|
    ensures Inv(run[n])
    ensures IsPunctual(run, ops, due) ==> OnTime(run[n], due)
    ensures ChangesOk(run, ops, ok) ==> AllChanges(run[n], ok)
    decreases n
  {
    if n == 0 {
      var ctx :| run[0] == Created(ctx);
      CreatedIsSound(ctx, due, ok);
    } else {
      RunKeeps(run, ops, due, max, ok, n - 1);
      assert Step(run[n - 1], ops[n - 1], run[(n - 1) + 1], due, max);
      StepKeeps(run[n - 1], ops[n - 1], run[n], due, max, ok);
    }
  }

  /** In every run, at every moment, for every anchor interval and limit, wherever the rows that replay
      reads are recorded: reconstructing before a live occurrence, or at the end, gives exactly the
      context stored there if and only if at most `max` rows follow the last anchor and maps changed
      in them only under bare path keys. Otherwise it is refused, however the run goes on. */
  lemma ReplayIsExactInRuns(run: seq<Log>, ops: seq<Op>, due: nat -> bool, max: nat, n: nat, k: nat)
    requires IsRun(run, ops, due, max) && n < |run| && k <= |run[n].rows| && Askable(run[n], k)
    ensures |run[n].befores| == |run[n].rows|
    ensures RecordedBehind(run[n], k) ==>
              var answer := Reconstructed(EMPTY, Visible(run[n].rows[..k]), max);
              && (answer.Restored? <==> Depth(Visible(run[n].rows[..k])) <= max && SafeBehind(run[n], k))
              && (answer.Restored? ==> answer == Restored(Before(run[n], k)))
  {
    RunKeeps(run, ops, due, max, Recordable, n);
    if RecordedBehind(run[n], k) {
      ReplayIsExact(run[n], max, k);
    }
  }

  /** When every delivery has a diff or changes nothing, all rows of the run are recorded; when all changes
      are safe, replay depends on its depth alone. */
  lemma RunsAreRecorded(run: seq<Log>, ops: seq<Op>, due: nat -> bool, max: nat, n: nat, k: nat)
    requires IsRun(run, ops, due, max) && n < |run| && k <= |run[n].rows|
    ensures |run[n].befores| == |run[n].rows|
    ensures (forall i | 0 <= i < |ops| && ops[i].Deliver? :: Recordable(run[i].ctx, ops[i].end)) ==> RecordedBehind(run[n], k)
    ensures ChangesOk(run, ops, PathSafe) ==> SafeBehind(run[n], k)
  {
    RunKeeps(run, ops, due, max, Recordable, n);
    RunKeeps(run, ops, due, max, PathSafe, n);
    if forall i | 0 <= i < |ops| && ops[i].Deliver? :: Recordable(run[i].ctx, ops[i].end) {
      forall i | 0 <= i < |ops|
        ensures ChangeOk(run[i], ops[i], Recordable)
      {
        assert Step(run[i], ops[i], run[i + 1], due, max);
      }
    }
  }

  /** While no delivery takes an anchor's turn, and anchors are at most a row further apart than the
      limit, no replay is too deep: it is refused only for a gap. */
  lemma PunctualReplayIsExact(run: seq<Log>, ops: seq<Op>, anchorEvery: nat, max: nat, n: nat, k: nat)
    requires IsRun(run, ops, Turns(anchorEvery), max) && IsPunctual(run, ops, Turns(anchorEvery))
    requires 0 < anchorEvery <= max + 1 && n < |run| && k <= |run[n].rows| && Askable(run[n], k)
    ensures |run[n].befores| == |run[n].rows|
    ensures RecordedBehind(run[n], k) ==>
              Reconstructed(EMPTY, Visible(run[n].rows[..k]), max) ==
              if SafeBehind(run[n], k) then Restored(Before(run[n], k)) else Gap
  {
    RunKeeps(run, ops, Turns(anchorEvery), max, Recordable, n);
    ReplayIsShort(run[n], anchorEvery, k);
    if RecordedBehind(run[n], k) {
      ReplayIsExact(run[n], max, k);
    }
  }

  /** A rollback in a run succeeds if and only if replay to its target is within the limit and goes through
      safe changes only: it then restores the context stored before its target, and otherwise it
      changes nothing. */
  lemma RollbackRestores(run: seq<Log>, ops: seq<Op>, due: nat -> bool, max: nat, n: nat)
    requires IsRun(run, ops, due, max) && n < |ops| && ops[n].Rollback?
    ensures ops[n].target < |run[n].befores| == |run[n].rows|
    ensures var l, l', t := run[n], run[n + 1], ops[n].target;
            RecordedBehind(l, t) ==>
              if Depth(Visible(l.rows[..t])) <= max && SafeBehind(l, t)
                then l'.ctx == l.befores[t] && l'.rows == SupersededFrom(l.rows, t) + [AnchorRow(l.befores[t])]
                else l' == l
  {
    var l, t := run[n], ops[n].target;
    assert Step(l, ops[n], run[n + 1], due, max);
    ReplayIsExactInRuns(run, ops, due, max, n, t);
  }

  // ---- What each precondition is for ----

  /** Superseding alone cuts the visible log at the target exactly when every visible row from the
      target on belongs to an occurrence; otherwise rows stay behind, which the anchor that a
      rollback appends hides from later replays. */
  lemma {:induction false} SupersedeCuts(rows: seq<Row>, t: nat)
    requires t <= |rows|
    ensures Visible(rows[..t]) <= Visible(SupersededFrom(rows, t))
    ensures Visible(SupersededFrom(rows, t)) == Visible(rows[..t]) <==> OccurrencesFrom(rows, t)
    decreases |rows|
  {
    if t == |rows| {
      NothingToCut(rows);
    } else {
      var init := rows[..|rows| - 1];
      assert init[..t] == rows[..t];
      SupersedeCuts(init, t);
      SupersedeLast(rows, t);
      OccurrencesSnoc(rows, t);
      CutSnoc(Visible(rows[..t]), Visible(SupersededFrom(init, t)), Superseded(rows[|rows| - 1]));
    }
  }

  lemma NothingToCut(rows: seq<Row>)
    ensures SupersededFrom(rows, |rows|) == rows && rows[..|rows|] == rows && OccurrencesFrom(rows, |rows|)
  {
  }

  lemma CutSnoc(kept: seq<Row>, visible: seq<Row>, last: Row)
    requires kept <= visible
    ensures var v := visible + (if last.superseded then [] else [last]);
            kept <= v && (v == kept <==> visible == kept && last.superseded)
  {
  }

  lemma SupersedeLast(rows: seq<Row>, t: nat)
    requires t < |rows|
    ensures var last := Superseded(rows[|rows| - 1]);
            Visible(SupersededFrom(rows, t)) ==
            Visible(SupersededFrom(rows[..|rows| - 1], t)) + (if last.superseded then [] else [last])
  {
    var n := |rows| - 1;
    var init := SupersededFrom(rows[..n], t);
    assert SupersededFrom(rows, t) == init + [Superseded(rows[n])];
    VisibleSnoc(init, Superseded(rows[n]));
  }

  ghost predicate OccurrencesFrom(rows: seq<Row>, t: nat) {
    forall i | t <= i < |rows| && !rows[i].superseded :: rows[i].occurrence != ""
  }

  lemma OccurrencesSnoc(rows: seq<Row>, t: nat)
    requires t < |rows|
    ensures OccurrencesFrom(rows, t) <==>
            OccurrencesFrom(rows[..|rows| - 1], t) && Superseded(rows[|rows| - 1]).superseded
  {
    var init := rows[..|rows| - 1];
    assert forall i | 0 <= i < |init| :: init[i] == rows[i];
  }

  function Unchanged(occurrence: string): Row {
    Row(occurrence, false, Null, Some(Diff(map[], [])), false)
  }

  function Idle(n: nat): (rows: seq<Row>)
    ensures |rows| == n + 1 && rows[0] == AnchorRow(map[])
    ensures forall i | 1 <= i <= n :: rows[i] == Unchanged("occurrence")
  {
    if n == 0 then [AnchorRow(map[])] else Idle(n - 1) + [Unchanged("occurrence")]
  }

  /** A run whose deliveries take every anchor's turn; all it stores is the empty context. */
  function IdleOps(n: nat, due: nat -> bool): seq<Op> {
    seq(n, i requires 0 <= i < n => if due(i + 1) then Deliver(map[], "occurrence") else Commit(map[], "occurrence"))
  }

  function IdleRun(n: nat): seq<Log> {
    seq(n + 1, i requires 0 <= i <= n => Log(Idle(i), map[], seq(i + 1, _ => map[])))
  }

  /** Deliveries can take every anchor's turn: whatever the turns of anchors and the replay limit, some run
      of commits and deliveries that change nothing ends too deep to replay. */
  lemma DeliveriesCanStarveAnchors(due: nat -> bool, max: nat)
    ensures IsRun(IdleRun(max + 1), IdleOps(max + 1, due), due, max)
    ensures var l := IdleRun(max + 1)[max + 1];
            Askable(l, |l.rows|) && Reconstructed(EMPTY, Visible(l.rows[..|l.rows|]), max) == TooDeep
  {
    IdleIsRun(max + 1, due, max);
    IdleIsTooDeep(max);
    var rows := IdleRun(max + 1)[max + 1].rows;
    assert rows[..|rows|] == Idle(max + 1);
  }

  lemma IdleIsRun(n: nat, due: nat -> bool, max: nat)
    ensures IsRun(IdleRun(n), IdleOps(n, due), due, max)
  {
    var run, ops := IdleRun(n), IdleOps(n, due);
    assert run[0] == Created(map[]);
    forall i | 0 <= i < |ops|
      ensures Step(run[i], ops[i], run[i + 1], due, max)
    {
      IdleStep(i, due, max);
    }
  }

  lemma IdleStep(i: nat, due: nat -> bool, max: nat)
    ensures var op := if due(i + 1) then Deliver(map[], "occurrence") else Commit(map[], "occurrence");
            Step(Log(Idle(i), map[], seq(i + 1, _ => map[])), op, Log(Idle(i + 1), map[], seq(i + 2, _ => map[])), due, max)
  {
    var l, l' := Log(Idle(i), map[], seq(i + 1, _ => map[])), Log(Idle(i + 1), map[], seq(i + 2, _ => map[]));
    UnchangedFits(due(i + 1));
    NothingToRecord();
    assert l'.befores == l.befores + [map[]];
    assert Appended(l, Unchanged("occurrence"), map[], l');
  }

  lemma IdleIsTooDeep(max: nat)
    ensures Reconstructed(EMPTY, Visible(Idle(max + 1)), max) == TooDeep
  {
    AllVisible(Idle(max + 1));
    IdleValue(max + 1);
    IdleValue(max);
    assert Idle(max + 1)[..max + 1] == Idle(max);
    DeeperByOne(Idle(max + 1), Idle(max), max);
  }

  lemma DeeperByOne(rows: seq<Row>, init: seq<Row>, max: nat)
    requires Depth(rows) == max + 1 && |rows| > 0 && rows[..|rows| - 1] == init && Value(EMPTY, init).Some?
    ensures Reconstructed(EMPTY, rows, max) == TooDeep
  {
  }

  /** A delivery's row at an anchor's turn, a commit's row otherwise; neither changes the empty context. */
  ghost predicate Alternates(row: Row, due: bool) {
    if due then DeliveryRow(row, map[], map[], "occurrence") else CommitRow(row, due, map[], map[], "occurrence")
  }

  lemma UnchangedFits(due: bool)
    ensures Alternates(Unchanged("occurrence"), due)
  {
    NothingToRecord();
  }

  lemma NothingToRecord()
    ensures Represents(Diff(map[], []), map[], map[]) && Diffable(map[], map[])
  {
    forall s
      ensures Hit([], Some(Obj(map[])), Some(Obj(map[])), s) == Same
    {
      HitAtTop(map[], map[], s);
      EqualHasNoChange(Some(Obj(map[])), Split(s));
    }
  }

  lemma {:induction false} AllVisible(rows: seq<Row>)
    requires forall i | 0 <= i < |rows| :: !rows[i].superseded
    ensures Visible(rows) == rows
    decreases |rows|
  {
    if rows != [] {
      var init := rows[..|rows| - 1];
      AllVisible(init);
      assert rows == init + [rows[|rows| - 1]];
    }
  }

  lemma {:induction false} IdleValue(n: nat)
    ensures Value(EMPTY, Idle(n)) == Some(map[]) && Depth(Idle(n)) == n
  {
    if n > 0 {
      IdleValue(n - 1);
      DiffRowSnoc(Idle(n - 1), Unchanged("occurrence"));
      EmptyDiffKeeps(map[]);
    }
  }
}
