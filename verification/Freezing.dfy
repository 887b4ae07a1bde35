/** When a sub-map that has answered "full" takes no further key. After the answer at an empty cell it never does
    (HashMaps.FullIsForever); after the answer at the last probe it depends on which cells the probes see. */
module Freezing {
  import opened Arithmetic
  import opened HashMaps
  import opened Probing

  /** The next access of thread u answers "full" for its sub-map because every probe was used. */
  predicate Exhausted(p: Params, s: State, u: ThreadId) {
    && u in s.threads && s.threads[u].pc == Compare
    && var th := s.threads[u];
    && IsMapped(s, th.i) && th.n + 1 >= p.capacity(th.i)
    && p.path(th.i, th.key, th.n) < |Tab(s, th.i).cells|
    && Barrier(Tab(s, th.i).cells[p.path(th.i, th.key, th.n)], th.key)
  }

  /** Does a search for k in sub-map i probe cell c? */
  ghost predicate OnPath(p: Params, i: nat, k: Key, c: nat) {
    exists n: nat :: n < p.capacity(i) && p.path(i, k, n) == c
  }

  ghost predicate Covers(p: Params, i: nat, k: Key) {
    forall c: nat | c < p.capacity(i) :: OnPath(p, i, k, c)
  }

  /** That answer is given exactly there. */
  lemma ExhaustedAnswersFull(p: Params, s: State, u: ThreadId, c: Choice)
    requires Inv(p, s) && u in s.threads && CanStep(p, s, u) && s.threads[u].pc == Compare
    ensures var th := s.threads[u];
            if Exhausted(p, s, u) then Step(p, s, u, c).threads[u] == TableIsFull(th, c)
            else var th' := Step(p, s, u, c).threads[u]; (th'.pc == LoadCell && th'.i == th.i) || th'.answer.Present?
  {
    hide Inv, Passed, ClosedBelow, Frozen;
  }

  /** After an exhausted search of k, every cell it probed holds another key, or an erased one, for ever. */
  lemma ExhaustedPathStays(p: Params, ids: set<ThreadId>, run: seq<State>, a: nat, b: nat, u: ThreadId, c: nat)
    requires IsRun(p, ids, run) && a <= b < |run| && Exhausted(p, run[a], u)
    requires OnPath(p, run[a].threads[u].i, run[a].threads[u].key, c)
    ensures var th := run[a].threads[u];
            IsMapped(run[b], th.i) && c < |Tab(run[b], th.i).cells| && Barrier(Tab(run[b], th.i).cells[c], th.key)
  {
    hide IsRun, Inv, Frozen, ClosedBelow, Evolves, Barrier;
    var th := run[a].threads[u];
    RunKeepsInv(p, ids, run, a);
    KnowsPassed(p, run[a], u);
    assert Passed(p, Tab(run[a], th.i), th.i, th.key, th.n + 1);
    RunEvolves(p, ids, run, a, b);
    PassedStays(p, run[a], run[b], th.i, th.key, th.n + 1);
    var n: nat :| n < p.capacity(th.i) && p.path(th.i, th.key, n) == c;
  }

  lemma KnowsPassed(p: Params, s: State, u: ThreadId)
    requires Inv(p, s) && Exhausted(p, s, u)
    ensures Passed(p, Tab(s, s.threads[u].i), s.threads[u].i, s.threads[u].key, s.threads[u].n)
  {
    hide Passed, ClosedBelow, Frozen, TableOk;
    assert ThreadOk(p, s, u, s.threads[u]);
  }

  /** In run, a cell of sub-map i is locked at b although a search of k there was exhausted at a. */
  ghost predicate LockedAfterFull(
      p: Params, ids: set<ThreadId>, run: seq<State>, a: nat, b: nat, u: ThreadId, i: nat, k: Key, c: nat)
  {
    && IsRun(p, ids, run) && a <= b < |run|
    && Exhausted(p, run[a], u) && run[a].threads[u].i == i && run[a].threads[u].key == k
    && IsMapped(run[b], i) && c < |Tab(run[b], i).cells| && Tab(run[b], i).cells[c].Locked?
  }

  /** An exhausted search of k in sub-map i has frozen it, in every interleaving of the threads. */
  ghost predicate FreezesWhenExhausted(p: Params, ids: set<ThreadId>, i: nat, k: Key) {
    forall run: seq<State>, a: nat, b: nat, u: ThreadId, c: nat :: !LockedAfterFull(p, ids, run, a, b, u, i, k, c)
  }

  lemma CoveredFreezes(p: Params, ids: set<ThreadId>, i: nat, k: Key)
    requires Covers(p, i, k)
    ensures FreezesWhenExhausted(p, ids, i, k)
  {
    hide IsRun, Inv;
    forall run: seq<State>, a: nat, b: nat, u: ThreadId, c: nat
      ensures !LockedAfterFull(p, ids, run, a, b, u, i, k, c)
    {
      if LockedAfterFull(p, ids, run, a, b, u, i, k, c) {
        RunKeepsInv(p, ids, run, b);
        TableLength(p, run[b], i);
        ExhaustedPathStays(p, ids, run, a, b, u, c);
        assert false;
      }
    }
  }

  lemma TableLength(p: Params, s: State, i: nat)
    requires Inv(p, s) && IsMapped(s, i)
    ensures |Tab(s, i).cells| == p.capacity(i)
  {
    hide ThreadOk, CellOk, Frozen;
    assert TableOk(p, s, i);
  }

  // ----- A run that locks a cell after a search was exhausted -----

  /** Thread t is at th in the primary map, which is the only sub-map. */
  ghost predicate At(p: Params, s: State, t: ThreadId, th: Thread, table: Table) {
    && t in s.threads && s.threads[t] == th
    && |s.maps| == NUM_SUB_MAPS && s.numMaps == 1 && IsMapped(s, 0) && Tab(s, 0) == table
    && |table.cells| == |table.pos| == p.capacity(0)
  }

  ghost predicate Reached(p: Params, ids: set<ThreadId>, run: seq<State>, t: ThreadId, th: Thread, table: Table) {
    IsRun(p, ids, run) && At(p, run[|run| - 1], t, th, table)
  }

  lemma Extend(p: Params, ids: set<ThreadId>, run: seq<State>, t: ThreadId, c: Choice) returns (run': seq<State>)
    requires IsRun(p, ids, run) && CanStep(p, run[|run| - 1], t)
    ensures IsRun(p, ids, run') && run' == run + [Step(p, run[|run| - 1], t, c)]
  {
    hide Step, CanStep;
    run' := run + [Step(p, run[|run| - 1], t, c)];
    assert Steps(p, run[|run| - 1], run'[|run|]);
    forall j: nat | j + 1 < |run'| ensures Steps(p, run'[j], run'[j + 1]) {
      if j + 1 < |run| {
        assert Steps(p, run[j], run[j + 1]);
      }
    }
  }

  /** One more access in the primary map. */
  lemma InMap(p: Params, ids: set<ThreadId>, run: seq<State>, t: ThreadId, th: Thread, table: Table, c: Choice)
      returns (run': seq<State>)
    requires p.Valid() && Reached(p, ids, run, t, th, table) && Inserting(th.pc) && th.i == 0
    requires p.path(0, th.key, th.n) < p.capacity(0)
    ensures p.path(0, th.key, th.n) < |table.cells| == |table.pos|
    ensures var e := InsertStep(p, t, th, table, c); Reached(p, ids, run', t, e.th, e.table)
    ensures run < run'
  {
    hide InsertStep, IsRun;
    run' := Extend(p, ids, run, t, c);
    InsertKeepsLength(p, t, th, table, c);
  }

  lemma InsertKeepsLength(p: Params, t: ThreadId, th: Thread, table: Table, c: Choice)
    requires p.path(th.i, th.key, th.n) < |table.cells| == |table.pos|
    ensures var e := InsertStep(p, t, th, table, c); |e.table.cells| == |e.table.pos| == |table.cells|
  {
  }

  /** One more access outside. */
  lemma Outside(p: Params, ids: set<ThreadId>, run: seq<State>, t: ThreadId, th: Thread, table: Table, c: Choice)
      returns (run': seq<State>)
    requires Reached(p, ids, run, t, th, table) && th.pc in {Idle, LoadAllocated}
    ensures Reached(p, ids, run', t, if th.pc == Idle then LocalStep(run[|run| - 1], th, c)
                                     else NextMap(th.(i := 0, limit := 1, last := false), c), table)
    ensures run < run'
  {
    hide IsRun;
    run' := Extend(p, ids, run, t, c);
  }

  /** No cell is locked, and keys are still taken. */
  predicate Settled(table: Table) {
    table.isFull == 0 && forall c: nat | c < |table.cells| :: !table.cells[c].Locked?
  }

  /** A thread begins to insert x. */
  lemma Begin(p: Params, ids: set<ThreadId>, run: seq<State>, t: ThreadId, th: Thread, table: Table, x: Key)
      returns (run': seq<State>, th': Thread)
    requires Reached(p, ids, run, t, th, table) && th.pc == Idle
    ensures Reached(p, ids, run', t, th', table) && run < run'
    ensures th' == Thread(LoadCell, x, 0, 0, 1, false, th.answer)
  {
    hide Reached;
    run' := Outside(p, ids, run, t, th, table, Choice(false, Insert(x)));
    var th1 := th.(pc := LoadAllocated, key := x);
    run' := Outside(p, ids, run', t, th1, table, Choice(false, Insert(x)));
    th' := Thread(LoadCell, x, 0, 0, 1, false, th.answer);
  }

  /** It locks the cell of its first probe. */
  lemma LockFirst(p: Params, ids: set<ThreadId>, run: seq<State>, t: ThreadId, th: Thread, table: Table, x: Key)
      returns (run': seq<State>, th': Thread, table': Table)
    requires p.Valid() && Reached(p, ids, run, t, th, table) && th.pc == Idle && Settled(table)
    requires p.path(0, x, 0) < |table.cells| && table.cells[p.path(0, x, 0)].Empty?
    ensures Reached(p, ids, run', t, th', table') && run < run'
    ensures th' == Thread(Construct, x, 0, 0, 1, false, th.answer)
    ensures table' == table.(cells := table.cells[p.path(0, x, 0) := Locked(t)], pending := table.pending + 1)
  {
    hide Reached;
    var go := Choice(false, Insert(x));
    var r1, th1 := Begin(p, ids, run, t, th, table, x);
    var r2 := InMap(p, ids, r1, t, th1, table, go);
    var r3 := InMap(p, ids, r2, t, th1.(pc := IncPending), table, go);
    var counted := table.(pending := table.pending + 1);
    var r4 := InMap(p, ids, r3, t, th1.(pc := LoadFull), counted, go);
    run' := InMap(p, ids, r4, t, th1.(pc := TryLock), counted, go);
    th' := th1.(pc := Construct);
    table' := counted.(cells := counted.cells[p.path(0, x, 0) := Locked(t)]);
  }

  /** It stores its key there. */
  lemma StoreFirst(p: Params, ids: set<ThreadId>, run: seq<State>, t: ThreadId, th: Thread, table: Table, x: Key)
      returns (run': seq<State>, th': Thread, table': Table)
    requires p.Valid() && Reached(p, ids, run, t, th, table) && th.pc == Idle && Settled(table)
    requires p.path(0, x, 0) < |table.cells| && table.cells[p.path(0, x, 0)].Empty?
    ensures Reached(p, ids, run', t, th', table') && run < run' && th'.pc == Idle && Settled(table')
    ensures table'.cells == table.cells[p.path(0, x, 0) := Stored(x)]
  {
    hide Reached;
    var go := Choice(false, Insert(x));
    var idx := p.path(0, x, 0);
    var r1, th1, table1 := LockFirst(p, ids, run, t, th, table, x);
    var r2 := InMap(p, ids, r1, t, th1, table1, go);
    var table2 := table1.(cells := table1.cells[idx := Stored(x)], pos := table1.pos[idx := 0]);
    var r3 := InMap(p, ids, r2, t, th1.(pc := DecDone), table2, go);
    table' := table2.(pending := table2.pending - 1);
    run' := InMap(p, ids, r3, t, th1.(pc := StoreNoNew), table', go);
    th' := th1.Answers(Added(0, idx));
    assert table'.cells == table.cells[idx := Stored(x)];
  }

  /** Every cell is the first probe of some key other than k. */
  ghost predicate Anchored(p: Params, k: Key) {
    forall c: nat | c < p.capacity(0) :: StartsAnother(p, k, c)
  }

  ghost predicate StartsAnother(p: Params, k: Key, c: nat) {
    exists x: Key :: x != k && p.path(0, x, 0) == c
  }

  /** The cells below m are filled where the search for k probes, all others are empty. */
  ghost predicate FilledTo(p: Params, k: Key, table: Table, m: nat) {
    forall c: nat | c < |table.cells| ::
      if c < m && OnPath(p, 0, k, c) then Barrier(table.cells[c], k) else table.cells[c].Empty?
  }

  lemma {:induction false} Fill(p: Params, ids: set<ThreadId>, t: ThreadId, k: Key, m: nat)
      returns (run: seq<State>, th: Thread, table: Table)
    requires p.Valid() && t in ids && Anchored(p, k) && m <= p.capacity(0)
    ensures Reached(p, ids, run, t, th, table) && th.pc == Idle && Settled(table) && |table.cells| == p.capacity(0)
    ensures FilledTo(p, k, table, m)
  {
    hide Reached, OnPath;
    if m == 0 {
      run, th, table := [Init(p, ids)], Thread(Idle, 0, 0, 0, 0, false, NoAnswer), FreshTable(p, 0);
      Starts(p, ids, t);
    } else {
      run, th, table := Fill(p, ids, t, k, m - 1);
      if OnPath(p, 0, k, m - 1) {
        assert StartsAnother(p, k, m - 1);
        var x: Key :| x != k && p.path(0, x, 0) == m - 1;
        var before := table;
        run, th, table := StoreFirst(p, ids, run, t, th, table, x);
      }
    }
  }

  lemma Starts(p: Params, ids: set<ThreadId>, t: ThreadId)
    requires p.Valid() && t in ids
    ensures Reached(p, ids, [Init(p, ids)], t, Thread(Idle, 0, 0, 0, 0, false, NoAnswer), FreshTable(p, 0))
  {
  }

  /** A search for k passes the barriers on its path, up to the last probe. */
  lemma {:induction false} SearchOn(p: Params, ids: set<ThreadId>, run: seq<State>, t: ThreadId, th: Thread, table: Table)
      returns (run': seq<State>, th': Thread)
    requires p.Valid() && Reached(p, ids, run, t, th, table) && |table.cells| == p.capacity(0)
    requires th.pc == LoadCell && th.i == 0 && th.n < p.capacity(0)
    requires forall n: nat | n < p.capacity(0) :: Barrier(table.cells[p.path(0, th.key, n)], th.key)
    ensures Reached(p, ids, run', t, th', table) && run < run'
    ensures th' == th.(pc := Compare, n := p.capacity(0) - 1)
    decreases p.capacity(0) - th.n
  {
    hide Reached;
    var go := Choice(true, Insert(th.key));
    assert Barrier(table.cells[p.path(0, th.key, th.n)], th.key);
    var r1 := InMap(p, ids, run, t, th, table, go);
    run' := InMap(p, ids, r1, t, th.(pc := WaitCell), table, go);
    th' := th.(pc := Compare);
    if th.n + 1 < p.capacity(0) {
      var r3 := InMap(p, ids, run', t, th', table, go);
      run', th' := SearchOn(p, ids, r3, t, th.(n := th.n + 1), table);
    }
  }

  /** One thread fills the path of k, is told that there is no room for k, and then locks a cell off that path. */
  lemma MissedCellIsLocked(p: Params, ids: set<ThreadId>, t: ThreadId, k: Key, c: nat)
      returns (run: seq<State>, a: nat)
    requires p.Valid() && t in ids && Anchored(p, k) && c < p.capacity(0) && !OnPath(p, 0, k, c)
    ensures a < |run| && LockedAfterFull(p, ids, run, a, |run| - 1, t, 0, k, c)
  {
    hide IsRun, OnPath, LockedAfterFull, At;
    var r1, th1, table := Fill(p, ids, t, k, p.capacity(0));
    var r2, th2 := Begin(p, ids, r1, t, th1, table, k);
    forall n: nat | n < p.capacity(0) ensures Barrier(table.cells[p.path(0, k, n)], k) {
      assert OnPath(p, 0, k, p.path(0, k, n)) by { IsOnPath(p, k, n); }
    }
    var r3, th3 := SearchOn(p, ids, r2, t, th2, table);
    a := |r3| - 1;
    var r4 := InMap(p, ids, r3, t, th3, table, Choice(true, Insert(k)));
    assert StartsAnother(p, k, c);
    var x: Key :| x != k && p.path(0, x, 0) == c;
    var th5, table5;
    run, th5, table5 := LockFirst(p, ids, r4, t, th3.(i := 1).Answers(MapIsFull), table, x);
    assert run[a] == r3[a];
    LockedThen(p, ids, run, a, t, th3, table, th5, table5, c);
  }

  lemma LockedThen(p: Params, ids: set<ThreadId>, run: seq<State>, a: nat, t: ThreadId, th: Thread, table: Table,
                   th': Thread, table': Table, c: nat)
    requires p.Valid() && Reached(p, ids, run, t, th', table') && a < |run| && At(p, run[a], t, th, table)
    requires th.pc == Compare && th.i == 0 && th.n + 1 >= p.capacity(0)
    requires p.path(0, th.key, th.n) < |table.cells| && Barrier(table.cells[p.path(0, th.key, th.n)], th.key)
    requires c < |table'.cells| && table'.cells[c].Locked?
    ensures LockedAfterFull(p, ids, run, a, |run| - 1, t, 0, th.key, c)
  {
    hide IsRun;
  }

  lemma IsOnPath(p: Params, k: Key, n: nat)
    requires n < p.capacity(0)
    ensures OnPath(p, 0, k, p.path(0, k, n))
  {
  }

  /** Exactly when the probes of k cover the primary map does an exhausted search of k freeze it. */
  lemma FreezesExactly(p: Params, ids: set<ThreadId>, k: Key)
    requires p.Valid() && ids != {} && Anchored(p, k)
    ensures FreezesWhenExhausted(p, ids, 0, k) <==> Covers(p, 0, k)
  {
    hide Anchored, LockedAfterFull;
    if Covers(p, 0, k) {
      CoveredFreezes(p, ids, 0, k);
    } else {
      var t :| t in ids;
      var c: nat :| c < p.capacity(0) && !OnPath(p, 0, k, c);
      var run, a := MissedCellIsLocked(p, ids, t, k, c);
    }
  }

  // ----- The probe functions that come with the array -----

  /** Sub-maps whose searches use a probe function, from an anchor for each key. */
  function Probed(capacity: nat -> nat, anchor: (nat, Key) -> nat, probe: Probe): Params {
    Params(capacity, (i, k, n) => ProbeOf(capacity, anchor, probe, i, k, n))
  }

  /** A search makes no more probes than there are cells. */
  function ProbeOf(capacity: nat -> nat, anchor: (nat, Key) -> nat, probe: Probe, i: nat, k: Key, n: nat): nat {
    if n < capacity(i) then probe.At(anchor(i, k), n, capacity(i)) else 0
  }

  ghost predicate Anchors(capacity: nat -> nat, anchor: (nat, Key) -> nat) {
    forall i: nat, k: Key :: anchor(i, k) < capacity(i)
  }

  lemma ProbedIsValid(capacity: nat -> nat, anchor: (nat, Key) -> nat, probe: Probe)
    requires Anchors(capacity, anchor)
    ensures Probed(capacity, anchor, probe).Valid()
  {
    var p := Probed(capacity, anchor, probe);
    forall i: nat, k: Key, n: nat ensures p.path(i, k, n) < p.capacity(i) {
      assert anchor(i, k) < capacity(i);
      if n < capacity(i) {
        probe.AtIsModular(anchor(i, k), n, capacity(i));
      }
    }
    forall i: nat ensures p.capacity(i) > 0 {
      assert anchor(i, 0) < capacity(i);
    }
  }

  lemma ProbedCovers(capacity: nat -> nat, anchor: (nat, Key) -> nat, probe: Probe, i: nat, k: Key)
    ensures Covers(Probed(capacity, anchor, probe), i, k) <==> probe.CoversFrom(anchor(i, k), capacity(i))
  {
    var p := Probed(capacity, anchor, probe);
    forall c: nat ensures OnPath(p, i, k, c) <==> probe.Hits(anchor(i, k), capacity(i), capacity(i), c) {
      hide Probe.At;
      if OnPath(p, i, k, c) {
        var n: nat :| n < p.capacity(i) && p.path(i, k, n) == c;
        assert probe.At(anchor(i, k), n, capacity(i)) == c;
      }
      if probe.Hits(anchor(i, k), capacity(i), capacity(i), c) {
        var n: nat :| n < capacity(i) && probe.At(anchor(i, k), n, capacity(i)) == c;
        assert p.path(i, k, n) == c;
      }
    }
  }

  /** With the default probe an insertion that was told "full" has frozen the sub-map, whichever answer it was. */
  lemma LinearFreezes(capacity: nat -> nat, anchor: (nat, Key) -> nat, ids: set<ThreadId>, i: nat, k: Key)
    requires Anchors(capacity, anchor)
    ensures FreezesWhenExhausted(Probed(capacity, anchor, Linear), ids, i, k)
  {
    LinearCovers(anchor(i, k), capacity(i));
    ProbedCovers(capacity, anchor, Linear, i, k);
    CoveredFreezes(Probed(capacity, anchor, Linear), ids, i, k);
  }

  /** With the quadratic probe it has exactly when the number of cells is a power of two. */
  lemma QuadraticFreezes(capacity: nat -> nat, anchor: (nat, Key) -> nat, ids: set<ThreadId>, k: Key)
    requires Anchors(capacity, anchor) && ids != {} && Anchored(Probed(capacity, anchor, Quadratic), k)
    ensures FreezesWhenExhausted(Probed(capacity, anchor, Quadratic), ids, 0, k) <==> IsPowerOfTwo(capacity(0))
  {
    hide FreezesWhenExhausted, Covers;
    var p := Probed(capacity, anchor, Quadratic);
    ProbedIsValid(capacity, anchor, Quadratic);
    QuadraticCovers(anchor(0, k), capacity(0));
    ProbedCovers(capacity, anchor, Quadratic, 0, k);
    FreezesExactly(p, ids, k);
  }

  /** Three cells, one thread: the search for 0 probes cells 0 and 1 and 0 again, is told "full", and cell 2 is
      locked afterwards. */
  lemma ThreeCellsDoNotFreeze() returns (run: seq<State>, a: nat)
    ensures var p := Probed(i => 3, (i, k) => k % 3, Quadratic);
            a < |run| && LockedAfterFull(p, {0}, run, a, |run| - 1, 0, 0, 0, 2)
  {
    var p := Probed(i => 3, (i, k) => k % 3, Quadratic);
    ProbedIsValid(i => 3, (i, k) => k % 3, Quadratic);
    forall c: nat | c < p.capacity(0) ensures StartsAnother(p, 0, c) {
      assert p.path(0, c + 3, 0) == c;
    }
    forall n: nat | n < 3 ensures p.path(0, 0, n) != 2 {
    }
    run, a := MissedCellIsLocked(p, {0}, 0, 0, 2);
  }
}
