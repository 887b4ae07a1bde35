/** What the answers of folly's AtomicHashMap mean, in every interleaving (AtomicHashMap-inl.h, AtomicHashArray-inl.h). */
module MapAnswers {
  import opened HashMaps

  predicate InCells(s: State, i: nat, c: nat) {
    IsMapped(s, i) && c < |Tab(s, i).cells|
  }

  /** Between two states, k appears in cell c of sub-map i. */
  predicate StoresAt(s: State, s': State, i: nat, c: nat, k: Key) {
    InCells(s, i, c) && InCells(s', i, c) && !Tab(s, i).cells[c].Stored? && Tab(s', i).cells[c] == Stored(k)
  }

  predicate ErasesAt(s: State, s': State, i: nat, c: nat, k: Key) {
    InCells(s, i, c) && InCells(s', i, c) && Tab(s, i).cells[c] == Stored(k) && Tab(s', i).cells[c].Erased?
  }

  ghost predicate Nowhere(s: State, k: Key) {
    forall i: nat, c: nat :: !IsLive(s, i, c, k)
  }

  // ----- What happens between two moments of a run -----

  /** Access j is thread t's own. */
  predicate OwnStep(run: seq<State>, j: nat, t: ThreadId) {
    j + 1 < |run| && t in run[j].threads && t in run[j + 1].threads && run[j].threads[t] != run[j + 1].threads[t]
  }

  /** By that access k appears in cell c of sub-map i, or is erased there. */
  predicate OwnStore(run: seq<State>, j: nat, t: ThreadId, i: nat, c: nat, k: Key) {
    OwnStep(run, j, t) && StoresAt(run[j], run[j + 1], i, c, k)
  }

  predicate OwnErase(run: seq<State>, j: nat, t: ThreadId, i: nat, c: nat, k: Key) {
    OwnStep(run, j, t) && ErasesAt(run[j], run[j + 1], i, c, k)
  }

  ghost predicate StoredNothing(run: seq<State>, a: nat, b: nat, t: ThreadId) {
    forall j: nat, i: nat, c: nat, k: Key | a <= j < b :: !OwnStore(run, j, t, i, c, k)
  }

  ghost predicate ErasedNothing(run: seq<State>, a: nat, b: nat, t: ThreadId) {
    forall j: nat, i: nat, c: nat, k: Key | a <= j < b :: !OwnErase(run, j, t, i, c, k)
  }

  ghost predicate StoredKey(run: seq<State>, a: nat, b: nat, t: ThreadId, i: nat, c: nat, k: Key) {
    exists j: nat :: a <= j < b && OwnStore(run, j, t, i, c, k)
  }

  ghost predicate ErasedKey(run: seq<State>, a: nat, b: nat, t: ThreadId, k: Key) {
    exists j: nat, i: nat, c: nat :: a <= j < b && OwnErase(run, j, t, i, c, k)
  }

  ghost predicate WasLive(run: seq<State>, a: nat, b: nat, i: nat, c: nat, k: Key) {
    exists j: nat :: a <= j <= b && j < |run| && IsLive(run[j], i, c, k)
  }

  ghost predicate WasAbsent(run: seq<State>, a: nat, b: nat, k: Key) {
    exists j: nat :: a <= j <= b && j < |run| && Nowhere(run[j], k)
  }

  /** What the answer of an operation means that thread t began at a and ended before b. */
  ghost predicate IsTrue(run: seq<State>, a: nat, b: nat, t: ThreadId, op: Operation, answer: Answer) {
    && (!answer.Added? ==> StoredNothing(run, a, b, t))
    && (!answer.Removed? ==> ErasedNothing(run, a, b, t))
    && match answer
       case Added(i, c) => op.Insert? && StoredKey(run, a, b, t, i, c, op.k)
       case Present(i, c) => !op.Erase? && WasLive(run, a, b, i, c, op.k)
       case Threw => op.Insert?
       case MapIsFull => op.Insert? && WasAbsent(run, a, b, op.k)
       case Removed => op.Erase? && ErasedKey(run, a, b, t, op.k)
       case Missing => !op.Insert? && WasAbsent(run, a, b, op.k)
       case NoAnswer => false
  }

  // ----- A key that is live all the time stays where it is -----

  ghost predicate AlwaysLive(run: seq<State>, a: nat, b: nat, k: Key) {
    forall j: nat | a <= j <= b && j < |run| :: !Nowhere(run[j], k)
  }

  /** One access does not move a key from one cell to another. */
  lemma NoJump(p: Params, s: State, t: ThreadId, e: Choice, i: nat, c: nat, i': nat, c': nat, k: Key)
    requires Inv(p, s) && CanStep(p, s, t) && IsLive(s, i, c, k) && IsLive(Step(p, s, t, e), i', c', k)
    ensures i == i' && c == c'
  {
    hide Inv, CanStep, Step;
    var s' := Step(p, s, t, e);
    if !InCells(s, i', c') || Tab(s, i').cells[c'] != Stored(k) {
      NewlyStored(p, s, t, e, i', c', k);
      assert Holds(s, i', c', k);
    }
    KeyIsHeldOnce(p, s, i, c, i', c', k);
  }

  /** A key that appears in a cell is put there by the thread that had locked it. */
  lemma NewlyStored(p: Params, s: State, t: ThreadId, e: Choice, i: nat, c: nat, k: Key)
    requires Inv(p, s) && CanStep(p, s, t) && IsLive(Step(p, s, t, e), i, c, k) && !IsLive(s, i, c, k)
    ensures InCells(s, i, c) && Tab(s, i).cells[c] == Locked(t) && t in s.threads
    ensures var th := s.threads[t];
            && th.pc == Construct && th.key == k && th.i == i && p.path(i, k, th.n) == c
            && Step(p, s, t, e).threads[t] == th.(pc := DecDone)
  {
    hide Inv, Passed, ClosedBelow, Frozen, TableOk, MapsOk;
    InvParts(p, s, t);
    StepMovesMaps(p, s, t, e);
  }

  lemma NewlyErased(p: Params, s: State, t: ThreadId, e: Choice, i: nat, c: nat, k: Key)
    requires Inv(p, s) && CanStep(p, s, t) && ErasesAt(s, Step(p, s, t, e), i, c, k)
    ensures t in s.threads
    ensures var th := s.threads[t];
            && th.pc == EraseCas && th.key == k && th.i == i && p.path(i, k, th.n) == c
            && Step(p, s, t, e).threads[t] == th.Answers(Removed)
  {
    hide Inv, Passed, ClosedBelow, Frozen, TableOk, MapsOk;
    InvParts(p, s, t);
    StepMovesMaps(p, s, t, e);
  }

  lemma {:induction false} SameCell(p: Params, ids: set<ThreadId>, run: seq<State>, a: nat, b: nat, k: Key)
      returns (i: nat, c: nat)
    requires IsRun(p, ids, run) && a <= b < |run| && AlwaysLive(run, a, b, k)
    ensures forall j: nat | a <= j <= b :: IsLive(run[j], i, c, k)
  {
    hide IsRun, Inv, CanStep, Step, IsLive;
    assert !Nowhere(run[b], k);
    if a == b {
      i, c :| IsLive(run[b], i, c, k);
    } else {
      i, c := SameCell(p, ids, run, a, b - 1, k);
      RunKeepsInv(p, ids, run, b - 1);
      RunSteps(p, ids, run, b - 1);
      var t, e :| CanStep(p, run[b - 1], t) && run[b] == Step(p, run[b - 1], t, e);
      var i': nat, c': nat :| IsLive(run[b], i', c', k);
      NoJump(p, run[b - 1], t, e, i, c, i', c', k);
    }
  }

  // ----- What a thread knows in the middle of an operation -----

  /** A thread that has just begun an operation. */
  predicate BeginsOperation(s: State, t: ThreadId) {
    t in s.threads && (s.threads[t].pc in {LoadAllocated, EraseLoadAllocated} || (s.threads[t].pc == FindLoad && Begins(s, t)))
  }

  /** Which one it is. */
  function Begun(th: Thread): Operation {
    if th.pc == LoadAllocated then Insert(th.key) else if th.pc == EraseLoadAllocated then Erase(th.key) else Find(th.key)
  }

  predicate Pursues(op: Operation, pc: Pc) {
    match op
    case Insert(_) => Inserting(pc) || Growing(pc) || pc == LoadAllocated
    case Find(_) => pc in {FindLoad, FindLoadAllocated}
    case Erase(_) => pc in {EraseLoadAllocated, EraseLoad, EraseCas}
  }

  /** So many sub-maps were in use at some moment. */
  ghost predicate MapsSeen(run: seq<State>, a: nat, b: nat, limit: nat) {
    exists j: nat :: a <= j < b && j < |run| && run[j].numMaps == limit
  }

  /** The search for k began then, and is not over before b. */
  ghost predicate SearchesFrom(run: seq<State>, a1: nat, b: nat, t: ThreadId, k: Key) {
    && a1 < |run| && Begins(run[a1], t) && run[a1].threads[t].key == k
    && forall j: nat | a1 <= j < b && j < |run| :: t in run[j].threads && Searching(run[j].threads[t].pc)
  }

  ghost predicate SearchBegan(run: seq<State>, a: nat, b: nat, t: ThreadId, k: Key) {
    exists a1: nat :: a <= a1 <= b && SearchesFrom(run, a1, b, t, k)
  }

  ghost predicate Knows(p: Params, run: seq<State>, a: nat, b: nat, t: ThreadId, op: Operation)
    requires b < |run| && t in run[b].threads
  {
    var th := run[b].threads[t];
    && th.key == op.k
    && (th.pc != Idle ==> Pursues(op, th.pc) && ErasedNothing(run, a, b, t))
    && (th.pc != Idle && !(th.pc in {DecDone, StoreNoNew}) ==> StoredNothing(run, a, b, t))
    && (th.pc in {DecDone, StoreNoNew} ==> StoredKey(run, a, b, t, th.i, p.path(th.i, op.k, th.n), op.k))
    && (Inserting(th.pc) || Growing(th.pc) ==> MapsSeen(run, a, b, th.limit))
    && (Searching(th.pc) ==> SearchBegan(run, a, b, t, op.k))
    && (th.pc == Idle ==> IsTrue(run, a, b, t, op, th.answer))
  }

  // ----- How each access goes on, or ends the operation -----

  lemma InsertTells(p: Params, t: ThreadId, th: Thread, table: Table, c: Choice)
    requires p.path(th.i, th.key, th.n) < |table.cells| == |table.pos| && Inserting(th.pc)
    ensures var idx, th' := p.path(th.i, th.key, th.n), InsertStep(p, t, th, table, c).th;
            && th'.key == th.key && (th'.pc == Idle || Pursues(Insert(th.key), th'.pc))
            && (Inserting(th'.pc) || Growing(th'.pc) ==> th'.limit == th.limit)
            && (th'.pc in {DecDone, StoreNoNew} ==> th'.i == th.i && th'.n == th.n && th.pc in {Construct, DecDone})
            && (th.pc == Construct ==> th'.pc in {DecDone, DecThrow})
            && (th.pc in {DecDone, StoreNoNew} ==> th'.pc == StoreNoNew || (th'.pc == Idle && th'.answer == Added(th.i, idx)))
            && (th'.pc == Idle ==> Ends(p, th, table.cells[idx], th'.answer))
  {
  }

  /** Where an insertion can end, and with which answers. */
  predicate Ends(p: Params, th: Thread, cell: Cell, answer: Answer) {
    match answer
    case Added(i, c) => th.pc == StoreNoNew && i == th.i && c == p.path(th.i, th.key, th.n)
    case Present(i, c) => th.pc == Compare && i == th.i && c == p.path(th.i, th.key, th.n) && cell == Stored(th.key)
    case Threw => th.pc == DecThrow
    case MapIsFull =>
      && th.limit <= th.i + 1
      && ((th.pc == RecheckCell && cell.Empty?) || (th.pc == Compare && Barrier(cell, th.key) && th.n + 1 >= p.capacity(th.i)))
    case _ => false
  }

  lemma FindTells(p: Params, th: Thread, table: Table)
    requires p.path(th.i, th.key, th.n) < |table.cells| && th.pc == FindLoad
    ensures var idx, th' := p.path(th.i, th.key, th.n), FindStep(p, th, table);
            && th'.key == th.key && (Pursues(Find(th.key), th'.pc) || th'.pc == Idle)
            && (th'.pc == Idle ==>
                  th'.answer == Missing || (th'.answer == Present(th.i, idx) && table.cells[idx] == Stored(th.key)))
  {
  }

  lemma EraseTells(p: Params, th: Thread, table: Table)
    requires p.path(th.i, th.key, th.n) < |table.cells| && th.pc in {EraseLoad, EraseCas}
    ensures var idx, e := p.path(th.i, th.key, th.n), EraseStep(p, th, table);
            && e.th.key == th.key && (e.th.pc in {EraseLoad, EraseCas} || e.th.pc == Idle)
            && (e.th.pc == Idle ==>
                  || (e.th.answer == Missing && e.table == table)
                  || (e.th.answer == Removed && table.cells[idx] == Stored(th.key) && e.table.cells == table.cells[idx := Erased]))
            && (e.th.pc != Idle ==> e.table == table)
  {
  }

  /** The accesses outside the sub-maps. */
  lemma OutsideTells(p: Params, s: State, t: ThreadId, c: Choice)
    requires Inv(p, s) && CanStep(p, s, t) && !InTable(s.threads[t].pc) && s.threads[t].pc != Idle
    ensures var th, s' := s.threads[t], Step(p, s, t, c);
            var th' := s'.threads[t];
            && th'.key == th.key
            && (Growing(th.pc) ==> (Growing(th'.pc) || th'.pc == LoadCell) && th'.limit == th.limit)
            && (th.pc == LoadAllocated ==> th'.pc == LoadCell && th'.limit == s.numMaps)
            && (th.pc == EraseLoadAllocated ==> th'.pc == EraseLoad && Begins(s', t))
            && (th.pc == FindLoadAllocated ==> th'.pc == FindLoad || (th'.pc == Idle && th'.answer == Missing))
  {
    hide Inv, TableOk, Passed, ClosedBelow, Frozen, InsertStep, EraseStep, FindStep;
    InvParts(p, s, t);
  }

  lemma TableStepIs(p: Params, s: State, t: ThreadId, c: Choice)
    requires CanStep(p, s, t) && InTable(s.threads[t].pc)
    ensures var th := s.threads[t];
            && IsMapped(s, th.i) && p.path(th.i, th.key, th.n) < |Tab(s, th.i).cells| == |Tab(s, th.i).pos|
            && Step(p, s, t, c).threads[t] == TableStep(p, t, th, Tab(s, th.i), c).th
            && IsMapped(Step(p, s, t, c), th.i) && Tab(Step(p, s, t, c), th.i) == TableStep(p, t, th, Tab(s, th.i), c).table
  {
    hide InsertStep, EraseStep, FindStep;
  }

  /** The access that stores a key. */
  lemma ConstructTells(p: Params, s: State, t: ThreadId, c: Choice)
    requires Inv(p, s) && CanStep(p, s, t) && s.threads[t].pc == Construct
    ensures var th, s' := s.threads[t], Step(p, s, t, c);
            s'.threads[t].pc == DecDone ==>
              StoresAt(s, s', th.i, p.path(th.i, th.key, th.n), th.key) && s'.threads[t] != th
  {
    hide Inv, TableOk, Passed, ClosedBelow, Frozen, EraseStep, FindStep;
    InvParts(p, s, t);
    TableStepIs(p, s, t, c);
  }

  /** With growth allowed, an insertion finds no room only where all sub-maps are in use. */
  lemma FullOnlyWhenFull(p: Params, s: State, t: ThreadId, c: Choice)
    requires Inv(p, s) && CanStep(p, s, t) && t in s.threads && s.threads[t].pc != Idle && !c.flag
    ensures var th' := Step(p, s, t, c).threads[t];
            th'.pc == Idle && th'.answer == MapIsFull ==> s.numMaps == NUM_SUB_MAPS
  {
    hide Inv, TableOk, Passed, ClosedBelow, Frozen, Step, CanStep, InsertStep, FindStep, EraseStep;
    InvParts(p, s, t);
    var th := s.threads[t];
    if Inserting(th.pc) {
      TableStepIs(p, s, t, c);
      FullTells(p, t, th, Tab(s, th.i), c);
    } else if InTable(th.pc) {
      TableStepIs(p, s, t, c);
      if th.pc == FindLoad {
        FindTells(p, th, Tab(s, th.i));
      } else {
        EraseTells(p, th, Tab(s, th.i));
      }
    } else {
      OutsideTells(p, s, t, c);
    }
  }

  lemma FullTells(p: Params, t: ThreadId, th: Thread, table: Table, c: Choice)
    requires p.path(th.i, th.key, th.n) < |table.cells| == |table.pos| && Inserting(th.pc) && !c.flag
    ensures var th' := InsertStep(p, t, th, table, c).th;
            th'.pc == Idle && th'.answer == MapIsFull ==> th.limit >= NUM_SUB_MAPS
  {
  }

  // ----- Along a run -----

  lemma Longer(run: seq<State>, a: nat, b: nat, t: ThreadId, k: Key)
    requires a <= b && b + 1 < |run|
    ensures StoredNothing(run, a, b, t) && (forall i: nat, c: nat, x: Key :: !OwnStore(run, b, t, i, c, x)) ==>
              StoredNothing(run, a, b + 1, t)
    ensures ErasedNothing(run, a, b, t) && (forall i: nat, c: nat, x: Key :: !OwnErase(run, b, t, i, c, x)) ==>
              ErasedNothing(run, a, b + 1, t)
    ensures forall limit: nat :: MapsSeen(run, a, b, limit) ==> MapsSeen(run, a, b + 1, limit)
    ensures MapsSeen(run, a, b + 1, run[b].numMaps)
    ensures forall i: nat, c: nat :: StoredKey(run, a, b, t, i, c, k) ==> StoredKey(run, a, b + 1, t, i, c, k)
    ensures forall i: nat, c: nat :: OwnStore(run, b, t, i, c, k) ==> StoredKey(run, a, b + 1, t, i, c, k)
    ensures forall i: nat, c: nat :: OwnErase(run, b, t, i, c, k) ==> ErasedKey(run, a, b + 1, t, k)
    ensures forall i: nat, c: nat :: IsLive(run[b], i, c, k) ==> WasLive(run, a, b + 1, i, c, k)
    ensures WasAbsent(run, a, b, k) ==> WasAbsent(run, a, b + 1, k)
  {
    hide OwnStore, OwnErase, IsLive, Nowhere;
  }

  lemma SearchGoesOn(run: seq<State>, a: nat, b: nat, t: ThreadId, k: Key)
    requires a <= b && b + 1 < |run| && t in run[b].threads
    ensures SearchBegan(run, a, b, t, k) && Searching(run[b].threads[t].pc) ==> SearchBegan(run, a, b + 1, t, k)
    ensures Begins(run[b + 1], t) && t in run[b + 1].threads && run[b + 1].threads[t].key == k ==> SearchBegan(run, a, b + 1, t, k)
  {
    if SearchBegan(run, a, b, t, k) && Searching(run[b].threads[t].pc) {
      var a1: nat :| a <= a1 <= b && SearchesFrom(run, a1, b, t, k);
      assert SearchesFrom(run, a1, b + 1, t, k);
    }
    if Begins(run[b + 1], t) && run[b + 1].threads[t].key == k {
      assert SearchesFrom(run, b + 1, b + 1, t, k);
    }
  }

  /** A search that ends without the key was right at some moment. */
  lemma MissingWasAbsent(p: Params, ids: set<ThreadId>, run: seq<State>, a: nat, b: nat, t: ThreadId, k: Key)
    requires IsRun(p, ids, run) && a <= b && b + 1 < |run| && t in run[b].threads && t in run[b + 1].threads
    requires SearchBegan(run, a, b, t, k) && Searching(run[b].threads[t].pc)
    requires run[b + 1].threads[t].pc == Idle && !run[b + 1].threads[t].answer.Present?
    ensures WasAbsent(run, a, b + 1, k)
  {
    hide IsRun, Nowhere, Begins, IsLive;
    if AlwaysLive(run, a, b + 1, k) {
      var i, c := SameCell(p, ids, run, a, b + 1, k);
      var a1: nat :| a <= a1 <= b && SearchesFrom(run, a1, b, t, k);
      assert t in run[a1].threads by { BeginsIsLive(run[a1], t); }
      LiveKeysAreFound(p, ids, run, a1, b + 1, t, i, c, k);
      assert false;
    }
  }

  lemma BeginsIsLive(s: State, t: ThreadId)
    requires Begins(s, t)
    ensures t in s.threads && Searching(s.threads[t].pc)
  {
  }

  /** An insertion that found every sub-map in use closed to the key: at some moment the key was nowhere. */
  lemma FullWasAbsent(p: Params, ids: set<ThreadId>, run: seq<State>, a: nat, b: nat, limit: nat, k: Key)
    requires IsRun(p, ids, run) && a <= b < |run| && MapsSeen(run, a, b, limit) && ClosedBelow(p, run[b], limit, k)
    ensures WasAbsent(run, a, b, k)
  {
    hide IsRun, Nowhere, Closed;
    if AlwaysLive(run, a, b, k) {
      var i, c := SameCell(p, ids, run, a, b, k);
      var j: nat :| a <= j < b && j < |run| && run[j].numMaps == limit;
      RunKeepsInv(p, ids, run, j);
      RunKeepsInv(p, ids, run, b);
      assert IsLive(run[j], i, c, k) && IsLive(run[b], i, c, k);
      LiveIsInUse(p, run[j], i, c, k);
      assert Holds(run[b], i, c, k);
      HeldIsOpen(p, run[b], i, c, k);
      assert false;
    }
  }

  /** An access stores only at Construct, and erases only when it answers Removed. */
  lemma OwnChanges(p: Params, ids: set<ThreadId>, run: seq<State>, b: nat, t: ThreadId, u: ThreadId, e: Choice)
    requires IsRun(p, ids, run) && b + 1 < |run| && CanStep(p, run[b], u) && run[b + 1] == Step(p, run[b], u, e) && t in run[b].threads
    ensures t in run[b + 1].threads && (t != u ==> run[b + 1].threads[t] == run[b].threads[t])
    ensures t != u || !(run[b].threads[t].pc == Construct && run[b + 1].threads[t].pc == DecDone) ==>
              forall i: nat, c: nat, x: Key :: !OwnStore(run, b, t, i, c, x)
    ensures t != u || !(run[b].threads[t].pc == EraseCas && run[b + 1].threads[t] == run[b].threads[t].Answers(Removed)) ==>
              forall i: nat, c: nat, x: Key :: !OwnErase(run, b, t, i, c, x)
  {
    hide IsRun, Inv, CanStep, Step, StoresAt, ErasesAt;
    RunKeepsInv(p, ids, run, b);
    OnlyOneMoves(p, run[b], u, e);
    forall i: nat, c: nat, x: Key | OwnStore(run, b, t, i, c, x)
      ensures t == u && run[b].threads[t].pc == Construct && run[b + 1].threads[t].pc == DecDone
    {
      assert IsLive(run[b + 1], i, c, x) && !IsLive(run[b], i, c, x) by { StoresIs(run[b], run[b + 1], i, c, x); }
      NewlyStored(p, run[b], u, e, i, c, x);
    }
    forall i: nat, c: nat, x: Key | OwnErase(run, b, t, i, c, x)
      ensures t == u && run[b].threads[t].pc == EraseCas && run[b + 1].threads[t] == run[b].threads[t].Answers(Removed)
    {
      NewlyErased(p, run[b], u, e, i, c, x);
    }
  }

  lemma StoresIs(s: State, s': State, i: nat, c: nat, k: Key)
    requires StoresAt(s, s', i, c, k)
    ensures IsLive(s', i, c, k) && !IsLive(s, i, c, k)
  {
  }

  lemma OthersTell(p: Params, ids: set<ThreadId>, run: seq<State>, a: nat, b: nat, t: ThreadId, u: ThreadId, e: Choice, op: Operation)
    requires IsRun(p, ids, run) && a <= b && b + 1 < |run| && t in run[b].threads && u != t && CanStep(p, run[b], u)
    requires Knows(p, run, a, b, t, op) && run[b].threads[t].pc != Idle && run[b + 1] == Step(p, run[b], u, e)
    ensures t in run[b + 1].threads && Knows(p, run, a, b + 1, t, op)
  {
    hide IsRun, CanStep, Step, StoredNothing, ErasedNothing, StoredKey, ErasedKey, MapsSeen, SearchBegan, IsTrue;
    OwnChanges(p, ids, run, b, t, u, e);
    Longer(run, a, b, t, op.k);
    SearchGoesOn(run, a, b, t, op.k);
  }

  lemma InserterTells(p: Params, ids: set<ThreadId>, run: seq<State>, a: nat, b: nat, t: ThreadId, e: Choice, op: Operation)
    requires IsRun(p, ids, run) && a <= b && b + 1 < |run| && t in run[b].threads && CanStep(p, run[b], t)
    requires Knows(p, run, a, b, t, op) && Inserting(run[b].threads[t].pc) && run[b + 1] == Step(p, run[b], t, e)
    ensures t in run[b + 1].threads && Knows(p, run, a, b + 1, t, op)
  {
    hide IsRun, Inv, CanStep, Step, StoredNothing, ErasedNothing, StoredKey, ErasedKey, MapsSeen, SearchBegan, WasLive, WasAbsent, InsertStep;
    OwnChanges(p, ids, run, b, t, t, e);
    Longer(run, a, b, t, op.k);
    RunKeepsInv(p, ids, run, b);
    TableStepIs(p, run[b], t, e);
    var th := run[b].threads[t];
    InsertTells(p, t, th, Tab(run[b], th.i), e);
    if th.pc == Construct {
      ConstructTells(p, run[b], t, e);
      if run[b + 1].threads[t].pc == DecDone {
        assert OwnStore(run, b, t, th.i, p.path(th.i, th.key, th.n), op.k);
      }
    } else if run[b + 1].threads[t].pc == Idle && run[b + 1].threads[t].answer == MapIsFull {
      FullIsClosed(p, run[b], t);
      FullWasAbsent(p, ids, run, a, b, th.limit, op.k);
    } else if run[b + 1].threads[t].pc == Idle && run[b + 1].threads[t].answer.Present? {
      assert IsLive(run[b], th.i, p.path(th.i, th.key, th.n), op.k);
    }
  }

  lemma SearcherTells(p: Params, ids: set<ThreadId>, run: seq<State>, a: nat, b: nat, t: ThreadId, e: Choice, op: Operation)
    requires IsRun(p, ids, run) && a <= b && b + 1 < |run| && t in run[b].threads && CanStep(p, run[b], t)
    requires Knows(p, run, a, b, t, op) && run[b].threads[t].pc in {FindLoad, EraseLoad, EraseCas} && run[b + 1] == Step(p, run[b], t, e)
    ensures t in run[b + 1].threads && Knows(p, run, a, b + 1, t, op)
  {
    hide IsRun, Inv, CanStep, Step, StoredNothing, ErasedNothing, StoredKey, ErasedKey, MapsSeen, SearchBegan, WasLive, WasAbsent,
      FindStep, EraseStep;
    OwnChanges(p, ids, run, b, t, t, e);
    Longer(run, a, b, t, op.k);
    SearchGoesOn(run, a, b, t, op.k);
    TableStepIs(p, run[b], t, e);
    var th := run[b].threads[t];
    if th.pc == FindLoad {
      FindTells(p, th, Tab(run[b], th.i));
      if run[b + 1].threads[t].pc == Idle && run[b + 1].threads[t].answer.Present? {
        assert IsLive(run[b], th.i, p.path(th.i, th.key, th.n), op.k);
      }
    } else {
      EraseTells(p, th, Tab(run[b], th.i));
      if run[b + 1].threads[t].pc == Idle && run[b + 1].threads[t].answer == Removed {
        assert OwnErase(run, b, t, th.i, p.path(th.i, th.key, th.n), op.k);
      }
    }
    if run[b + 1].threads[t].pc == Idle && run[b + 1].threads[t].answer == Missing {
      MissingWasAbsent(p, ids, run, a, b, t, op.k);
    }
  }

  lemma OutsiderTells(p: Params, ids: set<ThreadId>, run: seq<State>, a: nat, b: nat, t: ThreadId, e: Choice, op: Operation)
    requires IsRun(p, ids, run) && a <= b && b + 1 < |run| && t in run[b].threads && CanStep(p, run[b], t)
    requires Knows(p, run, a, b, t, op) && run[b + 1] == Step(p, run[b], t, e)
    requires !InTable(run[b].threads[t].pc) && run[b].threads[t].pc != Idle
    ensures t in run[b + 1].threads && Knows(p, run, a, b + 1, t, op)
  {
    hide IsRun, Inv, CanStep, Step, StoredNothing, ErasedNothing, StoredKey, ErasedKey, MapsSeen, SearchBegan, WasLive, WasAbsent, Begins;
    OwnChanges(p, ids, run, b, t, t, e);
    Longer(run, a, b, t, op.k);
    SearchGoesOn(run, a, b, t, op.k);
    RunKeepsInv(p, ids, run, b);
    OutsideTells(p, run[b], t, e);
    if run[b + 1].threads[t].pc == Idle {
      MissingWasAbsent(p, ids, run, a, b, t, op.k);
    }
  }

  /** In any interleaving, every answer is true. An insertion that answers Added stored the key itself, in that cell; a find
      or an insertion that answers with a cell saw the key there during the call; an erase that answers Removed erased
      the key itself. An operation that answers otherwise stored, or erased, nothing. And one that answers that the key is
      missing, or that there is no room for it, was right at some moment of the call: the key was nowhere. */
  lemma {:induction false} AnswersAreTrue(p: Params, ids: set<ThreadId>, run: seq<State>, a: nat, b: nat, t: ThreadId)
    requires IsRun(p, ids, run) && a <= b < |run| && BeginsOperation(run[a], t)
    requires forall j: nat | a <= j < b :: t in run[j].threads && run[j].threads[t].pc != Idle
    ensures t in run[b].threads && Knows(p, run, a, b, t, Begun(run[a].threads[t]))
    ensures run[b].threads[t].pc == Idle ==> IsTrue(run, a, b, t, Begun(run[a].threads[t]), run[b].threads[t].answer)
  {
    hide IsRun, Knows, IsTrue;
    if a == b {
      FirstTells(p, run, a, t);
    } else {
      AnswersAreTrue(p, ids, run, a, b - 1, t);
      assert run[b - 1].threads[t].pc != Idle;
      TellsOn(p, ids, run, a, b - 1, t, Begun(run[a].threads[t]));
    }
    AtTheEnd(p, run, a, b, t, Begun(run[a].threads[t]));
  }

  lemma TellsOn(p: Params, ids: set<ThreadId>, run: seq<State>, a: nat, b: nat, t: ThreadId, op: Operation)
    requires IsRun(p, ids, run) && a <= b && b + 1 < |run| && t in run[b].threads
    requires Knows(p, run, a, b, t, op) && run[b].threads[t].pc != Idle
    ensures t in run[b + 1].threads && Knows(p, run, a, b + 1, t, op)
  {
    hide IsRun, Step, CanStep, Knows;
    RunSteps(p, ids, run, b);
    var u, e :| CanStep(p, run[b], u) && run[b + 1] == Step(p, run[b], u, e);
    var pc := run[b].threads[t].pc;
    if u != t {
      OthersTell(p, ids, run, a, b, t, u, e, op);
    } else if Inserting(pc) {
      InserterTells(p, ids, run, a, b, t, e, op);
    } else if InTable(pc) {
      SearcherTells(p, ids, run, a, b, t, e, op);
    } else {
      OutsiderTells(p, ids, run, a, b, t, e, op);
    }
  }

  lemma AtTheEnd(p: Params, run: seq<State>, a: nat, b: nat, t: ThreadId, op: Operation)
    requires b < |run| && t in run[b].threads && Knows(p, run, a, b, t, op)
    ensures run[b].threads[t].pc == Idle ==> IsTrue(run, a, b, t, op, run[b].threads[t].answer)
  {
    hide IsTrue;
  }

  lemma FirstTells(p: Params, run: seq<State>, a: nat, t: ThreadId)
    requires a < |run| && BeginsOperation(run[a], t)
    ensures Knows(p, run, a, a, t, Begun(run[a].threads[t]))
  {
    if run[a].threads[t].pc == FindLoad {
      assert SearchesFrom(run, a, a, t, run[a].threads[t].key);
    }
  }
}
