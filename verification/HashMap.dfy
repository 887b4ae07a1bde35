/** folly's AtomicHashMap as a step system: any number of threads insert, find, erase and grow the map by
    sub-maps, one atomic access at a time (AtomicHashArray-inl.h, AtomicHashMap-inl.h). */
module HashMaps {

  const NUM_SUB_MAPS: nat := 16
  const NO_NEW_INSERTS: nat := 1
  const NO_PENDING_INSERTS: nat := 2

  type Key = int
  type ThreadId = nat

  /** A cell's key word; the owner of a lock is only bookkeeping, no step reads it. */
  datatype Cell = Empty | Locked(owner: ThreadId) | Stored(key: Key) | Erased

  /** One sub-map; pos records at which probe a key was stored, again only for bookkeeping. */
  datatype Table = Table(cells: seq<Cell>, pos: seq<nat>, isFull: nat, pending: int)

  /** An entry of subMaps_. */
  datatype Slot = Null | LockedSlot(owner: ThreadId) | Mapped(table: Table, creator: ThreadId)

  /** Where a thread is: every constructor names the atomic access it makes next. */
  datatype Pc =
    | Idle
    | LoadAllocated
    | LoadCell | IncPending | LoadFull | DecFull | WaitFull | WaitPending | StoreFull | RecheckCell
    | TryLock | Construct | DecThrow | DecDone | StoreNoNew | DecFail
    | WaitCell | Compare
    | TryLockMap | Allocate | Publish | WaitMap
    | EraseLoadAllocated | EraseLoad | EraseCas
    | FindLoad | FindLoadAllocated

  /** What the last operation of a thread answered. */
  datatype Answer = NoAnswer | Added(i: nat, c: nat) | Present(i: nat, c: nat) | Threw | MapIsFull | Removed | Missing

  /** A thread's locals: the key, the sub-map i, the probe count n, nextMapIdx (numMaps for the other
      operations), and whether this is the insertion into the map that was just waited for. */
  datatype Thread = Thread(pc: Pc, key: Key, i: nat, n: nat, limit: nat, last: bool, answer: Answer)
  {
    function Answers(a: Answer): Thread { this.(pc := Idle, answer := a) }
  }

  datatype State = State(threads: map<ThreadId, Thread>, maps: seq<Slot>, numMaps: nat)

  /** Sub-map sizes and the probe sequence of every key, whatever they are. */
  datatype Params = Params(capacity: nat -> nat, path: (nat, Key, nat) -> nat)
  {
    ghost predicate Valid() {
      && (forall i: nat :: capacity(i) > 0)
      && (forall i: nat, k: Key, n: nat :: path(i, k, n) < capacity(i))
    }
  }

  /** The operation a thread starts. */
  datatype Operation = Insert(k: Key) | Find(k: Key) | Erase(k: Key)

  /** What a step leaves open: the operation to start, whether a constructor throws, whether the
      approximate entry count has reached the limit, whether growth is possible. */
  datatype Choice = Choice(flag: bool, op: Operation)

  /** What an access does to the sub-map it is made in and to the thread's locals. */
  datatype Effect = Effect(table: Table, th: Thread)

  predicate IsMapped(s: State, i: nat) {
    i < |s.maps| && s.maps[i].Mapped?
  }

  function Tab(s: State, i: nat): Table
    requires IsMapped(s, i)
  {
    s.maps[i].table
  }

  function FreshTable(p: Params, i: nat): Table {
    Table(seq(p.capacity(i), j => Empty), seq(p.capacity(i), j => 0), 0, 0)
  }

  function Init(p: Params, ids: set<ThreadId>): State {
    State(map t | t in ids :: Thread(Idle, 0, 0, 0, 0, false, NoAnswer),
          [Mapped(FreshTable(p, 0), 0)] + seq(NUM_SUB_MAPS - 1, j => Null), 1)
  }

  /** Is the thread inserting into a sub-map? */
  predicate Inserting(pc: Pc) {
    pc in {LoadCell, IncPending, LoadFull, DecFull, WaitFull, WaitPending, StoreFull, RecheckCell, TryLock, Construct,
           DecThrow, DecDone, StoreNoNew, DecFail, WaitCell, Compare}
  }

  /** Is it growing the map? */
  predicate Growing(pc: Pc) {
    pc in {TryLockMap, Allocate, Publish, WaitMap}
  }

  /** Is its next access in a sub-map? */
  predicate InTable(pc: Pc) {
    Inserting(pc) || pc in {EraseLoad, EraseCas, FindLoad}
  }

  /** Is it counted in numPendingEntries_? */
  predicate CountedPc(pc: Pc) {
    pc in {LoadFull, DecFull, TryLock, Construct, DecThrow, DecDone, DecFail}
  }

  /** Has it seen isFull_ == 0, and may it still lock a cell or give one back? */
  predicate CommittedPc(pc: Pc) {
    pc in {TryLock, Construct}
  }

  /** A cell that does not hold k and will never be locked for it. */
  predicate Barrier(cell: Cell, k: Key) {
    cell.Erased? || (cell.Stored? && cell.key != k)
  }

  /** What the map does when a sub-map has no room: start again, try the next one, or grow. */
  function TableIsFull(th: Thread, c: Choice): Thread {
    if th.last then th.(pc := LoadAllocated) else NextMap(th.(i := th.i + 1), c)
  }

  function NextMap(th: Thread, c: Choice): Thread {
    if th.i < th.limit then th.(pc := LoadCell, n := 0)
    else if th.limit >= NUM_SUB_MAPS || c.flag then th.Answers(MapIsFull)
    else th.(pc := TryLockMap)
  }

  /** One step of the insertion into a sub-map. */
  function InsertStep(p: Params, t: ThreadId, th: Thread, table: Table, c: Choice): Effect
    requires p.path(th.i, th.key, th.n) < |table.cells| == |table.pos|
  {
    var idx := p.path(th.i, th.key, th.n);
    var cell := table.cells[idx];
    match th.pc
    case LoadCell => Effect(table, th.(pc := if cell.Empty? then IncPending else WaitCell))
    case IncPending => Effect(table.(pending := table.pending + 1), th.(pc := LoadFull))
    case LoadFull => Effect(table, th.(pc := if table.isFull != 0 then DecFull else TryLock))
    case DecFull => Effect(table.(pending := table.pending - 1), th.(pc := WaitFull))
    case WaitFull => Effect(table, th.(pc := if table.isFull == NO_PENDING_INSERTS then StoreFull else WaitPending))
    case WaitPending => Effect(table, th.(pc := if table.pending == 0 then StoreFull else WaitFull))
    case StoreFull => Effect(table.(isFull := NO_PENDING_INSERTS), th.(pc := RecheckCell))
    case RecheckCell => Effect(table, if cell.Empty? then TableIsFull(th, c) else th.(pc := WaitCell))
    case TryLock =>
      if cell.Empty? then Effect(table.(cells := table.cells[idx := Locked(t)]), th.(pc := Construct))
      else Effect(table, th.(pc := DecFail))
    case Construct =>
      if c.flag then Effect(table.(cells := table.cells[idx := Empty]), th.(pc := DecThrow))
      else Effect(table.(cells := table.cells[idx := Stored(th.key)], pos := table.pos[idx := th.n]), th.(pc := DecDone))
    case DecThrow => Effect(table.(pending := table.pending - 1), th.Answers(Threw))
    case DecDone => Effect(table.(pending := table.pending - 1), th.(pc := StoreNoNew))
    case StoreNoNew =>
      Effect(if c.flag then table.(isFull := NO_NEW_INSERTS) else table, th.Answers(Added(th.i, idx)))
    case DecFail => Effect(table.(pending := table.pending - 1), th.(pc := WaitCell))
    case WaitCell => Effect(table, th.(pc := if cell.Locked? then WaitCell else Compare))
    case Compare =>
      Effect(table,
             if cell.Stored? && cell.key == th.key then th.Answers(Present(th.i, idx))
             else if cell.Empty? || cell.Locked? then th.(pc := LoadCell)
             else if th.n + 1 >= p.capacity(th.i) then TableIsFull(th, c)
             else th.(pc := LoadCell, n := th.n + 1))
    case _ => Effect(table, th)
  }

  /** One step of an erase: a sub-map without the key leads to the next one. */
  function EraseStep(p: Params, th: Thread, table: Table): Effect
    requires p.path(th.i, th.key, th.n) < |table.cells|
  {
    var idx := p.path(th.i, th.key, th.n);
    var cell := table.cells[idx];
    var notHere := if th.i + 1 < th.limit then th.(pc := EraseLoad, i := th.i + 1, n := 0) else th.Answers(Missing);
    match th.pc
    case EraseLoad =>
      Effect(table,
             if cell.Empty? || cell.Locked? then notHere
             else if cell.Stored? && cell.key == th.key then th.(pc := EraseCas)
             else if th.n + 1 >= p.capacity(th.i) then notHere
             else th.(n := th.n + 1))
    case EraseCas =>
      if cell.Stored? && cell.key == th.key then Effect(table.(cells := table.cells[idx := Erased]), th.Answers(Removed))
      else Effect(table, notHere)
    case _ => Effect(table, th)
  }

  /** One step of a find: the number of sub-maps is loaded only after the primary map was searched. */
  function FindStep(p: Params, th: Thread, table: Table): Thread
    requires p.path(th.i, th.key, th.n) < |table.cells|
  {
    var idx := p.path(th.i, th.key, th.n);
    var cell := table.cells[idx];
    if cell.Stored? && cell.key == th.key then th.Answers(Present(th.i, idx))
    else if cell.Empty? || th.n + 1 >= p.capacity(th.i) then
      if th.i == 0 then th.(pc := FindLoadAllocated)
      else NextToFind(th)
    else th.(n := th.n + 1)
  }

  function NextToFind(th: Thread): Thread {
    if th.i + 1 < th.limit then th.(pc := FindLoad, i := th.i + 1, n := 0) else th.Answers(Missing)
  }

  function TableStep(p: Params, t: ThreadId, th: Thread, table: Table, c: Choice): Effect
    requires p.path(th.i, th.key, th.n) < |table.cells| == |table.pos|
  {
    if Inserting(th.pc) then InsertStep(p, t, th, table, c)
    else if th.pc == FindLoad then Effect(table, FindStep(p, th, table))
    else EraseStep(p, th, table)
  }

  /** One step of the growth by a sub-map. */
  function GrowStep(p: Params, s: State, t: ThreadId, th: Thread): State
    requires th.limit < |s.maps|
  {
    match th.pc
    case TryLockMap =>
      if s.maps[th.limit].Null? then
        s.(maps := s.maps[th.limit := LockedSlot(t)], threads := s.threads[t := th.(pc := Allocate)])
      else s.(threads := s.threads[t := th.(pc := WaitMap)])
    case Allocate =>
      s.(maps := s.maps[th.limit := Mapped(FreshTable(p, th.limit), t)], threads := s.threads[t := th.(pc := Publish)])
    case Publish =>
      s.(numMaps := s.numMaps + 1, threads := s.threads[t := th.(pc := LoadCell, i := th.limit, n := 0, last := true)])
    case WaitMap =>
      if th.limit >= s.numMaps then s
      else s.(threads := s.threads[t := th.(pc := LoadCell, i := th.limit, n := 0, last := true)])
    case _ => s
  }

  /** The steps that read no sub-map. */
  function LocalStep(s: State, th: Thread, c: Choice): Thread {
    match th.pc
    case Idle =>
      (match c.op
       case Insert(k) => th.(pc := LoadAllocated, key := k)
       case Find(k) => th.(pc := FindLoad, key := k, i := 0, n := 0, limit := 1)
       case Erase(k) => th.(pc := EraseLoadAllocated, key := k))
    case LoadAllocated => NextMap(th.(i := 0, limit := s.numMaps, last := false), c)
    case EraseLoadAllocated => th.(pc := EraseLoad, i := 0, n := 0, limit := s.numMaps)
    case FindLoadAllocated => NextToFind(th.(limit := s.numMaps))
    case _ => th
  }

  predicate CanStep(p: Params, s: State, t: ThreadId) {
    t in s.threads &&
    var th := s.threads[t];
    && (InTable(th.pc) ==>
          IsMapped(s, th.i) && p.path(th.i, th.key, th.n) < |Tab(s, th.i).cells| == |Tab(s, th.i).pos|)
    && (Growing(th.pc) ==> th.limit < |s.maps|)
  }

  /** The next atomic access of thread t. */
  function Step(p: Params, s: State, t: ThreadId, c: Choice): State
    requires CanStep(p, s, t)
  {
    var th := s.threads[t];
    if InTable(th.pc) then
      var e := TableStep(p, t, th, Tab(s, th.i), c);
      s.(maps := s.maps[th.i := s.maps[th.i].(table := e.table)], threads := s.threads[t := e.th])
    else if Growing(th.pc) then GrowStep(p, s, t, th)
    else s.(threads := s.threads[t := LocalStep(s, th, c)])
  }

  // ----- The invariant -----

  /** Every cell that a search for k probes before the n-th is a barrier. */
  ghost predicate Passed(p: Params, table: Table, i: nat, k: Key, n: nat) {
    forall m: nat {:trigger p.path(i, k, m)} | m < n :: p.path(i, k, m) < |table.cells| && Barrier(table.cells[p.path(i, k, m)], k)
  }

  /** Nobody locks a cell of sub-map i any more. */
  ghost predicate Frozen(s: State, i: nat) {
    && IsMapped(s, i) && Tab(s, i).isFull != 0
    && forall t | t in s.threads :: CommittedPc(s.threads[t].pc) ==> s.threads[t].i != i
  }

  /** Probe n of the search for k in sub-map i finds no place: all was probed, or an empty cell of a frozen map. */
  ghost predicate ClosedAt(p: Params, s: State, i: nat, k: Key, n: nat) {
    && IsMapped(s, i) && n <= p.capacity(i) && Passed(p, Tab(s, i), i, k, n)
    && (n < p.capacity(i) ==>
          && Frozen(s, i) && p.path(i, k, n) < |Tab(s, i).cells|
          && Tab(s, i).cells[p.path(i, k, n)].Empty?)
  }

  /** k is not in sub-map i, and never will be. */
  ghost predicate Closed(p: Params, s: State, i: nat, k: Key) {
    exists n: nat :: ClosedAt(p, s, i, k, n)
  }

  ghost predicate ClosedBelow(p: Params, s: State, i: nat, k: Key) {
    forall j: nat | j < i :: Closed(p, s, j, k)
  }

  /** The threads counted in sub-map i's numPendingEntries_. */
  function CountedAt(threads: map<ThreadId, Thread>, i: nat): set<ThreadId> {
    set t | t in threads && CountedPc(threads[t].pc) && threads[t].i == i
  }

  /** What a stored or a locked cell promises. */
  ghost predicate CellOk(p: Params, s: State, i: nat, c: nat)
    requires IsMapped(s, i) && c < |Tab(s, i).cells| == |Tab(s, i).pos|
  {
    var cell, pos := Tab(s, i).cells[c], Tab(s, i).pos[c];
    && (cell.Locked? ==>
          && cell.owner in s.threads
          && var th := s.threads[cell.owner]; th.pc == Construct && th.i == i && p.path(i, th.key, th.n) == c)
    && (cell.Stored? ==>
          && i < s.numMaps && pos < p.capacity(i) && p.path(i, cell.key, pos) == c
          && Passed(p, Tab(s, i), i, cell.key, pos) && ClosedBelow(p, s, i, cell.key))
  }

  ghost predicate TableOk(p: Params, s: State, i: nat)
    requires IsMapped(s, i)
  {
    var table := Tab(s, i);
    && |table.cells| == |table.pos| == p.capacity(i)
    && table.pending == |CountedAt(s.threads, i)|
    && (table.isFull == NO_PENDING_INSERTS ==> Frozen(s, i))
    && forall c: nat | c < p.capacity(i) :: CellOk(p, s, i, c)
  }

  /** What a thread knows at each of its accesses. */
  ghost predicate ThreadOk(p: Params, s: State, t: ThreadId, th: Thread) {
    && (InTable(th.pc) ==> th.i < s.numMaps && th.n < p.capacity(th.i) && IsMapped(s, th.i))
    && (Inserting(th.pc) ==>
          && Passed(p, Tab(s, th.i), th.i, th.key, th.n) && ClosedBelow(p, s, th.i, th.key)
          && th.limit <= s.numMaps && (th.last || th.i < th.limit))
    && (th.pc in {DecFull, WaitFull, WaitPending} ==> Tab(s, th.i).isFull != 0)
    && (th.pc in {StoreFull, RecheckCell} ==> Frozen(s, th.i))
    && (th.pc == Construct ==>
          var idx := p.path(th.i, th.key, th.n); idx < |Tab(s, th.i).cells| && Tab(s, th.i).cells[idx] == Locked(t))
    && (Growing(th.pc) ==> th.limit <= s.numMaps && th.limit < NUM_SUB_MAPS && ClosedBelow(p, s, th.limit, th.key))
    && (th.pc == Allocate ==> th.limit == s.numMaps < |s.maps| && s.maps[th.limit] == LockedSlot(t))
    && (th.pc == Publish ==> th.limit == s.numMaps < |s.maps| && s.maps[th.limit].Mapped? && s.maps[th.limit].creator == t)
    && (th.pc in {EraseLoad, EraseCas, FindLoad} ==> th.limit <= s.numMaps && th.i < th.limit)
    && (th.pc == FindLoadAllocated ==> th.i == 0)
  }

  ghost predicate MapsOk(s: State) {
    && |s.maps| == NUM_SUB_MAPS && 1 <= s.numMaps <= NUM_SUB_MAPS
    && (forall i: nat | i < s.numMaps :: IsMapped(s, i))
    && (forall i: nat | s.numMaps < i < NUM_SUB_MAPS :: s.maps[i].Null?)
  }

  ghost predicate Inv(p: Params, s: State) {
    && p.Valid() && MapsOk(s)
    && (forall i: nat | IsMapped(s, i) :: TableOk(p, s, i))
    && (forall t | t in s.threads :: ThreadOk(p, s, t, s.threads[t]))
  }

  // ----- What every access keeps -----

  /** One cell's key word can only change in these ways. */
  predicate CellMoves(t: ThreadId, th: Thread, was: Cell, now: Cell) {
    || now == was
    || (was.Empty? && now == Locked(t) && th.pc == TryLock)
    || (th.pc == Construct && (now.Empty? || now == Stored(th.key)))
    || (was.Stored? && now.Erased?)
  }

  ghost predicate TableMoves(p: Params, t: ThreadId, th: Thread, was: Table, now: Table) {
    && |now.cells| == |was.cells| == |was.pos| == |now.pos|
    && (was.isFull != 0 ==> now.isFull != 0)
    && (now.isFull == NO_PENDING_INSERTS ==> was.isFull == NO_PENDING_INSERTS || th.pc == StoreFull)
    && (forall c: nat | c < |was.cells| :: CellMoves(t, th, was.cells[c], now.cells[c]))
    && (forall c: nat | c < |was.cells| && c != p.path(th.i, th.key, th.n) :: now.cells[c] == was.cells[c])
    && (forall c: nat | c < |was.cells| && c != p.path(th.i, th.key, th.n) :: now.pos[c] == was.pos[c])
    && (th.pc != Construct ==> now.pos == was.pos)
    && (th.pc == Construct && p.path(th.i, th.key, th.n) < |now.cells| ==>
          var idx := p.path(th.i, th.key, th.n);
          !now.cells[idx].Locked? && (now.cells[idx].Stored? ==> now.pos[idx] == th.n))
  }

  lemma StepMovesTable(p: Params, t: ThreadId, th: Thread, table: Table, c: Choice)
    requires p.path(th.i, th.key, th.n) < |table.cells| == |table.pos|
    ensures TableMoves(p, t, th, table, TableStep(p, t, th, table, c).table)
  {
  }

  /** The shared state in terms of what it was: what can never be undone. */
  ghost predicate Evolves(p: Params, s: State, s': State) {
    && |s'.maps| == |s.maps| && s.numMaps <= s'.numMaps && s.threads.Keys == s'.threads.Keys
    && (forall i: nat | IsMapped(s, i) ::
          && IsMapped(s', i) && s'.maps[i].creator == s.maps[i].creator
          && |Tab(s', i).cells| == |Tab(s, i).cells| && |Tab(s', i).pos| == |Tab(s, i).pos|
          && (Tab(s, i).isFull != 0 ==> Tab(s', i).isFull != 0))
    && (forall i: nat, c: nat | IsMapped(s, i) && c < |Tab(s, i).cells| :: Settles(Tab(s, i).cells[c], Tab(s', i).cells[c]))
    && (forall i: nat | Frozen(s, i) :: Frozen(s', i))
    && (forall i: nat, c: nat | IsMapped(s, i) && Frozen(s, i) && c < |Tab(s, i).cells| && Tab(s, i).cells[c].Empty? ::
          Tab(s', i).cells[c].Empty?)
  }

  /** A stored key can only be erased, and an erased cell stays so. */
  predicate Settles(was: Cell, now: Cell) {
    (was.Erased? ==> now.Erased?) && (was.Stored? ==> now == was || now.Erased?)
  }

  /** A thread commits to locking only where it saw isFull_ == 0. */
  lemma CommitsOnlyWhenOpen(p: Params, s: State, t: ThreadId, c: Choice)
    requires CanStep(p, s, t)
    ensures var th, th' := s.threads[t], Step(p, s, t, c).threads[t];
            CommittedPc(th'.pc) ==> th'.i == th.i && InTable(th.pc) && (CommittedPc(th.pc) || Tab(s, th.i).isFull == 0)
  {
  }

  lemma OnlyOneMoves(p: Params, s: State, t: ThreadId, c: Choice)
    requires CanStep(p, s, t)
    ensures var s' := Step(p, s, t, c); s'.threads == s.threads[t := s'.threads[t]]
  {
  }

  /** The sub-map a thread works in moves as TableMoves says; every other one stays. */
  ghost predicate MapsMove(p: Params, s: State, t: ThreadId, s': State)
    requires t in s.threads
  {
    var th := s.threads[t];
    && |s'.maps| == |s.maps|
    && s'.numMaps == (if th.pc == Publish then s.numMaps + 1 else s.numMaps)
    && (forall i: nat | IsMapped(s, i) :: IsMapped(s', i) && s'.maps[i].creator == s.maps[i].creator)
    && (forall i: nat | IsMapped(s, i) && !(InTable(th.pc) && th.i == i) :: s'.maps[i] == s.maps[i])
    && (forall i: nat | InTable(th.pc) && th.i == i && IsMapped(s, i) ::
          IsMapped(s', i) && TableMoves(p, t, th, Tab(s, i), Tab(s', i)))
    && (forall i: nat | i < |s.maps| && !IsMapped(s, i) ::
          || s'.maps[i] == s.maps[i]
          || (i == th.limit && th.pc == TryLockMap && s.maps[i].Null? && s'.maps[i] == LockedSlot(t))
          || (i == th.limit && th.pc == Allocate && s'.maps[i] == Mapped(FreshTable(p, i), t)))
  }

  lemma StepMovesMaps(p: Params, s: State, t: ThreadId, c: Choice)
    requires Inv(p, s) && CanStep(p, s, t)
    ensures MapsMove(p, s, t, Step(p, s, t, c))
  {
    var th, s' := s.threads[t], Step(p, s, t, c);
    assert ThreadOk(p, s, t, th);
    if InTable(th.pc) {
      StepMovesTable(p, t, th, Tab(s, th.i), c);
    }
  }

  lemma FrozenStays(p: Params, s: State, t: ThreadId, c: Choice, i: nat)
    requires Inv(p, s) && CanStep(p, s, t) && Frozen(s, i)
    ensures Frozen(Step(p, s, t, c), i)
  {
    hide Step, Inv, CanStep;
    var s' := Step(p, s, t, c);
    OnlyOneMoves(p, s, t, c);
    CommitsOnlyWhenOpen(p, s, t, c);
    StepMovesMaps(p, s, t, c);
    CanStepIsLive(p, s, t);
  }

  lemma CanStepIsLive(p: Params, s: State, t: ThreadId)
    requires CanStep(p, s, t)
    ensures t in s.threads
  {
  }

  /** Only the holder of a cell's lock gives the cell up. */
  lemma CellsSettle(p: Params, s: State, t: ThreadId, c: Choice, i: nat, k: nat)
    requires Inv(p, s) && CanStep(p, s, t)
    requires IsMapped(s, i) && k < |Tab(s, i).cells|
    ensures var s' := Step(p, s, t, c);
            && IsMapped(s', i) && |Tab(s', i).cells| == |Tab(s, i).cells|
            && Settles(Tab(s, i).cells[k], Tab(s', i).cells[k])
            && (Tab(s, i).cells[k].Locked? && Tab(s, i).cells[k].owner != t ==> Tab(s', i).cells[k] == Tab(s, i).cells[k])
            && (Frozen(s, i) && Tab(s, i).cells[k].Empty? ==> Tab(s', i).cells[k].Empty?)
  {
    hide Step, CanStep, Passed, CellOk;
    StepMovesMaps(p, s, t, c);
    CanStepIsLive(p, s, t);
    assert ThreadOk(p, s, t, s.threads[t]);
  }

  lemma StepEvolves(p: Params, s: State, t: ThreadId, c: Choice)
    requires Inv(p, s) && CanStep(p, s, t)
    ensures Evolves(p, s, Step(p, s, t, c))
  {
    hide Step, CanStep, Inv, Settles, Frozen;
    var s' := Step(p, s, t, c);
    CanStepIsLive(p, s, t);
    OnlyOneMoves(p, s, t, c);
    StepMovesMaps(p, s, t, c);
    forall i: nat, k: nat | IsMapped(s, i) && k < |Tab(s, i).cells|
      ensures Settles(Tab(s, i).cells[k], Tab(s', i).cells[k])
      ensures Frozen(s, i) && Tab(s, i).cells[k].Empty? ==> Tab(s', i).cells[k].Empty?
    {
      CellsSettle(p, s, t, c, i, k);
    }
    forall i: nat | Frozen(s, i) ensures Frozen(s', i) {
      FrozenStays(p, s, t, c, i);
    }
  }

  lemma PassedStays(p: Params, s: State, s': State, i: nat, k: Key, n: nat)
    requires Evolves(p, s, s') && IsMapped(s, i) && Passed(p, Tab(s, i), i, k, n)
    ensures IsMapped(s', i) && Passed(p, Tab(s', i), i, k, n)
  {
    hide Frozen;
    forall m: nat | m < n
      ensures p.path(i, k, m) < |Tab(s', i).cells| && Barrier(Tab(s', i).cells[p.path(i, k, m)], k)
    {
      assert Settles(Tab(s, i).cells[p.path(i, k, m)], Tab(s', i).cells[p.path(i, k, m)]);
    }
  }

  lemma ClosedBelowStays(p: Params, s: State, s': State, i: nat, k: Key)
    requires Evolves(p, s, s') && ClosedBelow(p, s, i, k)
    ensures ClosedBelow(p, s', i, k)
  {
    hide Frozen, Passed, Settles;
    forall j: nat | j < i ensures Closed(p, s', j, k) {
      assert Closed(p, s, j, k);
      var n: nat :| ClosedAt(p, s, j, k, n);
      PassedStays(p, s, s', j, k, n);
      assert ClosedAt(p, s', j, k, n);
    }
  }

  /** Another thread's access spoils nothing that a thread knows. */
  lemma OthersKeep(p: Params, s: State, t: ThreadId, c: Choice, u: ThreadId)
    requires Inv(p, s) && CanStep(p, s, t) && u in s.threads && u != t
    ensures var s' := Step(p, s, t, c); u in s'.threads && ThreadOk(p, s', u, s'.threads[u])
  {
    hide Step, CanStep, TableOk, Passed, ClosedBelow, Frozen, Settles;
    var s', th := Step(p, s, t, c), s.threads[u];
    CanStepIsLive(p, s, t);
    OnlyOneMoves(p, s, t, c);
    StepEvolves(p, s, t, c);
    StepMovesMaps(p, s, t, c);
    assert ThreadOk(p, s, u, th) && ThreadOk(p, s, t, s.threads[t]);
    if Inserting(th.pc) {
      PassedStays(p, s, s', th.i, th.key, th.n);
      ClosedBelowStays(p, s, s', th.i, th.key);
    }
    if Growing(th.pc) {
      ClosedBelowStays(p, s, s', th.limit, th.key);
    }
    if th.pc == Construct {
      CellsSettle(p, s, t, c, th.i, p.path(th.i, th.key, th.n));
    }
  }

  /** The sub-maps in use stay in use, and at most one more is prepared. */
  lemma StepKeepsMapsOk(p: Params, s: State, t: ThreadId, c: Choice)
    requires Inv(p, s) && CanStep(p, s, t)
    ensures MapsOk(Step(p, s, t, c))
  {
    hide Step, CanStep, TableOk, Passed, ClosedBelow, Frozen, TableMoves;
    CanStepIsLive(p, s, t);
    StepMovesMaps(p, s, t, c);
    assert ThreadOk(p, s, t, s.threads[t]);
  }

  lemma PassesOneMore(p: Params, table: Table, i: nat, k: Key, n: nat)
    requires Passed(p, table, i, k, n) && p.path(i, k, n) < |table.cells| && Barrier(table.cells[p.path(i, k, n)], k)
    ensures Passed(p, table, i, k, n + 1)
  {
    forall m: nat | m < n + 1
      ensures p.path(i, k, m) < |table.cells| && Barrier(table.cells[p.path(i, k, m)], k)
    {
      if m < n {
        assert Barrier(table.cells[p.path(i, k, m)], k);
      }
    }
  }

  /** A sub-map that answers "full" is closed to the key for good. */
  lemma FullIsClosed(p: Params, s: State, t: ThreadId)
    requires Inv(p, s) && t in s.threads && s.threads[t].pc in {RecheckCell, Compare}
    requires var th := s.threads[t];
             && IsMapped(s, th.i) && p.path(th.i, th.key, th.n) < |Tab(s, th.i).cells|
             && var cell := Tab(s, th.i).cells[p.path(th.i, th.key, th.n)];
             && (th.pc == RecheckCell ==> cell.Empty?)
             && (th.pc == Compare ==> Barrier(cell, th.key) && th.n + 1 >= p.capacity(th.i))
    ensures ClosedBelow(p, s, s.threads[t].i + 1, s.threads[t].key)
  {
    hide Passed, Frozen, TableOk;
    var th := s.threads[t];
    assert ThreadOk(p, s, t, th);
    if th.pc == Compare {
      PassesOneMore(p, Tab(s, th.i), th.i, th.key, th.n);
      assert ClosedAt(p, s, th.i, th.key, th.n + 1);
    } else {
      assert ClosedAt(p, s, th.i, th.key, th.n);
    }
  }

  lemma NothingIsPassed(p: Params, table: Table, i: nat, k: Key)
    ensures Passed(p, table, i, k, 0)
  {
  }

  /** The thread in the next sub-map, or about to grow the map. */
  lemma NextMapOk(p: Params, s: State, t: ThreadId, th: Thread, c: Choice)
    requires Inv(p, s) && ClosedBelow(p, s, th.i, th.key) && th.i <= th.limit <= s.numMaps
    ensures ThreadOk(p, s, t, NextMap(th, c))
  {
    hide Passed, ClosedBelow;
    if th.i < th.limit {
      assert IsMapped(s, th.i);
      NothingIsPassed(p, Tab(s, th.i), th.i, th.key);
    }
  }

  /** What a thread knows depends on the shared state only through what cannot be undone. */
  lemma KnowledgeStays(p: Params, s: State, s': State, t: ThreadId, th: Thread)
    requires Evolves(p, s, s') && ThreadOk(p, s, t, th) && MapsOk(s)
    requires !(th.pc in {Construct, Allocate, Publish})
    ensures ThreadOk(p, s', t, th)
  {
    hide Passed, ClosedBelow, Frozen, Settles;
    if Inserting(th.pc) {
      PassedStays(p, s, s', th.i, th.key, th.n);
      ClosedBelowStays(p, s, s', th.i, th.key);
    }
    if Growing(th.pc) {
      ClosedBelowStays(p, s, s', th.limit, th.key);
    }
  }

  lemma ClosedBelowSteps(p: Params, s: State, t: ThreadId, c: Choice, i: nat, k: Key)
    requires Inv(p, s) && CanStep(p, s, t) && ClosedBelow(p, s, i, k)
    ensures ClosedBelow(p, Step(p, s, t, c), i, k)
  {
    hide *;
    StepEvolves(p, s, t, c);
    ClosedBelowStays(p, s, Step(p, s, t, c), i, k);
  }

  lemma PassedSteps(p: Params, s: State, t: ThreadId, c: Choice, i: nat, k: Key, n: nat)
    requires Inv(p, s) && CanStep(p, s, t) && IsMapped(s, i) && Passed(p, Tab(s, i), i, k, n)
    ensures IsMapped(Step(p, s, t, c), i) && Passed(p, Tab(Step(p, s, t, c), i), i, k, n)
  {
    hide *;
    StepEvolves(p, s, t, c);
    PassedStays(p, s, Step(p, s, t, c), i, k, n);
  }

  lemma KnowledgeSteps(p: Params, s: State, t: ThreadId, c: Choice, th: Thread)
    requires Inv(p, s) && CanStep(p, s, t) && ThreadOk(p, s, t, th) && !(th.pc in {Construct, Allocate, Publish})
    ensures ThreadOk(p, Step(p, s, t, c), t, th)
  {
    hide *;
    StepEvolves(p, s, t, c);
    assert MapsOk(s) by { InvParts(p, s, t); }
    KnowledgeStays(p, s, Step(p, s, t, c), t, th);
  }

  lemma InvParts(p: Params, s: State, t: ThreadId)
    requires Inv(p, s)
    ensures p.Valid() && MapsOk(s)
    ensures t in s.threads ==> ThreadOk(p, s, t, s.threads[t])
    ensures t in s.threads && InTable(s.threads[t].pc) ==> IsMapped(s, s.threads[t].i) && TableOk(p, s, s.threads[t].i)
  {
  }

  /** No pending insertion and a closed door: the sub-map is frozen. */
  lemma NoPendingFreezes(p: Params, s: State, i: nat)
    requires IsMapped(s, i) && TableOk(p, s, i) && Tab(s, i).isFull != 0
    requires Tab(s, i).pending == 0 || Tab(s, i).isFull == NO_PENDING_INSERTS
    ensures Frozen(s, i)
  {
    if Tab(s, i).pending == 0 {
      forall t | t in s.threads ensures CommittedPc(s.threads[t].pc) ==> s.threads[t].i != i {
        assert t in CountedAt(s.threads, i) || !CountedPc(s.threads[t].pc) || s.threads[t].i != i;
      }
    }
  }

  /** A thread that is about to answer "full", or has compared its cell. */
  lemma SearcherKnows(p: Params, s: State, t: ThreadId, th: Thread, c: Choice)
    requires Inv(p, s) && CanStep(p, s, t) && th == s.threads[t] && th.pc in {RecheckCell, Compare}
    ensures ThreadOk(p, s, t, InsertStep(p, t, th, Tab(s, th.i), c).th)
  {
    hide Inv, InsertStep, ThreadOk;
    if th.pc == RecheckCell {
      RecheckerKnows(p, s, t, th, c);
    } else {
      ComparerKnows(p, s, t, th, c);
    }
  }

  lemma RecheckerKnows(p: Params, s: State, t: ThreadId, th: Thread, c: Choice)
    requires Inv(p, s) && CanStep(p, s, t) && th == s.threads[t] && th.pc == RecheckCell
    ensures ThreadOk(p, s, t, InsertStep(p, t, th, Tab(s, th.i), c).th)
  {
    hide Inv, Passed, ClosedBelow, Frozen, TableOk, MapsOk, NextMap;
    InvParts(p, s, t);
    if Tab(s, th.i).cells[p.path(th.i, th.key, th.n)].Empty? {
      FullIsClosed(p, s, t);
      if !th.last {
        NextMapOk(p, s, t, th.(i := th.i + 1), c);
      }
    }
  }

  lemma ComparerKnows(p: Params, s: State, t: ThreadId, th: Thread, c: Choice)
    requires Inv(p, s) && CanStep(p, s, t) && th == s.threads[t] && th.pc == Compare
    ensures ThreadOk(p, s, t, InsertStep(p, t, th, Tab(s, th.i), c).th)
  {
    hide Inv, Passed, ClosedBelow, Frozen, TableOk, MapsOk, NextMap;
    InvParts(p, s, t);
    var table := Tab(s, th.i);
    if Barrier(table.cells[p.path(th.i, th.key, th.n)], th.key) {
      if th.n + 1 >= p.capacity(th.i) {
        FullIsClosed(p, s, t);
        if !th.last {
          NextMapOk(p, s, t, th.(i := th.i + 1), c);
        }
      } else {
        PassesOneMore(p, table, th.i, th.key, th.n);
      }
    }
  }

  lemma InserterKnows(p: Params, s: State, t: ThreadId, th: Thread, c: Choice)
    requires Inv(p, s) && CanStep(p, s, t) && th == s.threads[t] && Inserting(th.pc) && !(th.pc in {RecheckCell, Compare})
    ensures var th' := InsertStep(p, t, th, Tab(s, th.i), c).th;
            th'.pc == Construct || ThreadOk(p, s, t, th')
  {
    hide Inv, Passed, ClosedBelow, Frozen, TableOk, MapsOk, NextMap, TableIsFull;
    InvParts(p, s, t);
    assert Tab(s, th.i).isFull == NO_PENDING_INSERTS || (Tab(s, th.i).pending == 0 && Tab(s, th.i).isFull != 0) ==> Frozen(s, th.i) by {
      if Tab(s, th.i).isFull == NO_PENDING_INSERTS || (Tab(s, th.i).pending == 0 && Tab(s, th.i).isFull != 0) {
        NoPendingFreezes(p, s, th.i);
      }
    }
  }

  lemma LockerKnows(p: Params, s: State, t: ThreadId, c: Choice)
    requires Inv(p, s) && CanStep(p, s, t) && s.threads[t].pc == TryLock
    requires var th := s.threads[t]; InsertStep(p, t, th, Tab(s, th.i), c).th.pc == Construct
    ensures var s' := Step(p, s, t, c); ThreadOk(p, s', t, s'.threads[t])
  {
    hide Inv, Passed, ClosedBelow, Frozen, TableOk, MapsOk, GrowStep, LocalStep, EraseStep, FindStep;
    var th := s.threads[t];
    InvParts(p, s, t);
    PassedSteps(p, s, t, c, th.i, th.key, th.n);
    ClosedBelowSteps(p, s, t, c, th.i, th.key);
  }

  lemma GrowerKnows(p: Params, s: State, t: ThreadId, c: Choice)
    requires Inv(p, s) && CanStep(p, s, t) && Growing(s.threads[t].pc)
    ensures var s' := Step(p, s, t, c); ThreadOk(p, s', t, s'.threads[t])
  {
    hide Inv, Passed, ClosedBelow, Frozen, TableOk, TableStep, LocalStep;
    var th, s' := s.threads[t], Step(p, s, t, c);
    InvParts(p, s, t);
    ClosedBelowSteps(p, s, t, c, th.limit, th.key);
    assert th.limit < s.numMaps ==> IsMapped(s, th.limit);
    if th.pc in {WaitMap, Publish} && IsMapped(s', th.limit) {
      NothingIsPassed(p, Tab(s', th.limit), th.limit, th.key);
    }
  }

  lemma ReaderKnows(p: Params, s: State, t: ThreadId, c: Choice)
    requires Inv(p, s) && CanStep(p, s, t) && s.threads[t].pc in {EraseLoad, EraseCas, FindLoad}
    ensures var th' := Step(p, s, t, c).threads[t];
            ThreadOk(p, s, t, th') && !(th'.pc in {Construct, Allocate, Publish})
  {
    hide Inv, ThreadOk, NextMap, InsertStep, GrowStep, LocalStep, EraseStep, FindStep;
    var th := s.threads[t];
    if th.pc == FindLoad {
      FindingKnows(p, s, t);
    } else {
      ErasingKnows(p, s, t);
    }
  }

  lemma FindingKnows(p: Params, s: State, t: ThreadId)
    requires Inv(p, s) && CanStep(p, s, t) && s.threads[t].pc == FindLoad
    ensures var th := s.threads[t];
            var th' := FindStep(p, th, Tab(s, th.i)); ThreadOk(p, s, t, th') && !(th'.pc in {Construct, Allocate, Publish})
  {
    hide Inv, Passed, ClosedBelow, Frozen, TableOk;
    InvParts(p, s, t);
  }

  lemma ErasingKnows(p: Params, s: State, t: ThreadId)
    requires Inv(p, s) && CanStep(p, s, t) && s.threads[t].pc in {EraseLoad, EraseCas}
    ensures var th := s.threads[t];
            var th' := EraseStep(p, th, Tab(s, th.i)).th; ThreadOk(p, s, t, th') && !(th'.pc in {Construct, Allocate, Publish})
  {
    hide Inv, Passed, ClosedBelow, Frozen, TableOk;
    InvParts(p, s, t);
  }

  lemma LocalKnows(p: Params, s: State, t: ThreadId, c: Choice)
    requires Inv(p, s) && CanStep(p, s, t) && !InTable(s.threads[t].pc) && !Growing(s.threads[t].pc)
    ensures var th' := Step(p, s, t, c).threads[t];
            ThreadOk(p, s, t, th') && !(th'.pc in {Construct, Allocate, Publish})
  {
    hide Inv, ThreadOk, LocalStep, TableStep, GrowStep;
    InvParts(p, s, t);
    if s.threads[t].pc == LoadAllocated {
      InserterStarts(p, s, t, s.threads[t], c);
    } else {
      ReaderStarts(p, s, t, s.threads[t], c);
    }
  }

  lemma InserterStarts(p: Params, s: State, t: ThreadId, th: Thread, c: Choice)
    requires Inv(p, s) && th.pc == LoadAllocated
    ensures var th' := LocalStep(s, th, c); ThreadOk(p, s, t, th') && !(th'.pc in {Construct, Allocate, Publish})
  {
    hide Inv, ThreadOk, ClosedBelow, NextMap;
    assert ClosedBelow(p, s, 0, th.key) by { NothingIsBelow(p, s, th.key); }
    NextMapOk(p, s, t, th.(i := 0, limit := s.numMaps, last := false), c);
    NextMapIsOutside(th.(i := 0, limit := s.numMaps, last := false), c);
  }

  lemma ReaderStarts(p: Params, s: State, t: ThreadId, th: Thread, c: Choice)
    requires p.Valid() && MapsOk(s) && ThreadOk(p, s, t, th) && !InTable(th.pc) && !Growing(th.pc) && th.pc != LoadAllocated
    ensures var th' := LocalStep(s, th, c); ThreadOk(p, s, t, th') && !(th'.pc in {Construct, Allocate, Publish})
  {
    hide Passed, ClosedBelow, Frozen, NextMap;
  }

  lemma NothingIsBelow(p: Params, s: State, k: Key)
    ensures ClosedBelow(p, s, 0, k)
  {
  }

  lemma NextMapIsOutside(th: Thread, c: Choice)
    ensures NextMap(th, c).pc in {LoadCell, Idle, TryLockMap}
  {
  }

  lemma StepperKnows(p: Params, s: State, t: ThreadId, c: Choice)
    requires Inv(p, s) && CanStep(p, s, t)
    ensures var s' := Step(p, s, t, c); t in s'.threads && ThreadOk(p, s', t, s'.threads[t])
  {
    hide ThreadOk, Inv, LocalStep, EraseStep, FindStep;
    var th, s' := s.threads[t], Step(p, s, t, c);
    if Growing(th.pc) {
      GrowerKnows(p, s, t, c);
    } else if !Inserting(th.pc) {
      if InTable(th.pc) {
        ReaderKnows(p, s, t, c);
      } else {
        LocalKnows(p, s, t, c);
      }
      KnowledgeSteps(p, s, t, c, s'.threads[t]);
    } else if th.pc == TryLock && s'.threads[t].pc == Construct {
      LockerKnows(p, s, t, c);
    } else {
      if th.pc in {RecheckCell, Compare} {
        SearcherKnows(p, s, t, th, c);
      } else {
        InserterKnows(p, s, t, th, c);
      }
      KnowledgeSteps(p, s, t, c, s'.threads[t]);
    }
  }

  /** How one thread's move changes who is counted in a sub-map. */
  lemma CountedMoves(threads: map<ThreadId, Thread>, t: ThreadId, th': Thread, i: nat)
    requires t in threads
    ensures var was, now := CountedAt(threads, i), CountedAt(threads[t := th'], i);
            var before := CountedPc(threads[t].pc) && threads[t].i == i;
            var after := CountedPc(th'.pc) && th'.i == i;
            |now| == |was| + (if after then 1 else 0) - (if before then 1 else 0)
  {
    hide CountedPc, CountedAt;
    var was, now := CountedAt(threads, i), CountedAt(threads[t := th'], i);
    forall u ensures u in was - {t} <==> u in now - {t} {
      IsCounted(threads, i, u);
      IsCounted(threads[t := th'], i, u);
    }
    IsCounted(threads, i, t);
    IsCounted(threads[t := th'], i, t);
    assert was - {t} == now - {t};
    WithOrWithout(was, t);
    WithOrWithout(now, t);
  }

  lemma IsCounted(threads: map<ThreadId, Thread>, i: nat, u: ThreadId)
    ensures u in CountedAt(threads, i) <==> u in threads && CountedPc(threads[u].pc) && threads[u].i == i
  {
  }

  lemma WithOrWithout(a: set<ThreadId>, t: ThreadId)
    ensures |a| == |a - {t}| + if t in a then 1 else 0
  {
    assert t !in a ==> a - {t} == a;
  }

  /** The counter moves with the threads that are counted, and only with them. */
  lemma PendingMoves(p: Params, s: State, t: ThreadId, c: Choice, i: nat)
    requires Inv(p, s) && CanStep(p, s, t) && IsMapped(s, i)
    ensures var th, s' := s.threads[t], Step(p, s, t, c);
            var th' := s'.threads[t];
            && IsMapped(s', i)
            && Tab(s', i).pending - Tab(s, i).pending
               == (if CountedPc(th'.pc) && th'.i == i then 1 else 0) - (if CountedPc(th.pc) && th.i == i then 1 else 0)
  {
    hide Inv, Passed, ClosedBelow, Frozen, TableOk, ThreadOk, FindStep, GrowStep, NextMap;
    var th := s.threads[t];
    InvParts(p, s, t);
    if Growing(th.pc) {
      GrowersAreUncounted(p, s, t, c, i);
    } else if InTable(th.pc) {
      NextMapIsOutside(th.(i := th.i + 1), c);
      PendingMovesInTable(p, t, th, Tab(s, th.i), c);
    } else {
      NextMapIsOutside(th.(i := 0, limit := s.numMaps, last := false), c);
    }
  }

  lemma GrowersAreUncounted(p: Params, s: State, t: ThreadId, c: Choice, i: nat)
    requires CanStep(p, s, t) && Growing(s.threads[t].pc) && IsMapped(s, i) && ThreadOk(p, s, t, s.threads[t])
    ensures var s' := Step(p, s, t, c); !CountedPc(s'.threads[t].pc) && IsMapped(s', i) && Tab(s', i) == Tab(s, i)
  {
    hide ClosedBelow;
  }

  lemma PendingMovesInTable(p: Params, t: ThreadId, th: Thread, table: Table, c: Choice)
    requires InTable(th.pc) && p.path(th.i, th.key, th.n) < |table.cells| == |table.pos|
    ensures var e := TableStep(p, t, th, table, c);
            && (CountedPc(e.th.pc) ==> e.th.i == th.i)
            && e.table.pending - table.pending == (if CountedPc(e.th.pc) then 1 else 0) - (if CountedPc(th.pc) then 1 else 0)
  {
    hide NextMap;
    NextMapIsOutside(th.(i := th.i + 1), c);
  }

  /** numPendingEntries_ counts exactly the threads between its increment and its decrement. */
  lemma PendingStays(p: Params, s: State, t: ThreadId, c: Choice, i: nat)
    requires Inv(p, s) && CanStep(p, s, t) && IsMapped(s, i)
    ensures var s' := Step(p, s, t, c); IsMapped(s', i) && Tab(s', i).pending == |CountedAt(s'.threads, i)|
  {
    hide Step, CanStep, CountedAt, CountedPc, Passed, ClosedBelow, Frozen, ThreadOk;
    var s' := Step(p, s, t, c);
    CanStepIsLive(p, s, t);
    OnlyOneMoves(p, s, t, c);
    CountedMoves(s.threads, t, s'.threads[t], i);
    PendingMoves(p, s, t, c, i);
    assert TableOk(p, s, i);
  }

  /** A sub-map that just appeared has no one in it. */
  lemma FreshIsUncounted(p: Params, s: State, i: nat)
    requires Inv(p, s) && !IsMapped(s, i)
    ensures CountedAt(s.threads, i) == {}
  {
    hide Passed, ClosedBelow, Frozen, TableOk;
    forall t | t in s.threads ensures !(CountedPc(s.threads[t].pc) && s.threads[t].i == i) {
      assert ThreadOk(p, s, t, s.threads[t]);
    }
  }

  lemma LockIsTaken(p: Params, s: State, t: ThreadId, c: Choice)
    requires CanStep(p, s, t) && s.threads[t].pc == TryLock
    requires var th := s.threads[t]; Tab(s, th.i).cells[p.path(th.i, th.key, th.n)].Empty?
    ensures Step(p, s, t, c).threads[t] == s.threads[t].(pc := Construct)
  {
  }

  /** What a cell promised, it still promises after an access. */
  lemma CellStays(p: Params, s: State, t: ThreadId, c: Choice, i: nat, k: nat)
    requires Inv(p, s) && CanStep(p, s, t) && IsMapped(s, i) && k < p.capacity(i)
    ensures var s' := Step(p, s, t, c);
            && IsMapped(s', i) && k < |Tab(s', i).cells| == |Tab(s', i).pos| && CellOk(p, s', i, k)
  {
    hide Step, Passed, ClosedBelow, Frozen;
    var s', th := Step(p, s, t, c), s.threads[t];
    assert TableOk(p, s, i) && CellOk(p, s, i, k) && ThreadOk(p, s, t, th);
    OnlyOneMoves(p, s, t, c);
    StepMovesMaps(p, s, t, c);
    StepperKnows(p, s, t, c);
    var was, now := Tab(s, i).cells[k], Tab(s', i).cells[k];
    if now.Stored? {
      ClosedBelowSteps(p, s, t, c, i, now.key);
      PassedSteps(p, s, t, c, i, now.key, if now == was then Tab(s, i).pos[k] else th.n);
    } else if now.Locked? && now != was {
      LockIsTaken(p, s, t, c);
    }
  }

  lemma TableStays(p: Params, s: State, t: ThreadId, c: Choice, i: nat)
    requires Inv(p, s) && CanStep(p, s, t) && IsMapped(s, i)
    ensures IsMapped(Step(p, s, t, c), i) && TableOk(p, Step(p, s, t, c), i)
  {
    hide Step, CanStep, Frozen, ThreadOk, CellOk;
    var s' := Step(p, s, t, c);
    PendingStays(p, s, t, c, i);
    forall k: nat | k < p.capacity(i) ensures k < |Tab(s', i).cells| == |Tab(s', i).pos| && CellOk(p, s', i, k) {
      CellStays(p, s, t, c, i, k);
    }
    CellsKeepTheirNumber(p, s, t, c, i);
    if Tab(s', i).isFull == NO_PENDING_INSERTS {
      OnlyTheFrozenSaySo(p, s, t, c, i);
      FrozenStays(p, s, t, c, i);
    }
  }

  lemma CellsKeepTheirNumber(p: Params, s: State, t: ThreadId, c: Choice, i: nat)
    requires Inv(p, s) && CanStep(p, s, t) && IsMapped(s, i)
    ensures var s' := Step(p, s, t, c); IsMapped(s', i) && |Tab(s', i).cells| == |Tab(s', i).pos| == p.capacity(i)
  {
    hide Step, CanStep, Frozen, ThreadOk, CellOk;
    CanStepIsLive(p, s, t);
    assert TableOk(p, s, i);
    StepMovesMaps(p, s, t, c);
  }

  lemma OnlyTheFrozenSaySo(p: Params, s: State, t: ThreadId, c: Choice, i: nat)
    requires Inv(p, s) && CanStep(p, s, t) && IsMapped(s, i)
    requires var s' := Step(p, s, t, c); IsMapped(s', i) && Tab(s', i).isFull == NO_PENDING_INSERTS
    ensures Frozen(s, i)
  {
    hide Step, CanStep, Frozen, CellOk, Passed, ClosedBelow;
    CanStepIsLive(p, s, t);
    assert TableOk(p, s, i) && ThreadOk(p, s, t, s.threads[t]);
    StepMovesMaps(p, s, t, c);
  }

  lemma NewTableIsOk(p: Params, s: State, t: ThreadId, c: Choice, i: nat)
    requires Inv(p, s) && CanStep(p, s, t) && !IsMapped(s, i) && IsMapped(Step(p, s, t, c), i)
    ensures TableOk(p, Step(p, s, t, c), i)
  {
    hide Step, CanStep, CountedAt, Passed, ClosedBelow, TableMoves;
    var s' := Step(p, s, t, c);
    CanStepIsLive(p, s, t);
    OnlyOneMoves(p, s, t, c);
    StepMovesMaps(p, s, t, c);
    FreshIsUncounted(p, s, i);
    CountedMoves(s.threads, t, s'.threads[t], i);
    CountersStayCounted(p, s, t, c);
  }

  lemma CountersStayCounted(p: Params, s: State, t: ThreadId, c: Choice)
    requires CanStep(p, s, t) && s.threads[t].pc == Allocate
    ensures !CountedPc(Step(p, s, t, c).threads[t].pc)
  {
  }

  /** Every access keeps the invariant, and any thread can always make its next one. */
  lemma StepKeepsInv(p: Params, s: State, t: ThreadId, c: Choice)
    requires Inv(p, s) && CanStep(p, s, t)
    ensures Inv(p, Step(p, s, t, c))
  {
    hide Step, CanStep, TableOk, ThreadOk, MapsOk;
    var s' := Step(p, s, t, c);
    StepKeepsMapsOk(p, s, t, c);
    forall i: nat | IsMapped(s', i) ensures TableOk(p, s', i) {
      if IsMapped(s, i) {
        TableStays(p, s, t, c, i);
      } else {
        NewTableIsOk(p, s, t, c, i);
      }
    }
    CanStepIsLive(p, s, t);
    OnlyOneMoves(p, s, t, c);
    forall u | u in s'.threads ensures ThreadOk(p, s', u, s'.threads[u]) {
      if u == t {
        StepperKnows(p, s, t, c);
      } else {
        OthersKeep(p, s, t, c, u);
      }
    }
  }

  lemma NobodyIsStuck(p: Params, s: State, t: ThreadId)
    requires Inv(p, s) && t in s.threads
    ensures CanStep(p, s, t)
  {
    hide Inv, CellOk, ClosedBelow, Passed, Frozen;
    InvParts(p, s, t);
  }

  lemma InitIsInv(p: Params, ids: set<ThreadId>)
    requires p.Valid()
    ensures Inv(p, Init(p, ids))
  {
    assert CountedAt(Init(p, ids).threads, 0) == {};
  }

  // ----- What holds in every reachable state -----

  /** Does cell c of sub-map i hold k, or is it locked by a thread that is about to store k there? */
  predicate Holds(s: State, i: nat, c: nat, k: Key) {
    && IsMapped(s, i) && c < |Tab(s, i).cells|
    && var cell := Tab(s, i).cells[c];
    || cell == Stored(k)
    || (cell.Locked? && cell.owner in s.threads && s.threads[cell.owner].key == k)
  }

  predicate IsLive(s: State, i: nat, c: nat, k: Key) {
    IsMapped(s, i) && c < |Tab(s, i).cells| && Tab(s, i).cells[c] == Stored(k)
  }

  /** Where in the probe sequence a held cell is, and what lies before it. */
  lemma HeldAt(p: Params, s: State, i: nat, c: nat, k: Key) returns (n: nat)
    requires Inv(p, s) && Holds(s, i, c, k)
    ensures n < p.capacity(i) && p.path(i, k, n) == c && Passed(p, Tab(s, i), i, k, n) && ClosedBelow(p, s, i, k)
    ensures !Barrier(Tab(s, i).cells[c], k) && !Tab(s, i).cells[c].Empty?
    ensures Tab(s, i).cells[c].Locked? ==> !Frozen(s, i)
  {
    hide Passed, ClosedBelow;
    assert TableOk(p, s, i) && CellOk(p, s, i, c);
    var cell := Tab(s, i).cells[c];
    if cell.Locked? {
      assert ThreadOk(p, s, cell.owner, s.threads[cell.owner]);
      n := s.threads[cell.owner].n;
    } else {
      n := Tab(s, i).pos[c];
    }
  }

  /** A key that is in a sub-map, or about to be, is not closed there. */
  lemma HeldIsOpen(p: Params, s: State, i: nat, c: nat, k: Key)
    requires Inv(p, s) && Holds(s, i, c, k)
    ensures !Closed(p, s, i, k)
  {
    hide Inv, Frozen;
    var n := HeldAt(p, s, i, c, k);
    forall m: nat ensures !ClosedAt(p, s, i, k, m) {
    }
  }

  /** In every reachable state a key is in at most one cell of all sub-maps, stored or about to be. */
  lemma KeyIsHeldOnce(p: Params, s: State, i: nat, c: nat, j: nat, d: nat, k: Key)
    requires Inv(p, s) && Holds(s, i, c, k) && Holds(s, j, d, k)
    ensures i == j && c == d
  {
    hide Inv, Frozen, Holds;
    HeldIsOpen(p, s, i, c, k);
    HeldIsOpen(p, s, j, d, k);
    var m := HeldAt(p, s, i, c, k);
    var n := HeldAt(p, s, j, d, k);
    assert ClosedBelow(p, s, i, k) && ClosedBelow(p, s, j, k);
  }

  /** At most one thread prepares a sub-map, and it prepares the first one not in use. */
  lemma OneThreadGrows(p: Params, s: State, t: ThreadId, u: ThreadId)
    requires Inv(p, s) && t in s.threads && u in s.threads
    requires s.threads[t].pc in {Allocate, Publish} && s.threads[u].pc in {Allocate, Publish}
    ensures t == u && s.threads[t].limit == s.numMaps
  {
    hide TableOk, Passed, ClosedBelow, Frozen;
    assert ThreadOk(p, s, t, s.threads[t]) && ThreadOk(p, s, u, s.threads[u]);
  }

  // ----- Runs -----

  ghost predicate Steps(p: Params, s: State, s': State) {
    exists t, c :: CanStep(p, s, t) && s' == Step(p, s, t, c)
  }

  /** Any interleaving of any operations of the given threads. */
  ghost predicate IsRun(p: Params, ids: set<ThreadId>, run: seq<State>) {
    && p.Valid() && |run| > 0 && run[0] == Init(p, ids)
    && forall j: nat | j + 1 < |run| :: Steps(p, run[j], run[j + 1])
  }

  lemma {:induction false} RunKeepsInv(p: Params, ids: set<ThreadId>, run: seq<State>, j: nat)
    requires IsRun(p, ids, run) && j < |run|
    ensures Inv(p, run[j])
  {
    hide Inv, Init, Step, CanStep;
    if j == 0 {
      InitIsInv(p, ids);
    } else {
      RunKeepsInv(p, ids, run, j - 1);
      assert Steps(p, run[j - 1], run[j - 1 + 1]);
      var t, c :| CanStep(p, run[j - 1], t) && run[j] == Step(p, run[j - 1], t, c);
      StepKeepsInv(p, run[j - 1], t, c);
    }
  }

  lemma EvolvesIsTransitive(p: Params, s0: State, s1: State, s2: State)
    requires Evolves(p, s0, s1) && Evolves(p, s1, s2)
    ensures Evolves(p, s0, s2)
  {
    hide Frozen;
    forall i: nat, c: nat | IsMapped(s0, i) && c < |Tab(s0, i).cells|
      ensures Settles(Tab(s0, i).cells[c], Tab(s2, i).cells[c])
    {
      assert Settles(Tab(s0, i).cells[c], Tab(s1, i).cells[c]) && Settles(Tab(s1, i).cells[c], Tab(s2, i).cells[c]);
    }
  }

  lemma EvolvesIsReflexive(p: Params, s: State)
    ensures Evolves(p, s, s)
  {
  }

  lemma {:induction false} RunEvolves(p: Params, ids: set<ThreadId>, run: seq<State>, a: nat, b: nat)
    requires IsRun(p, ids, run) && a <= b < |run|
    ensures Evolves(p, run[a], run[b])
  {
    hide Inv, Init, Step, CanStep, Evolves;
    if a == b {
      EvolvesIsReflexive(p, run[a]);
    } else {
      RunEvolves(p, ids, run, a, b - 1);
      RunKeepsInv(p, ids, run, b - 1);
      assert Steps(p, run[b - 1], run[b - 1 + 1]);
      var t, c :| CanStep(p, run[b - 1], t) && run[b] == Step(p, run[b - 1], t, c);
      StepEvolves(p, run[b - 1], t, c);
      EvolvesIsTransitive(p, run[a], run[b - 1], run[b]);
    }
  }

  /** In no interleaving is a key live twice, in one sub-map or in two. */
  lemma KeyIsLiveOnce(p: Params, ids: set<ThreadId>, run: seq<State>, a: nat, i: nat, c: nat, j: nat, d: nat, k: Key)
    requires IsRun(p, ids, run) && a < |run| && IsLive(run[a], i, c, k) && IsLive(run[a], j, d, k)
    ensures i == j && c == d
  {
    hide Inv, IsRun;
    RunKeepsInv(p, ids, run, a);
    KeyIsHeldOnce(p, run[a], i, c, j, d, k);
  }

  /** From the moment a key is stored, no cell that its search probes first is ever empty or locked again:
      not when keys are erased, and not when constructors throw. */
  lemma PathStaysOccupied(p: Params, ids: set<ThreadId>, run: seq<State>, a: nat, b: nat, i: nat, c: nat, k: Key)
      returns (n: nat)
    requires IsRun(p, ids, run) && a <= b < |run| && IsLive(run[a], i, c, k)
    ensures n < p.capacity(i) && p.path(i, k, n) == c && IsMapped(run[b], i)
    ensures forall m: nat {:trigger p.path(i, k, m)} | m < n ::
              p.path(i, k, m) < |Tab(run[b], i).cells| && Barrier(Tab(run[b], i).cells[p.path(i, k, m)], k)
  {
    hide Inv, IsRun, Evolves, ClosedBelow, Frozen;
    RunKeepsInv(p, ids, run, a);
    n := HeldAt(p, run[a], i, c, k);
    RunEvolves(p, ids, run, a, b);
    PassedStays(p, run[a], run[b], i, k, n);
  }

  /** Once an insertion has answered "full" for a sub-map with an empty cell left, no cell there is ever locked
      again, and what is empty stays empty. */
  lemma FullIsForever(p: Params, ids: set<ThreadId>, run: seq<State>, a: nat, b: nat, t: ThreadId, c: nat)
    requires IsRun(p, ids, run) && a <= b < |run| && t in run[a].threads && run[a].threads[t].pc == RecheckCell
    ensures var i := run[a].threads[t].i;
            && IsMapped(run[a], i) && Frozen(run[b], i) && |Tab(run[b], i).cells| == |Tab(run[a], i).cells|
            && (c < |Tab(run[b], i).cells| ==>
                  && !Tab(run[b], i).cells[c].Locked?
                  && (Tab(run[a], i).cells[c].Empty? ==> Tab(run[b], i).cells[c].Empty?)
                  && (Tab(run[a], i).cells[c].Stored? ==> !Tab(run[b], i).cells[c].Empty?))
  {
    hide IsRun, ClosedBelow, Passed;
    var i := run[a].threads[t].i;
    RunKeepsInv(p, ids, run, a);
    RunKeepsInv(p, ids, run, b);
    assert ThreadOk(p, run[a], t, run[a].threads[t]);
    RunEvolves(p, ids, run, a, b);
    if c < |Tab(run[b], i).cells| {
      assert TableOk(p, run[b], i) && CellOk(p, run[b], i, c);
      assert Settles(Tab(run[a], i).cells[c], Tab(run[b], i).cells[c]);
    }
  }

  /** A sub-map that an insertion of k has left behind never holds k again. */
  lemma LeftBehindForever(p: Params, ids: set<ThreadId>, run: seq<State>, a: nat, b: nat, t: ThreadId, j: nat, c: nat)
    requires IsRun(p, ids, run) && a <= b < |run| && t in run[a].threads
    requires var th := run[a].threads[t]; (Inserting(th.pc) && j < th.i) || (Growing(th.pc) && j < th.limit)
    ensures !Holds(run[b], j, c, run[a].threads[t].key)
  {
    hide IsRun, Evolves, Holds, Passed, Closed;
    var th := run[a].threads[t];
    RunKeepsInv(p, ids, run, a);
    RunKeepsInv(p, ids, run, b);
    assert ThreadOk(p, run[a], t, th);
    RunEvolves(p, ids, run, a, b);
    ClosedBelowStays(p, run[a], run[b], if Inserting(th.pc) then th.i else th.limit, th.key);
    assert Closed(p, run[b], j, th.key);
    if Holds(run[b], j, c, th.key) {
      HeldIsOpen(p, run[b], j, c, th.key);
    }
  }

  /** A sub-map, once there, stays the one that its only creator made. */
  lemma SubMapIsMadeOnce(p: Params, ids: set<ThreadId>, run: seq<State>, a: nat, b: nat, i: nat)
    requires IsRun(p, ids, run) && a <= b < |run| && IsMapped(run[a], i)
    ensures IsMapped(run[b], i) && run[b].maps[i].creator == run[a].maps[i].creator
  {
    hide IsRun;
    RunEvolves(p, ids, run, a, b);
  }

  // ----- Searches -----

  predicate Searching(pc: Pc) {
    pc in {FindLoad, FindLoadAllocated, EraseLoad, EraseCas}
  }

  /** A search has not got past probe pos of sub-map i, where cell c is. */
  predicate Ahead(p: Params, th: Thread, i: nat, c: nat, pos: nat) {
    && Searching(th.pc)
    && (th.pc in {FindLoad, EraseLoad} ==> th.i < i || (th.i == i && th.n <= pos))
    && (th.pc == EraseLoad || (th.pc == FindLoad && th.i > 0) ==> i < th.limit)
    && (th.pc == EraseCas ==> th.i == i && p.path(i, th.key, th.n) == c)
    && (th.pc == FindLoadAllocated ==> i > 0)
  }

  /** What a search sees before it gets to a live key: barriers in its sub-map, the key in no other one. */
  lemma SeenOnTheWay(p: Params, s: State, i: nat, c: nat, k: Key, j: nat, n: nat)
    requires Inv(p, s) && IsLive(s, i, c, k) && IsMapped(s, j)
    requires p.path(j, k, n) < |Tab(s, j).cells|
    ensures c < |Tab(s, i).pos|
    ensures var pos, idx := Tab(s, i).pos[c], p.path(j, k, n);
            && i < s.numMaps && pos < p.capacity(i) && p.path(i, k, pos) == c
            && (j == i && n < pos ==> Barrier(Tab(s, j).cells[idx], k))
            && (Tab(s, j).cells[idx] == Stored(k) ==> j == i && idx == c)
  {
    hide ClosedBelow, Frozen;
    assert TableOk(p, s, i) && CellOk(p, s, i, c);
    if Tab(s, j).cells[p.path(j, k, n)] == Stored(k) {
      KeyIsHeldOnce(p, s, i, c, j, p.path(j, k, n), k);
    }
  }

  lemma LivePosStays(p: Params, s: State, t: ThreadId, c: Choice, i: nat, k: nat, key: Key)
    requires Inv(p, s) && CanStep(p, s, t) && IsLive(s, i, k, key)
    ensures var s' := Step(p, s, t, c);
            && k < |Tab(s, i).pos| && IsMapped(s', i) && k < |Tab(s', i).pos|
            && (IsLive(s', i, k, key) ==> Tab(s', i).pos[k] == Tab(s, i).pos[k])
  {
    hide Step, Passed, ClosedBelow, Frozen;
    assert TableOk(p, s, i) && ThreadOk(p, s, t, s.threads[t]);
    StepMovesMaps(p, s, t, c);
  }

  lemma FinderGetsThere(p: Params, th: Thread, table: Table, i: nat, c: nat, pos: nat)
    requires Ahead(p, th, i, c, pos) && th.pc == FindLoad && pos < p.capacity(i)
    requires p.path(th.i, th.key, th.n) < |table.cells|
    requires var idx := p.path(th.i, th.key, th.n);
             && (th.i == i && th.n < pos ==> Barrier(table.cells[idx], th.key))
             && (th.i == i && th.n == pos ==> table.cells[idx] == Stored(th.key))
             && (table.cells[idx] == Stored(th.key) ==> th.i == i && idx == c)
    ensures var th' := FindStep(p, th, table);
            Ahead(p, th', i, c, pos) || th' == th.Answers(Present(i, c))
  {
  }

  lemma EraserGetsThere(p: Params, th: Thread, table: Table, i: nat, c: nat, pos: nat)
    requires Ahead(p, th, i, c, pos) && th.pc in {EraseLoad, EraseCas} && pos < p.capacity(i)
    requires p.path(th.i, th.key, th.n) < |table.cells|
    requires var idx := p.path(th.i, th.key, th.n);
             && (th.i == i && th.n < pos ==> Barrier(table.cells[idx], th.key))
             && (th.i == i && idx == c ==> table.cells[idx] == Stored(th.key))
             && (table.cells[idx] == Stored(th.key) ==> th.i == i && idx == c)
             && (th.i == i && th.n == pos ==> idx == c)
    ensures var e := EraseStep(p, th, table);
            Ahead(p, e.th, i, c, pos) || (th.i == i && e.table.cells == table.cells[c := Erased] && e.th == th.Answers(Removed))
  {
  }

  /** The searching thread's own access. */
  lemma SearcherSteps(p: Params, s: State, t: ThreadId, c: Choice, i: nat, k: nat, pos: nat)
    requires Inv(p, s) && CanStep(p, s, t) && s.threads[t].pc in {FindLoad, EraseLoad, EraseCas}
    requires IsLive(s, i, k, s.threads[t].key) && k < |Tab(s, i).pos| && pos == Tab(s, i).pos[k]
    requires Ahead(p, s.threads[t], i, k, pos)
    requires IsLive(Step(p, s, t, c), i, k, s.threads[t].key)
    ensures var th' := Step(p, s, t, c).threads[t];
            Ahead(p, th', i, k, pos) || th' == s.threads[t].Answers(Present(i, k))
  {
    hide Inv, CanStep, Step, Ahead, EraseStep, FindStep, Barrier;
    CanStepIsLive(p, s, t);
    var th := s.threads[t];
    CanStepHere(p, s, t);
    SeenOnTheWay(p, s, i, k, th.key, th.i, th.n);
    StepHere(p, s, t, c);
    if th.pc == FindLoad {
      FinderGetsThere(p, th, Tab(s, th.i), i, k, pos);
    } else {
      EraserGetsThere(p, th, Tab(s, th.i), i, k, pos);
    }
  }

  /** While the key stays live, no access lets a search miss it. */
  lemma SearcherGetsThere(p: Params, s: State, t: ThreadId, c: Choice, u: ThreadId, i: nat, k: nat)
    requires Inv(p, s) && CanStep(p, s, t) && u in s.threads && Searching(s.threads[u].pc)
    requires IsLive(s, i, k, s.threads[u].key) && k < |Tab(s, i).pos|
    requires Ahead(p, s.threads[u], i, k, Tab(s, i).pos[k])
    requires IsLive(Step(p, s, t, c), i, k, s.threads[u].key)
    ensures var s' := Step(p, s, t, c);
            && u in s'.threads && k < |Tab(s', i).pos|
            && (Ahead(p, s'.threads[u], i, k, Tab(s', i).pos[k]) || s'.threads[u] == s.threads[u].Answers(Present(i, k)))
  {
    hide Inv, CanStep, Step, Ahead;
    var th, pos := s.threads[u], Tab(s, i).pos[k];
    LivePosStays(p, s, t, c, i, k, th.key);
    OnlyOneMoves(p, s, t, c);
    if u == t {
      if th.pc == FindLoadAllocated {
        assert i > 0 by { WaitingFinder(p, th, i, k, pos); }
        LastMapIsSearched(p, s, t, c, i, k);
      } else {
        SearcherSteps(p, s, t, c, i, k, pos);
      }
    }
  }

  lemma CanStepHere(p: Params, s: State, t: ThreadId)
    requires CanStep(p, s, t) && InTable(s.threads[t].pc)
    ensures var th := s.threads[t];
            IsMapped(s, th.i) && p.path(th.i, th.key, th.n) < |Tab(s, th.i).cells| == |Tab(s, th.i).pos|
  {
  }

  lemma StepHere(p: Params, s: State, t: ThreadId, c: Choice)
    requires CanStep(p, s, t) && s.threads[t].pc in {FindLoad, EraseLoad, EraseCas}
    ensures var th, s' := s.threads[t], Step(p, s, t, c);
            && IsMapped(s', th.i)
            && (th.pc == FindLoad ==> s'.threads[t] == FindStep(p, th, Tab(s, th.i)))
            && (th.pc != FindLoad ==>
                  var e := EraseStep(p, th, Tab(s, th.i)); s'.threads[t] == e.th && Tab(s', th.i) == e.table)
  {
    hide EraseStep, FindStep;
  }

  lemma LastMapIsSearched(p: Params, s: State, t: ThreadId, c: Choice, i: nat, k: nat)
    requires Inv(p, s) && CanStep(p, s, t) && s.threads[t].pc == FindLoadAllocated && i > 0
    requires IsLive(s, i, k, s.threads[t].key) && k < |Tab(s, i).pos|
    ensures Ahead(p, Step(p, s, t, c).threads[t], i, k, Tab(s, i).pos[k])
  {
    hide Inv, InsertStep, EraseStep, FindStep, GrowStep, NextMap;
    LiveIsInUse(p, s, i, k, s.threads[t].key);
    InvParts(p, s, t);
    FinderIsFirst(p, s, t);
  }

  lemma FinderIsFirst(p: Params, s: State, t: ThreadId)
    requires t in s.threads && ThreadOk(p, s, t, s.threads[t]) && s.threads[t].pc == FindLoadAllocated
    ensures s.threads[t].i == 0
  {
    hide Passed, ClosedBelow, Frozen;
  }

  lemma LiveIsInUse(p: Params, s: State, i: nat, c: nat, k: Key)
    requires Inv(p, s) && IsLive(s, i, c, k)
    ensures i < s.numMaps
  {
    hide Passed, ClosedBelow, Frozen, ThreadOk;
    assert TableOk(p, s, i) && CellOk(p, s, i, c);
  }

  lemma WaitingFinder(p: Params, th: Thread, i: nat, c: nat, pos: nat)
    requires Ahead(p, th, i, c, pos) && th.pc == FindLoadAllocated
    ensures i > 0
  {
  }

  /** A search that has just begun. */
  predicate Begins(s: State, t: ThreadId) {
    && t in s.threads
    && var th := s.threads[t];
    && th.i == 0 && th.n == 0
    && (th.pc == FindLoad || (th.pc == EraseLoad && th.limit == s.numMaps))
  }

  /** In any interleaving, a find during which the key stays in one cell answers with that cell, and an erase
      does not end while the key stays. */
  lemma {:induction false} LiveKeysAreFound(
      p: Params, ids: set<ThreadId>, run: seq<State>, a: nat, b: nat, t: ThreadId, i: nat, c: nat, k: Key)
    requires IsRun(p, ids, run) && a <= b < |run| && Begins(run[a], t) && run[a].threads[t].key == k
    requires forall j: nat | a <= j <= b :: IsLive(run[j], i, c, k)
    requires forall j: nat | a <= j < b :: t in run[j].threads && Searching(run[j].threads[t].pc)
    ensures t in run[b].threads && run[b].threads[t].key == k && IsMapped(run[b], i) && c < |Tab(run[b], i).pos|
    ensures || Ahead(p, run[b].threads[t], i, c, Tab(run[b], i).pos[c])
            || (run[b].threads[t].pc == Idle && run[b].threads[t].answer == Present(i, c))
  {
    hide Inv, Step, CanStep, IsRun, Ahead;
    RunKeepsInv(p, ids, run, b);
    if a == b {
      SearchStarts(p, run[a], t, i, c);
    } else {
      LiveKeysAreFound(p, ids, run, a, b - 1, t, i, c, k);
      RunKeepsInv(p, ids, run, b - 1);
      assert Steps(p, run[b - 1], run[b - 1 + 1]) by { RunSteps(p, ids, run, b - 1); }
      var u, e :| CanStep(p, run[b - 1], u) && run[b] == Step(p, run[b - 1], u, e);
      SearcherGetsThere(p, run[b - 1], u, e, t, i, c);
      SearchersKeepTheirKey(p, run[b - 1], u, e, t);
    }
  }

  lemma RunSteps(p: Params, ids: set<ThreadId>, run: seq<State>, j: nat)
    requires IsRun(p, ids, run) && j + 1 < |run|
    ensures Steps(p, run[j], run[j + 1])
  {
  }

  lemma SearchersKeepTheirKey(p: Params, s: State, t: ThreadId, c: Choice, u: ThreadId)
    requires CanStep(p, s, t) && u in s.threads && Searching(s.threads[u].pc)
    ensures var s' := Step(p, s, t, c); u in s'.threads && s'.threads[u].key == s.threads[u].key
  {
  }

  lemma SearchStarts(p: Params, s: State, t: ThreadId, i: nat, c: nat)
    requires Inv(p, s) && Begins(s, t) && IsLive(s, i, c, s.threads[t].key)
    ensures c < |Tab(s, i).pos| && Ahead(p, s.threads[t], i, c, Tab(s, i).pos[c])
  {
    hide Passed, ClosedBelow, Frozen;
    assert TableOk(p, s, i) && CellOk(p, s, i, c) && ThreadOk(p, s, t, s.threads[t]);
  }
}
