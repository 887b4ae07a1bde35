/** folly's ConcurrentSkipList as a step system: any number of threads add, remove and find, and grow the
    head, one atomic access or lock operation at a time (ConcurrentSkipList.h, ConcurrentSkipList-inl.h). */
module SkipLists {

  /** The null pointer; nodes are numbered in the order of their creation, from 1. */
  const NIL: nat := 0

  type Key = int
  type ThreadId = nat

  datatype Lock = Free | By(owner: ThreadId)

  /** A node. The last four fields are bookkeeping that no step reads: in how many layers, from the bottom, the
      node is now and was at most; whether size_ counts it; and who made it. For a head, top is positive from the
      moment head_ points to it. */
  datatype Node = Node(
    height: nat, key: Key, isHead: bool, skip: seq<nat>, marked: bool, linked: bool, lock: Lock,
    levels: nat, top: nat, counted: bool, creator: ThreadId)

  /** The list: its nodes, head_ and size_. */
  datatype SkipList = SkipList(nodes: seq<Node>, head: nat, size: int)

  datatype Operation = Add(k: Key) | Remove(k: Key) | Find(k: Key)

  /** Every constructor names the access the thread makes next. */
  datatype Pc =
    | Idle
    | LoadMaxLayer | LoadHead | LoadSkip
    | CheckFound | WaitLinked
    | CheckLinked | CheckVictim | LockVictim | RecheckVictim | LoadMark | StoreMark
    | LockPred | CheckPred | CheckSkip | CheckSucc
    | Create | SetNew | Link | LoadLinked | StoreLinked | IncSize
    | LoadVictim | Unlink | DecSize
    | Release | ReleaseVictim
    | GrowHeight | GrowLoad | GrowCreate | GrowLock | GrowFlags | GrowCopy | GrowCas | GrowLoadMark | GrowStoreMark | GrowUnlock
    | FindHead | FindDown | FindRight | FindMarked

  datatype Answer = NoAnswer | Added(n: nat, newSize: int) | Present(n: nat) | Missing | Removed

  /** A thread's locals: node is the new node, the victim or the new head, by operation; found is -1 or a layer;
      held are the guards; flag keeps a flag between its load and its store. */
  datatype Thread = Thread(
    pc: Pc, op: Operation, maxLayer: nat, layer: nat, pred: nat, found: int, foundNode: nat,
    preds: seq<nat>, succs: seq<nat>, height: nat, k: nat, node: nat, isMarked: bool, held: set<nat>, done: bool,
    oldHead: nat, tmp: nat, flag: bool, answer: Answer)
  {
    function Answers(a: Answer): Thread { this.(pc := Idle, answer := a) }
  }

  datatype State = State(list: SkipList, threads: map<ThreadId, Thread>)

  /** What a step leaves open: the operation to start, a random height, whether to grow, which guard goes first. */
  datatype Choice = Choice(flag: bool, op: Operation, height: nat, node: nat)

  datatype Effect = Effect(list: SkipList, th: Thread)

  function NewNode(height: nat, key: Key, isHead: bool, t: ThreadId): Node {
    Node(height, key, isHead, seq(height, i => NIL), false, false, Free, 0, 0, false, t)
  }

  function Init(maxHeight: nat, height: nat, ids: set<ThreadId>): State {
    State(SkipList([NewNode(0, 0, true, 0), NewNode(height, 0, true, 0).(top := height)], 1, 0),
          map t | t in ids :: Thread(Idle, Find(0), 0, 0, 0, -1, 0, seq(maxHeight, i => NIL), seq(maxHeight, i => NIL),
                                     0, 0, 0, false, {}, false, 0, 0, false, NoAnswer))
  }

  predicate IsNode(l: SkipList, n: nat) {
    0 < n < |l.nodes|
  }

  function Put(l: SkipList, n: nat, node: Node): SkipList
    requires IsNode(l, n)
  {
    l.(nodes := l.nodes[n := node])
  }

  predicate Greater(l: SkipList, key: Key, n: nat) {
    IsNode(l, n) && l.nodes[n].key < key
  }

  predicate Less(l: SkipList, key: Key, n: nat) {
    !IsNode(l, n) || key < l.nodes[n].key
  }

  // ----- What a thread is doing -----

  predicate Searching(pc: Pc) { pc in {LoadMaxLayer, LoadHead, LoadSkip} }
  predicate Locking(pc: Pc) { pc in {LockPred, CheckPred, CheckSkip, CheckSucc} }
  predicate Adding(pc: Pc) { pc in {CheckFound, WaitLinked, Create, SetNew, Link, LoadLinked, StoreLinked, IncSize} }
  predicate Removing(pc: Pc) {
    pc in {CheckLinked, CheckVictim, LockVictim, RecheckVictim, LoadMark, StoreMark, LoadVictim, Unlink, DecSize, ReleaseVictim}
  }
  predicate Growing(pc: Pc) {
    pc in {GrowHeight, GrowLoad, GrowCreate, GrowLock, GrowFlags, GrowCopy, GrowCas, GrowLoadMark, GrowStoreMark, GrowUnlock}
  }
  predicate Finding(pc: Pc) { pc in {FindHead, FindDown, FindRight, FindMarked} }

  // ----- Searching for the place of a key -----

  /** findInsertionPoint, one load at a time. */
  function SearchStep(l: SkipList, th: Thread, c: Choice): Thread
    requires IsNode(l, l.head) && Searching(th.pc)
    requires th.pc == LoadSkip ==>
      IsNode(l, th.pred) && th.layer < |l.nodes[th.pred].skip| && th.layer < |th.preds| == |th.succs|
  {
    if th.pc == LoadMaxLayer then
      th.(pc := LoadHead, maxLayer := if l.nodes[l.head].height > 0 then l.nodes[l.head].height - 1 else 0)
    else if th.pc == LoadHead then th.(pc := LoadSkip, pred := l.head, layer := th.maxLayer, found := -1, foundNode := NIL)
    else
      var node := l.nodes[th.pred].skip[th.layer];
      if Greater(l, th.op.k, node) then th.(pred := node)
      else
        var th2 := Recorded(l, th, node);
        if th.layer > 0 then th2.(layer := th.layer - 1) else Searched(th2, c)
  }

  /** The neighbours in a layer: a node that was found stays the successor in all layers below. */
  function Recorded(l: SkipList, th: Thread, node: nat): Thread
    requires th.layer < |th.preds| == |th.succs|
  {
    var found := th.found == -1 && !Less(l, th.op.k, node);
    var foundNode := if found then node else th.foundNode;
    th.(found := if found then th.layer else th.found, foundNode := foundNode,
        preds := th.preds[th.layer := th.pred], succs := th.succs[th.layer := if foundNode != NIL then foundNode else node])
  }

  /** What follows a search. */
  function Searched(th: Thread, c: Choice): Thread {
    match th.op
    case Add(_) =>
      if th.found >= 0 then th.(pc := CheckFound)
      else th.(pc := LockPred, k := 0, held := {}, height := if 0 < c.height <= th.maxLayer then c.height else th.maxLayer + 1)
    case _ =>
      if th.isMarked then th.(pc := LockPred, k := 0, held := {})
      else if th.found < 0 then th.Answers(Missing)
      else th.(pc := CheckLinked)
  }

  // ----- Locking -----

  /** lockNodesForChange: consecutive layers may share a predecessor, which is locked once. */
  function LockStep(l: SkipList, t: ThreadId, th: Thread): Effect
    requires Locking(th.pc)
    requires th.k < |th.preds| == |th.succs| && IsNode(l, th.preds[th.k])
    requires th.pc == CheckSkip ==> th.k < |l.nodes[th.preds[th.k]].skip|
  {
    var pred := l.nodes[th.preds[th.k]];
    if th.pc == LockPred then
      if th.k > 0 && th.preds[th.k] == th.preds[th.k - 1] then Effect(l, th.(pc := CheckPred))
      else if pred.lock.Free? then
        Effect(Put(l, th.preds[th.k], pred.(lock := By(t))), th.(pc := CheckPred, held := th.held + {th.preds[th.k]}))
      else Effect(l, th)
    else if th.pc == CheckPred then Effect(l, if pred.marked then Fails(th) else th.(pc := CheckSkip))
    else if th.pc == CheckSkip then
      Effect(l, if pred.skip[th.k] != th.succs[th.k] then Fails(th)
                else if th.op.Add? && th.succs[th.k] != NIL then th.(pc := CheckSucc)
                else LayerIsValid(th))
    else
      Effect(l, if IsNode(l, th.succs[th.k]) && l.nodes[th.succs[th.k]].marked then Fails(th) else LayerIsValid(th))
  }

  /** Give up the guards and search again. */
  function Fails(th: Thread): Thread {
    th.(pc := Release, done := false)
  }

  function LayerIsValid(th: Thread): Thread {
    if th.k + 1 < th.height then th.(pc := LockPred, k := th.k + 1)
    else if th.op.Add? then th.(pc := Create, k := 0)
    else th.(pc := LoadVictim)
  }

  /** The guards' destructors, and what follows. */
  function ReleaseStep(l: SkipList, th: Thread, c: Choice): Effect {
    if c.node in th.held && IsNode(l, c.node) then
      Effect(Put(l, c.node, l.nodes[c.node].(lock := Free)), th.(held := th.held - {c.node}))
    else if th.held != {} then Effect(l, th)
    else Effect(l, if !th.done then th.(pc := LoadMaxLayer)
                   else if th.op.Add? then th.(pc := GrowHeight)
                   else th.(pc := ReleaseVictim))
  }

  // ----- addOrGetData -----

  function AddStep(l: SkipList, t: ThreadId, th: Thread): Effect
    requires Adding(th.pc)
    requires th.pc in {CheckFound, WaitLinked} ==> IsNode(l, th.foundNode)
    requires th.pc in {SetNew, Link, LoadLinked, StoreLinked, IncSize} ==> IsNode(l, th.node)
    requires th.pc in {SetNew, Link} ==>
      && th.k < |th.preds| == |th.succs| && th.k < |l.nodes[th.node].skip|
      && IsNode(l, th.preds[th.k]) && th.k < |l.nodes[th.preds[th.k]].skip|
  {
    if th.pc == CheckFound then Effect(l, if l.nodes[th.foundNode].marked then th.(pc := LoadMaxLayer) else th.(pc := WaitLinked))
    else if th.pc == WaitLinked then Effect(l, if l.nodes[th.foundNode].linked then th.Answers(Present(th.foundNode)) else th)
    else if th.pc == Create then
      Effect(l.(nodes := l.nodes + [NewNode(th.height, th.op.k, false, t)]), th.(pc := SetNew, node := |l.nodes|))
    else if th.pc == SetNew then
      var node := l.nodes[th.node];
      Effect(Put(l, th.node, node.(skip := node.skip[th.k := th.succs[th.k]])), th.(pc := Link))
    else if th.pc == Link then
      var pred := l.nodes[th.preds[th.k]];
      var l1 := Put(l, th.preds[th.k], pred.(skip := pred.skip[th.k := th.node]));
      Effect(Put(l1, th.node, l1.nodes[th.node].(levels := th.k + 1, top := th.k + 1)),
             if th.k + 1 < th.height then th.(pc := SetNew, k := th.k + 1) else th.(pc := LoadLinked))
    else if th.pc == LoadLinked then Effect(l, th.(pc := StoreLinked, flag := l.nodes[th.node].marked))
    else if th.pc == StoreLinked then
      Effect(Put(l, th.node, l.nodes[th.node].(linked := true, marked := th.flag)), th.(pc := IncSize))
    else
      Effect(Put(l, th.node, l.nodes[th.node].(counted := true)).(size := l.size + 1),
             th.(pc := Release, done := true, answer := Added(th.node, l.size + 1)))
  }

  // ----- remove -----

  function RemoveStep(l: SkipList, t: ThreadId, th: Thread): Effect
    requires Removing(th.pc)
    requires th.pc in {CheckLinked, CheckVictim} ==> IsNode(l, th.foundNode)
    requires th.pc in {LockVictim, RecheckVictim, LoadMark, StoreMark, LoadVictim, Unlink, DecSize, ReleaseVictim} ==> IsNode(l, th.node)
    requires th.pc in {LoadVictim, Unlink} ==>
      && th.k < |th.preds| && th.k < |l.nodes[th.node].skip|
      && IsNode(l, th.preds[th.k]) && th.k < |l.nodes[th.preds[th.k]].skip|
  {
    if th.pc == CheckLinked then
      Effect(l, if l.nodes[th.foundNode].linked && l.nodes[th.foundNode].height == th.found + 1 then th.(pc := CheckVictim)
                else th.Answers(Missing))
    else if th.pc == CheckVictim then
      Effect(l, if l.nodes[th.foundNode].marked then th.Answers(Missing)
                else th.(pc := LockVictim, node := th.foundNode, height := l.nodes[th.foundNode].height))
    else if th.pc == LockVictim then
      if l.nodes[th.node].lock.Free? then
        Effect(Put(l, th.node, l.nodes[th.node].(lock := By(t))), th.(pc := RecheckVictim))
      else Effect(l, th)
    else if th.pc == RecheckVictim then
      Effect(l, if l.nodes[th.node].marked then th.(pc := ReleaseVictim, answer := Missing) else th.(pc := LoadMark))
    else if th.pc == LoadMark then Effect(l, th.(pc := StoreMark, flag := l.nodes[th.node].linked))
    else if th.pc == StoreMark then
      Effect(Put(l, th.node, l.nodes[th.node].(marked := true, linked := th.flag)),
             th.(pc := LockPred, k := 0, held := {}, isMarked := true))
    else if th.pc == LoadVictim then Effect(l, th.(pc := Unlink, tmp := l.nodes[th.node].skip[th.k]))
    else if th.pc == Unlink then
      var pred := l.nodes[th.preds[th.k]];
      var l1 := Put(l, th.preds[th.k], pred.(skip := pred.skip[th.k := th.tmp]));
      Effect(Put(l1, th.node, l1.nodes[th.node].(levels := th.k)),
             if th.k > 0 then th.(pc := LoadVictim, k := th.k - 1) else th.(pc := DecSize))
    else if th.pc == DecSize then
      Effect(Put(l, th.node, l.nodes[th.node].(counted := false)).(size := l.size - 1),
             th.(pc := Release, done := true, answer := Removed))
    else
      Effect(Put(l, th.node, l.nodes[th.node].(lock := Free)), th.(pc := Idle, isMarked := false))
  }

  // ----- growHeight -----

  function GrowStep(maxHeight: nat, l: SkipList, t: ThreadId, th: Thread, c: Choice): Effect
    requires IsNode(l, l.head) && Growing(th.pc)
    requires th.pc in {GrowCreate, GrowLock, GrowFlags, GrowCopy, GrowCas, GrowLoadMark, GrowStoreMark, GrowUnlock} ==> IsNode(l, th.oldHead)
    requires th.pc in {GrowFlags, GrowCopy, GrowCas} ==> IsNode(l, th.node)
    requires th.pc == GrowCopy ==> th.k < |l.nodes[th.oldHead].skip| && th.k < |l.nodes[th.node].skip|
  {
    if th.pc == GrowHeight then
      var height := l.nodes[l.head].height;
      Effect(l, if height < maxHeight && c.flag then th.(pc := GrowLoad, height := height + 1) else th.(pc := Idle))
    else if th.pc == GrowLoad then
      Effect(l, if l.nodes[l.head].height >= th.height then th.(pc := Idle) else th.(pc := GrowCreate, oldHead := l.head))
    else if th.pc == GrowCreate then
      Effect(l.(nodes := l.nodes + [NewNode(th.height, 0, true, t)]), th.(pc := GrowLock, node := |l.nodes|, k := 0))
    else if th.pc == GrowLock then
      if l.nodes[th.oldHead].lock.Free? then
        Effect(Put(l, th.oldHead, l.nodes[th.oldHead].(lock := By(t))), th.(pc := GrowFlags))
      else Effect(l, th)
    else if th.pc == GrowFlags then
      Effect(Put(l, th.node, l.nodes[th.node].(marked := l.nodes[th.oldHead].marked, linked := l.nodes[th.oldHead].linked)),
             th.(pc := if l.nodes[th.oldHead].height > 0 then GrowCopy else GrowCas))
    else if th.pc == GrowCopy then
      var node := l.nodes[th.node];
      Effect(Put(l, th.node, node.(skip := node.skip[th.k := l.nodes[th.oldHead].skip[th.k]])),
             th.(pc := if th.k + 1 < l.nodes[th.oldHead].height then GrowCopy else GrowCas, k := th.k + 1))
    else if th.pc == GrowCas then
      if l.head == th.oldHead then
        Effect(Put(l, th.node, l.nodes[th.node].(top := l.nodes[th.node].height)).(head := th.node), th.(pc := GrowLoadMark))
      else Effect(l, th.(pc := GrowUnlock))
    else if th.pc == GrowLoadMark then Effect(l, th.(pc := GrowStoreMark, flag := l.nodes[th.oldHead].linked))
    else if th.pc == GrowStoreMark then
      Effect(Put(l, th.oldHead, l.nodes[th.oldHead].(marked := true, linked := th.flag)), th.(pc := GrowUnlock))
    else Effect(Put(l, th.oldHead, l.nodes[th.oldHead].(lock := Free)), th.(pc := Idle))
  }

  // ----- find -----

  /** findNodeDownRight and the check of the mark; layer is the height still to go. */
  function FindStep(l: SkipList, th: Thread): Thread
    requires IsNode(l, l.head) && Finding(th.pc)
    requires th.pc in {FindDown, FindRight} ==> IsNode(l, th.pred)
    requires th.pc == FindDown ==> 0 < th.layer <= |l.nodes[th.pred].skip|
    requires th.pc == FindRight ==> th.layer < |l.nodes[th.pred].skip|
    requires th.pc == FindMarked ==> IsNode(l, th.foundNode)
  {
    if th.pc == FindHead then Down(th.(pred := l.head), l.nodes[l.head].height)
    else if th.pc == FindDown then
      var node := l.nodes[th.pred].skip[th.layer - 1];
      if Less(l, th.op.k, node) then Down(th, th.layer - 1) else Right(l, th.(layer := th.layer - 1), node)
    else if th.pc == FindRight then
      var node := l.nodes[th.pred].skip[th.layer];
      if Less(l, th.op.k, node) then Down(th, th.layer) else Right(l, th, node)
    else th.Answers(if l.nodes[th.foundNode].marked then Missing else Present(th.foundNode))
  }

  function Down(th: Thread, height: nat): Thread {
    if height == 0 then th.Answers(Missing) else th.(pc := FindDown, layer := height)
  }

  function Right(l: SkipList, th: Thread, node: nat): Thread {
    if Greater(l, th.op.k, node) then th.(pc := FindRight, pred := node) else th.(pc := FindMarked, foundNode := node)
  }

  // ----- The step system -----

  predicate HasLayer(l: SkipList, n: nat, layer: nat) {
    IsNode(l, n) && layer < |l.nodes[n].skip|
  }

  /** No access of the thread is out of range. */
  predicate InRange(l: SkipList, th: Thread) {
    && IsNode(l, l.head)
    && (th.pc == LoadSkip ==> HasLayer(l, th.pred, th.layer) && th.layer < |th.preds| == |th.succs|)
    && (Locking(th.pc) ==> th.k < |th.preds| == |th.succs| && HasLayer(l, th.preds[th.k], th.k))
    && (th.pc in {CheckFound, WaitLinked, CheckLinked, CheckVictim, FindMarked} ==> IsNode(l, th.foundNode))
    && (th.pc in {SetNew, Link, LoadLinked, StoreLinked, IncSize} ==> IsNode(l, th.node))
    && (th.pc in {SetNew, Link, LoadVictim, Unlink} ==>
          th.k < |th.preds| == |th.succs| && HasLayer(l, th.node, th.k) && HasLayer(l, th.preds[th.k], th.k))
    && (th.pc in {LockVictim, RecheckVictim, LoadMark, StoreMark, DecSize, ReleaseVictim} ==> IsNode(l, th.node))
    && (th.pc in {GrowCreate, GrowLock, GrowFlags, GrowCopy, GrowCas, GrowLoadMark, GrowStoreMark, GrowUnlock} ==> IsNode(l, th.oldHead))
    && (th.pc in {GrowFlags, GrowCopy, GrowCas} ==> IsNode(l, th.node))
    && (th.pc == GrowCopy ==> HasLayer(l, th.oldHead, th.k) && HasLayer(l, th.node, th.k))
    && (th.pc == FindDown ==> 0 < th.layer && HasLayer(l, th.pred, th.layer - 1))
    && (th.pc == FindRight ==> HasLayer(l, th.pred, th.layer))
  }

  function ThreadStep(maxHeight: nat, l: SkipList, t: ThreadId, th: Thread, c: Choice): Effect
    requires InRange(l, th)
  {
    if th.pc == Idle then
      Effect(l, th.(op := c.op, isMarked := false, pc := if c.op.Find? then FindHead else LoadMaxLayer))
    else if Searching(th.pc) then Effect(l, SearchStep(l, th, c))
    else if Locking(th.pc) then LockStep(l, t, th)
    else if th.pc == Release then ReleaseStep(l, th, c)
    else if Adding(th.pc) then AddStep(l, t, th)
    else if Removing(th.pc) then RemoveStep(l, t, th)
    else if Growing(th.pc) then GrowStep(maxHeight, l, t, th, c)
    else Effect(l, FindStep(l, th))
  }

  predicate CanStep(s: State, t: ThreadId) {
    t in s.threads && InRange(s.list, s.threads[t])
  }

  /** The next access of thread t. */
  function Step(maxHeight: nat, s: State, t: ThreadId, c: Choice): State
    requires CanStep(s, t)
  {
    var e := ThreadStep(maxHeight, s.list, t, s.threads[t], c);
    State(e.list, s.threads[t := e.th])
  }

  // ----- The invariant -----

  /** Is n in this layer of the list? */
  predicate In(l: SkipList, n: nat, layer: nat) {
    IsNode(l, n) && if l.nodes[n].isHead then n == l.head && layer < l.nodes[n].height else layer < l.nodes[n].levels
  }

  predicate Before(l: SkipList, n: nat, m: nat)
    requires IsNode(l, n) && IsNode(l, m)
  {
    l.nodes[n].isHead || l.nodes[n].key < l.nodes[m].key
  }

  /** What a pointer of node n in the given layer may ever point to: a node that was linked there, further on. */
  predicate TargetOk(l: SkipList, n: nat, layer: nat, m: nat)
    requires IsNode(l, n)
  {
    m == NIL || (IsNode(l, m) && !l.nodes[m].isHead && layer < l.nodes[m].top && Before(l, n, m))
  }

  predicate NodeOk(maxHeight: nat, l: SkipList, n: nat)
    requires IsNode(l, n)
  {
    var node := l.nodes[n];
    && 1 <= node.height == |node.skip| <= maxHeight
    && node.levels <= node.top <= node.height
    && (node.isHead ==> (node.top == 0 || node.top == node.height) && node.levels == 0)
    && (!node.isHead ==>
          && (!node.marked ==> node.levels == node.top)
          && (node.linked ==> node.top == node.height)
          && (node.marked ==> node.linked))
    && forall layer: nat | layer < node.height :: TargetOk(l, n, layer, node.skip[layer])
  }

  /** In its layer, n points to the next member: nothing of the layer lies between. */
  predicate NextOk(l: SkipList, n: nat, layer: nat, m: nat)
    requires HasLayer(l, n, layer) && In(l, m, layer)
  {
    var next := l.nodes[n].skip[layer];
    !l.nodes[m].isHead && Before(l, n, m) ==> IsNode(l, next) && l.nodes[next].key <= l.nodes[m].key
  }

  ghost predicate LayerOk(l: SkipList, layer: nat) {
    forall n: nat | In(l, n, layer) :: HasLayer(l, n, layer) && LinkOk(l, n, layer)
  }

  ghost predicate LinkOk(l: SkipList, n: nat, layer: nat)
    requires HasLayer(l, n, layer)
  {
    var next := l.nodes[n].skip[layer];
    && (next != NIL ==> In(l, next, layer))
    && forall m: nat | In(l, m, layer) :: NextOk(l, n, layer, m)
  }

  /** Keys are distinct, and no node is higher than the head. */
  ghost predicate MembersOk(l: SkipList) {
    && IsNode(l, l.head)
    && (forall n: nat, m: nat | In(l, n, 0) && In(l, m, 0) && !l.nodes[n].isHead && !l.nodes[m].isHead && l.nodes[n].key == l.nodes[m].key ::
          n == m)
    && (forall n: nat, layer: nat | In(l, n, layer) :: layer < l.nodes[l.head].height)
  }

  ghost predicate HeadOk(s: State) {
    var l := s.list;
    && IsNode(l, l.head)
    && var head := l.nodes[l.head];
    && head.isHead && !head.marked && head.top == head.height
    && forall n: nat | IsNode(l, n) && n != l.head :: OldHeadOk(s, n)
  }

  /** A head that was replaced is marked, or about to be marked by the thread that replaced it and holds its lock. */
  predicate OldHeadOk(s: State, n: nat)
    requires IsNode(s.list, n)
  {
    var node := s.list.nodes[n];
    node.isHead && node.top > 0 && !node.marked ==>
      && node.lock.By? && node.lock.owner in s.threads
      && s.threads[node.lock.owner].pc in {GrowLoadMark, GrowStoreMark} && s.threads[node.lock.owner].oldHead == n
  }

  /** A predecessor for the key in this layer: it was linked there once. */
  predicate PredOk(l: SkipList, key: Key, n: nat, layer: nat) {
    IsNode(l, n) && layer < l.nodes[n].top && (l.nodes[n].isHead || l.nodes[n].key < key)
  }

  predicate SuccOk(l: SkipList, key: Key, n: nat, layer: nat) {
    n == NIL || (IsNode(l, n) && !l.nodes[n].isHead && layer < l.nodes[n].top && key <= l.nodes[n].key)
  }

  /** What a search has found in this layer. */
  predicate Found(l: SkipList, th: Thread, layer: nat)
    requires layer < |th.preds| == |th.succs|
  {
    && PredOk(l, th.op.k, th.preds[layer], layer)
    && SuccOk(l, th.op.k, th.succs[layer], layer)
    && (th.found == -1 && IsNode(l, th.succs[layer]) ==> th.op.k < l.nodes[th.succs[layer]].key)
  }

  ghost predicate FoundOk(l: SkipList, th: Thread, from: nat)
    requires th.maxLayer < |th.preds| == |th.succs|
  {
    && (forall layer: nat | from <= layer <= th.maxLayer :: Found(l, th, layer))
    && -1 <= th.found <= th.maxLayer
    && (th.found >= 0 ==>
          && from <= th.found && IsNode(l, th.foundNode) && !l.nodes[th.foundNode].isHead
          && l.nodes[th.foundNode].key == th.op.k && th.found < l.nodes[th.foundNode].top)
    && (th.found == -1 <==> th.foundNode == NIL)
  }

  /** A layer whose predecessor is locked and not marked, with the given successor. */
  predicate Valid(l: SkipList, t: ThreadId, n: nat, layer: nat, next: nat) {
    && HasLayer(l, n, layer) && layer < l.nodes[n].top
    && l.nodes[n].lock == By(t) && !l.nodes[n].marked && l.nodes[n].skip[layer] == next
  }

  ghost predicate ValidFrom(l: SkipList, t: ThreadId, th: Thread, from: nat, to: nat)
    requires to <= |th.preds| == |th.succs|
  {
    forall layer: nat | from <= layer < to :: Valid(l, t, th.preds[layer], layer, th.succs[layer])
  }

  /** The guards: locks of predecessors. */
  ghost predicate HeldOk(l: SkipList, t: ThreadId, th: Thread) {
    forall n | n in th.held :: IsNode(l, n) && l.nodes[n].lock == By(t) && (l.nodes[n].isHead || l.nodes[n].key < th.op.k)
  }

  /** The victim, locked and marked by its only remover, with this many layers left. */
  predicate VictimOk(l: SkipList, t: ThreadId, th: Thread, levels: nat) {
    && IsNode(l, th.node)
    && var node := l.nodes[th.node];
    && !node.isHead && node.key == th.op.k && node.height == th.height && node.linked && node.marked
    && node.lock == By(t) && node.levels == levels
  }

  /** The new node, as far as it is linked. */
  predicate NewOk(l: SkipList, t: ThreadId, th: Thread, levels: nat) {
    && IsNode(l, th.node)
    && var node := l.nodes[th.node];
    && !node.isHead && node.key == th.op.k && node.height == th.height && !node.linked && !node.marked
    && node.creator == t && node.levels == levels && node.top == levels
  }

  /** The lowest link to the new node, while its guard is held. */
  predicate LinkedBelow(l: SkipList, t: ThreadId, th: Thread)
    requires 0 < |th.preds|
  {
    Valid(l, t, th.preds[0], 0, th.node) && IsNode(l, th.node) && !l.nodes[th.node].isHead && th.preds[0] in th.held
  }

  /** What a searching thread knows. */
  ghost predicate SearcherOk(l: SkipList, t: ThreadId, th: Thread)
    requires th.maxLayer < |th.preds| == |th.succs|
  {
    && !th.op.Find?
    && (th.isMarked ==> VictimOk(l, t, th, th.height))
    && (th.pc != LoadMaxLayer && th.isMarked ==> th.height <= th.maxLayer + 1)
    && (th.pc == LoadHead ==> IsNode(l, l.head) && th.maxLayer < l.nodes[l.head].height)
    && (th.pc == LoadSkip ==>
          && th.layer <= th.maxLayer && PredOk(l, th.op.k, th.pred, th.layer) && FoundOk(l, th, th.layer + 1))
  }

  /** What a thread knows while it locks and validates the predecessors. */
  ghost predicate LockerOk(l: SkipList, t: ThreadId, th: Thread)
    requires th.maxLayer < |th.preds| == |th.succs|
  {
    && th.k < th.height <= th.maxLayer + 1 && FoundOk(l, th, 0) && ValidFrom(l, t, th, 0, th.k) && HeldOk(l, t, th)
    && (th.k > 0 ==> th.preds[th.k - 1] in th.held && th.preds[0] in th.held)
    && (th.op.Add? ==> th.found == -1)
    && (!th.op.Add? ==> th.op.Remove? && th.isMarked && VictimOk(l, t, th, th.height))
    && (th.pc != LockPred ==> th.preds[th.k] in th.held)
    && (th.pc == CheckSkip ==> IsNode(l, th.preds[th.k]) && !l.nodes[th.preds[th.k]].marked)
    && (th.pc == CheckSucc ==> Valid(l, t, th.preds[th.k], th.k, th.succs[th.k]))
  }

  /** What a thread knows while it gives its guards up. */
  ghost predicate ReleaserOk(l: SkipList, t: ThreadId, th: Thread) {
    && HeldOk(l, t, th) && !th.op.Find?
    && (th.op.Remove? ==>
          th.isMarked && VictimOk(l, t, th, if th.done then 0 else th.height) && th.height <= th.maxLayer + 1)
  }

  ghost predicate AdderOk(l: SkipList, t: ThreadId, th: Thread)
    requires th.maxLayer < |th.preds| == |th.succs|
  {
    && th.op.Add?
    && (th.pc in {CheckFound, WaitLinked} ==>
          && IsNode(l, th.foundNode) && !l.nodes[th.foundNode].isHead && l.nodes[th.foundNode].key == th.op.k
          && 0 < l.nodes[th.foundNode].top)
    && (th.pc in {Create, SetNew, Link} ==>
          && th.k < th.height <= th.maxLayer + 1 && FoundOk(l, th, 0) && th.found == -1 && HeldOk(l, t, th)
          && ValidFrom(l, t, th, th.k, th.height) && th.preds[0] in th.held)
    && (th.pc == Create ==> th.k == 0)
    && (th.pc in {SetNew, Link} ==> NewOk(l, t, th, th.k) && (th.k > 0 ==> LinkedBelow(l, t, th)))
    && (th.pc == Link ==> l.nodes[th.node].height <= |l.nodes[th.node].skip| && l.nodes[th.node].skip[th.k] == th.succs[th.k])
    && (th.pc in {LoadLinked, StoreLinked} ==> NewOk(l, t, th, th.height) && 0 < th.height)
    && (th.pc in {LoadLinked, StoreLinked, IncSize} ==> LinkedBelow(l, t, th) && HeldOk(l, t, th))
    && (th.pc == StoreLinked ==> !th.flag)
    && (th.pc == IncSize ==> l.nodes[th.node].creator == t && l.nodes[th.node].key == th.op.k)
  }

  ghost predicate RemoverOk(l: SkipList, t: ThreadId, th: Thread)
    requires th.maxLayer < |th.preds| == |th.succs|
  {
    && th.op.Remove?
    && (th.pc in {CheckLinked, CheckVictim, LockVictim, RecheckVictim, LoadMark, StoreMark} ==>
          FoundOk(l, th, 0) && th.found >= 0 && !th.isMarked)
    && (th.pc == CheckVictim ==> l.nodes[th.foundNode].linked && l.nodes[th.foundNode].height == th.found + 1)
    && (th.pc in {LockVictim, RecheckVictim, LoadMark, StoreMark} ==>
          && th.node == th.foundNode && th.height == th.found + 1
          && l.nodes[th.node].height == th.height && l.nodes[th.node].linked)
    && (th.pc in {RecheckVictim, LoadMark, StoreMark} ==> l.nodes[th.node].lock == By(t))
    && (th.pc in {LoadMark, StoreMark} ==> !l.nodes[th.node].marked)
    && (th.pc == StoreMark ==> th.flag)
    && (th.pc in {LoadVictim, Unlink} ==>
          && th.k < th.height <= th.maxLayer + 1 && FoundOk(l, th, 0) && ValidFrom(l, t, th, 0, th.k + 1) && th.isMarked
          && HeldOk(l, t, th) && VictimOk(l, t, th, th.k + 1))
    && (th.pc == Unlink ==> |l.nodes[th.node].skip| == l.nodes[th.node].height && l.nodes[th.node].skip[th.k] == th.tmp)
    && (th.pc == DecSize ==> HeldOk(l, t, th) && VictimOk(l, t, th, 0) && th.isMarked && th.height <= th.maxLayer + 1)
    && (th.pc == ReleaseVictim ==> IsNode(l, th.node) && l.nodes[th.node].lock == By(t))
  }

  /** A head that was published, and is lower than the one being made. */
  predicate OldOk(l: SkipList, th: Thread) {
    && IsNode(l, th.oldHead)
    && l.nodes[th.oldHead].isHead && 0 < l.nodes[th.oldHead].top && l.nodes[th.oldHead].height < th.height
  }

  /** The new head: private, with the pointers of the first k layers copied. */
  ghost predicate NewHeadOk(l: SkipList, t: ThreadId, th: Thread) {
    && IsNode(l, th.node) && OldOk(l, th) && l.nodes[th.oldHead].height <= |l.nodes[th.oldHead].skip|
    && var node, from := l.nodes[th.node], l.nodes[th.oldHead];
    && node.isHead && node.creator == t && node.top == 0 && node.height == th.height == |node.skip|
    && th.k <= from.height
    && forall i: nat | i < node.height :: node.skip[i] == if i < th.k then from.skip[i] else NIL
  }

  ghost predicate GrowerOk(maxHeight: nat, l: SkipList, t: ThreadId, th: Thread) {
    && th.op.Add?
    && (th.pc in {GrowLoad, GrowCreate} ==> th.height <= maxHeight)
    && (!(th.pc in {GrowHeight, GrowLoad}) ==> OldOk(l, th))
    && (th.pc == GrowLock ==> th.k == 0)
    && (th.pc in {GrowLock, GrowFlags, GrowCopy, GrowCas} ==>
          && IsNode(l, th.node) && l.nodes[th.node].isHead && l.nodes[th.node].creator == t && l.nodes[th.node].top == 0
          && l.nodes[th.node].height == th.height && th.k <= l.nodes[th.oldHead].height)
    && (th.pc == GrowLock ==> forall i: nat | i < |l.nodes[th.node].skip| :: l.nodes[th.node].skip[i] == NIL)
    && (th.pc in {GrowFlags, GrowCopy, GrowCas} ==> NewHeadOk(l, t, th))
    && (th.pc == GrowCopy ==> th.k < l.nodes[th.oldHead].height)
    && (th.pc == GrowFlags ==> th.k == 0)
    && (th.pc == GrowCas ==> th.k == l.nodes[th.oldHead].height && l.nodes[th.node].marked == l.nodes[th.oldHead].marked)
    && (th.pc == GrowCopy ==> l.nodes[th.node].marked == l.nodes[th.oldHead].marked)
    && (th.pc in {GrowFlags, GrowCopy, GrowCas, GrowLoadMark, GrowStoreMark, GrowUnlock} ==> l.nodes[th.oldHead].lock == By(t))
    && (th.pc in {GrowLoadMark, GrowStoreMark} ==> l.head != th.oldHead)
  }

  predicate FinderOk(l: SkipList, th: Thread) {
    && th.op.Find?
    && (th.pc == FindDown ==> 0 < th.layer && PredOk(l, th.op.k, th.pred, th.layer - 1))
    && (th.pc == FindRight ==> PredOk(l, th.op.k, th.pred, th.layer))
    && (th.pc == FindMarked ==>
          && IsNode(l, th.foundNode) && !l.nodes[th.foundNode].isHead && l.nodes[th.foundNode].key == th.op.k
          && 0 < l.nodes[th.foundNode].top)
  }

  /** What a thread knows at each of its accesses. */
  ghost predicate ThreadOk(maxHeight: nat, l: SkipList, t: ThreadId, th: Thread) {
    && Fits(maxHeight, th)
    && (Searching(th.pc) ==> SearcherOk(l, t, th))
    && (Locking(th.pc) ==> LockerOk(l, t, th))
    && (th.pc == Release ==> ReleaserOk(l, t, th))
    && (Adding(th.pc) ==> AdderOk(l, t, th))
    && (Removing(th.pc) ==> RemoverOk(l, t, th))
    && (Growing(th.pc) ==> GrowerOk(maxHeight, l, t, th))
    && (Finding(th.pc) ==> FinderOk(l, th))
  }

  predicate Fits(maxHeight: nat, th: Thread) {
    th.maxLayer < maxHeight == |th.preds| == |th.succs| && (th.isMarked && th.pc != Idle ==> th.op.Remove?)
  }

  ghost predicate Inv(maxHeight: nat, s: State) {
    && HeadOk(s) && MembersOk(s.list)
    && (forall n: nat | IsNode(s.list, n) :: NodeOk(maxHeight, s.list, n))
    && (forall layer: nat :: LayerOk(s.list, layer))
    && (forall t | t in s.threads :: ThreadOk(maxHeight, s.list, t, s.threads[t]))
  }

  // ----- What every access keeps -----

  /** What an access of thread t may do to a node: locks of others bind it, a private node is its maker's. */
  predicate NodeMoves(t: ThreadId, was: Node, now: Node) {
    && now.height == was.height && now.key == was.key && now.isHead == was.isHead && now.creator == was.creator
    && |now.skip| == |was.skip| && was.top <= now.top
    && (was.linked ==> now.linked || was.isHead) && (was.marked ==> now.marked || (was.isHead && was.top == 0))
    && (was.lock.By? && was.lock.owner != t ==>
          && now.lock == was.lock && (now.marked == was.marked || (was.isHead && was.top == 0))
          && forall j: nat | j < was.top && j < |was.skip| :: now.skip[j] == was.skip[j])
    && (was.creator != t && !was.linked && !was.isHead ==>
          && now.top == was.top && now.levels == was.levels && !now.linked && now.marked == was.marked
          && forall j: nat | was.top <= j < |was.skip| :: now.skip[j] == was.skip[j])
    && (was.creator != t && was.isHead && was.top == 0 ==> now == was.(lock := now.lock))
    && (was.lock.By? && was.lock.owner != t && was.marked && !was.isHead ==> now.levels == was.levels)
  }

  ghost predicate Evolves(t: ThreadId, was: SkipList, now: SkipList) {
    && |was.nodes| <= |now.nodes|
    && (forall n: nat | IsNode(was, n) :: NodeMoves(t, was.nodes[n], now.nodes[n]))
    && (now.head != was.head ==>
          && IsNode(was, was.head) && was.nodes[was.head].lock == By(t)
          && IsNode(was, now.head) && was.nodes[now.head].top == 0
          && was.nodes[was.head].height < was.nodes[now.head].height)
  }

  lemma OneMoves(t: ThreadId, was: SkipList, n: nat, node: Node, size: int)
    requires IsNode(was, n) && NodeMoves(t, was.nodes[n], node)
    ensures Evolves(t, was, Put(was, n, node).(size := size))
  {
  }

  lemma TwoMove(t: ThreadId, was: SkipList, n: nat, node: Node, m: nat, other: Node)
    requires IsNode(was, n) && IsNode(was, m) && n != m && NodeMoves(t, was.nodes[n], node) && NodeMoves(t, was.nodes[m], other)
    ensures Evolves(t, was, Put(Put(was, n, node), m, other))
  {
  }

  lemma NoneMoves(t: ThreadId, was: SkipList)
    ensures Evolves(t, was, was)
  {
  }

  lemma InvParts(maxHeight: nat, s: State, t: ThreadId)
    requires Inv(maxHeight, s)
    ensures HeadOk(s) && MembersOk(s.list)
    ensures t in s.threads ==> ThreadOk(maxHeight, s.list, t, s.threads[t])
  {
  }

  lemma NodeParts(maxHeight: nat, s: State, n: nat)
    requires Inv(maxHeight, s) && IsNode(s.list, n)
    ensures NodeOk(maxHeight, s.list, n)
  {
  }

  lemma LockEvolves(maxHeight: nat, s: State, t: ThreadId, c: Choice)
    requires Inv(maxHeight, s) && CanStep(s, t) && (Locking(s.threads[t].pc) || s.threads[t].pc == Release)
    ensures Evolves(t, s.list, Step(maxHeight, s, t, c).list)
  {
    hide Inv, LayerOk, FoundOk, Found, ValidFrom, MembersOk, GrowerOk, AdderOk, RemoverOk, HeadOk, NodeOk, Evolves,
      SearchStep, AddStep, RemoveStep, GrowStep, FindStep;
    var th, l := s.threads[t], s.list;
    InvParts(maxHeight, s, t);
    NoneMoves(t, l);
    if th.pc == LockPred {
      OneMoves(t, l, th.preds[th.k], l.nodes[th.preds[th.k]].(lock := if l.nodes[th.preds[th.k]].lock.Free? then By(t) else l.nodes[th.preds[th.k]].lock), l.size);
    } else if th.pc == Release && c.node in th.held {
      OneMoves(t, l, c.node, l.nodes[c.node].(lock := Free), l.size);
    }
  }

  lemma LinkEvolves(l: SkipList, t: ThreadId, th: Thread)
    requires InRange(l, th) && th.pc == Link && th.maxLayer < |th.preds| && AdderOk(l, t, th)
    ensures Evolves(t, l, AddStep(l, t, th).list)
  {
    hide FoundOk, HeldOk, Evolves;
    var l' := AddStep(l, t, th).list;
    assert Valid(l, t, th.preds[th.k], th.k, th.succs[th.k]);
    TwoMove(t, l, th.preds[th.k], l'.nodes[th.preds[th.k]], th.node, l'.nodes[th.node]);
  }

  lemma AddEvolves(l: SkipList, t: ThreadId, th: Thread)
    requires InRange(l, th) && Adding(th.pc) && th.pc != Link
    requires th.maxLayer < |th.preds| == |th.succs| && AdderOk(l, t, th)
    ensures Evolves(t, l, AddStep(l, t, th).list)
  {
    hide FoundOk, HeldOk, Evolves, ValidFrom;
    var l' := AddStep(l, t, th).list;
    NoneMoves(t, l);
    if th.pc in {SetNew, StoreLinked, IncSize} {
      OneMoves(t, l, th.node, l'.nodes[th.node], l'.size);
    } else if th.pc == Create {
      NewMoves(t, l, NewNode(th.height, th.op.k, false, t));
    }
  }

  lemma NewMoves(t: ThreadId, was: SkipList, node: Node)
    ensures Evolves(t, was, was.(nodes := was.nodes + [node]))
  {
  }

  lemma UnlinkEvolves(l: SkipList, t: ThreadId, th: Thread)
    requires InRange(l, th) && th.pc == Unlink && th.maxLayer < |th.preds| && RemoverOk(l, t, th)
    ensures Evolves(t, l, RemoveStep(l, t, th).list)
  {
    hide HeldOk, Evolves;
    var l' := RemoveStep(l, t, th).list;
    assert Valid(l, t, th.preds[th.k], th.k, th.succs[th.k]) && Found(l, th, th.k);
    TwoMove(t, l, th.preds[th.k], l'.nodes[th.preds[th.k]], th.node, l'.nodes[th.node]);
  }

  lemma RemoveEvolves(l: SkipList, t: ThreadId, th: Thread)
    requires InRange(l, th) && Removing(th.pc) && th.pc != Unlink
    requires th.maxLayer < |th.preds| == |th.succs| && RemoverOk(l, t, th)
    ensures Evolves(t, l, RemoveStep(l, t, th).list)
  {
    hide Found, HeldOk, Evolves, ValidFrom;
    var l' := RemoveStep(l, t, th).list;
    NoneMoves(t, l);
    if th.pc in {LockVictim, StoreMark, DecSize, ReleaseVictim} && l' != l {
      OneMoves(t, l, th.node, l'.nodes[th.node], l'.size);
    }
  }

  lemma GrowEvolves(maxHeight: nat, l: SkipList, t: ThreadId, th: Thread, c: Choice)
    requires InRange(l, th) && Growing(th.pc) && GrowerOk(maxHeight, l, t, th)
    ensures Evolves(t, l, GrowStep(maxHeight, l, t, th, c).list)
  {
    hide Evolves;
    var l' := GrowStep(maxHeight, l, t, th, c).list;
    NoneMoves(t, l);
    if th.pc == GrowCreate {
      NewMoves(t, l, NewNode(th.height, 0, true, t));
    } else if th.pc in {GrowFlags, GrowCopy} {
      OneMoves(t, l, th.node, l'.nodes[th.node], l.size);
    } else if th.pc == GrowCas && l.head == th.oldHead {
      OneMoves(t, l, th.node, l'.nodes[th.node], l.size);
      HeadMoves(t, l, Put(l, th.node, l'.nodes[th.node]), th.node);
    } else if th.pc in {GrowLock, GrowStoreMark, GrowUnlock} && l' != l {
      OneMoves(t, l, th.oldHead, l'.nodes[th.oldHead], l.size);
    }
  }

  lemma HeadMoves(t: ThreadId, was: SkipList, now: SkipList, head: nat)
    requires Evolves(t, was, now) && IsNode(was, was.head) && was.nodes[was.head].lock == By(t)
    requires IsNode(was, head) && was.nodes[head].top == 0 && was.nodes[was.head].height < was.nodes[head].height
    ensures Evolves(t, was, now.(head := head))
  {
  }

  lemma StepEvolves(maxHeight: nat, s: State, t: ThreadId, c: Choice)
    requires Inv(maxHeight, s) && CanStep(s, t)
    ensures Evolves(t, s.list, Step(maxHeight, s, t, c).list)
  {
    hide Inv, LockStep, ReleaseStep, AddStep, RemoveStep, GrowStep, SearchStep, FindStep, InRange, Evolves,
      AdderOk, RemoverOk, GrowerOk, SearcherOk, LockerOk, ReleaserOk;
    var th := s.threads[t];
    InvParts(maxHeight, s, t);
    NoneMoves(t, s.list);
    if Locking(th.pc) || th.pc == Release {
      LockEvolves(maxHeight, s, t, c);
    } else if Adding(th.pc) {
      if th.pc == Link {
        LinkEvolves(s.list, t, th);
      } else {
        AddEvolves(s.list, t, th);
      }
    } else if Removing(th.pc) {
      if th.pc == Unlink {
        UnlinkEvolves(s.list, t, th);
      } else {
        RemoveEvolves(s.list, t, th);
      }
    } else if Growing(th.pc) {
      GrowEvolves(maxHeight, s.list, t, th, c);
    }
  }

  // ----- What a thread knows, whatever the others do -----

  lemma FoundStays(t: ThreadId, l: SkipList, l': SkipList, th: Thread, from: nat)
    requires Evolves(t, l, l') && th.maxLayer < |th.preds| == |th.succs| && FoundOk(l, th, from)
    ensures FoundOk(l', th, from)
  {
    forall layer: nat | from <= layer <= th.maxLayer ensures Found(l', th, layer) {
      assert Found(l, th, layer);
    }
  }

  lemma ValidStays(t: ThreadId, l: SkipList, l': SkipList, u: ThreadId, n: nat, layer: nat, next: nat)
    requires Evolves(t, l, l') && u != t && Valid(l, u, n, layer, next)
    ensures Valid(l', u, n, layer, next)
  {
  }

  lemma ValidFromStays(t: ThreadId, l: SkipList, l': SkipList, u: ThreadId, th: Thread, from: nat, to: nat)
    requires Evolves(t, l, l') && u != t && to <= |th.preds| == |th.succs| && ValidFrom(l, u, th, from, to)
    ensures ValidFrom(l', u, th, from, to)
  {
    hide Evolves;
    forall layer: nat | from <= layer < to ensures Valid(l', u, th.preds[layer], layer, th.succs[layer]) {
      ValidStays(t, l, l', u, th.preds[layer], layer, th.succs[layer]);
    }
  }

  lemma HeldStays(t: ThreadId, l: SkipList, l': SkipList, u: ThreadId, th: Thread)
    requires Evolves(t, l, l') && u != t && HeldOk(l, u, th)
    ensures HeldOk(l', u, th)
  {
  }

  lemma SearcherStays(t: ThreadId, l: SkipList, l': SkipList, u: ThreadId, th: Thread)
    requires Evolves(t, l, l') && u != t && th.maxLayer < |th.preds| == |th.succs| && SearcherOk(l, u, th)
    ensures SearcherOk(l', u, th)
  {
    hide FoundOk;
    if th.pc == LoadSkip {
      FoundStays(t, l, l', th, th.layer + 1);
    }
  }

  lemma LockerStays(t: ThreadId, l: SkipList, l': SkipList, u: ThreadId, th: Thread)
    requires Evolves(t, l, l') && u != t && th.maxLayer < |th.preds| == |th.succs| && LockerOk(l, u, th) && Locking(th.pc)
    ensures LockerOk(l', u, th)
  {
    hide FoundOk, ValidFrom, HeldOk;
    FoundStays(t, l, l', th, 0);
    ValidFromStays(t, l, l', u, th, 0, th.k);
    HeldStays(t, l, l', u, th);
    if th.pc == CheckSkip {
      PredIsHeld(l, u, th);
    }
  }

  lemma ReleaserStays(t: ThreadId, l: SkipList, l': SkipList, u: ThreadId, th: Thread)
    requires Evolves(t, l, l') && u != t && ReleaserOk(l, u, th)
    ensures ReleaserOk(l', u, th)
  {
    hide HeldOk;
    HeldStays(t, l, l', u, th);
  }

  lemma PredIsHeld(l: SkipList, u: ThreadId, th: Thread)
    requires th.maxLayer < |th.preds| == |th.succs| && LockerOk(l, u, th) && Locking(th.pc) && th.preds[th.k] in th.held
    ensures IsNode(l, th.preds[th.k]) && l.nodes[th.preds[th.k]].lock == By(u) && l.nodes[th.preds[th.k]].top > 0
  {
    hide ValidFrom;
    assert Found(l, th, th.k);
  }

  lemma AdderStays(t: ThreadId, l: SkipList, l': SkipList, u: ThreadId, th: Thread)
    requires Evolves(t, l, l') && u != t && th.maxLayer < |th.preds| == |th.succs| && AdderOk(l, u, th) && Adding(th.pc)
    ensures AdderOk(l', u, th)
  {
    hide FoundOk, ValidFrom, HeldOk;
    if th.pc in {Create, SetNew, Link} {
      FoundStays(t, l, l', th, 0);
      ValidFromStays(t, l, l', u, th, th.k, th.height);
    }
    if th.pc in {Create, SetNew, Link, LoadLinked, StoreLinked, IncSize} {
      HeldStays(t, l, l', u, th);
    }
  }

  lemma RemoverStays(t: ThreadId, l: SkipList, l': SkipList, u: ThreadId, th: Thread)
    requires Evolves(t, l, l') && u != t && th.maxLayer < |th.preds| == |th.succs| && RemoverOk(l, u, th) && Removing(th.pc)
    requires th.pc == Unlink ==> l.nodes[th.node].top == l.nodes[th.node].height
    ensures RemoverOk(l', u, th)
  {
    if th.pc in {LoadVictim, Unlink} {
      UnlinkerStays(t, l, l', u, th);
    } else if th.pc in {DecSize, ReleaseVictim} {
      hide FoundOk, ValidFrom, HeldOk;
      if th.pc == DecSize {
        HeldStays(t, l, l', u, th);
      }
    } else {
      ChooserStays(t, l, l', u, th);
    }
  }

  lemma ChooserStays(t: ThreadId, l: SkipList, l': SkipList, u: ThreadId, th: Thread)
    requires Evolves(t, l, l') && u != t && th.maxLayer < |th.preds| == |th.succs| && RemoverOk(l, u, th)
    requires th.pc in {CheckLinked, CheckVictim, LockVictim, RecheckVictim, LoadMark, StoreMark}
    ensures RemoverOk(l', u, th)
  {
    hide ValidFrom, HeldOk, Found;
    FoundStays(t, l, l', th, 0);
  }

  lemma VictimStays(t: ThreadId, l: SkipList, l': SkipList, u: ThreadId, th: Thread, levels: nat)
    requires Evolves(t, l, l') && u != t && VictimOk(l, u, th, levels)
    ensures VictimOk(l', u, th, levels)
    ensures l'.nodes[th.node].height == l.nodes[th.node].height && |l'.nodes[th.node].skip| == |l.nodes[th.node].skip|
    ensures forall i: nat | i < l.nodes[th.node].top && i < |l.nodes[th.node].skip| :: l'.nodes[th.node].skip[i] == l.nodes[th.node].skip[i]
  {
  }

  lemma UnlinkerStays(t: ThreadId, l: SkipList, l': SkipList, u: ThreadId, th: Thread)
    requires Evolves(t, l, l') && u != t && th.maxLayer < |th.preds| == |th.succs| && RemoverOk(l, u, th)
    requires th.pc in {LoadVictim, Unlink}
    requires th.pc == Unlink ==> l.nodes[th.node].top == l.nodes[th.node].height
    ensures RemoverOk(l', u, th)
  {
    hide ValidFrom, HeldOk, FoundOk, Evolves;
    FoundStays(t, l, l', th, 0);
    ValidFromStays(t, l, l', u, th, 0, th.k + 1);
    HeldStays(t, l, l', u, th);
    VictimStays(t, l, l', u, th, th.k + 1);
  }

  lemma GrowerStays(maxHeight: nat, t: ThreadId, l: SkipList, l': SkipList, u: ThreadId, th: Thread)
    requires Evolves(t, l, l') && u != t && GrowerOk(maxHeight, l, u, th) && Growing(th.pc)
    requires OldOk(l, th) ==> l.nodes[th.oldHead].top == l.nodes[th.oldHead].height
    ensures GrowerOk(maxHeight, l', u, th)
  {
  }

  lemma FinderStays(t: ThreadId, l: SkipList, l': SkipList, th: Thread)
    requires Evolves(t, l, l') && FinderOk(l, th)
    ensures FinderOk(l', th)
  {
  }

  // ----- The layers -----

  /** A predecessor that is locked and not marked is in its layer now. */
  lemma ValidIsIn(maxHeight: nat, s: State, t: ThreadId, n: nat, layer: nat, next: nat)
    requires Inv(maxHeight, s) && t in s.threads && !(s.threads[t].pc in {GrowLoadMark, GrowStoreMark})
    requires Valid(s.list, t, n, layer, next)
    ensures In(s.list, n, layer) && LinkOk(s.list, n, layer) && LayerOk(s.list, layer)
  {
    hide MembersOk, ThreadOk, LinkOk;
    NodeParts(maxHeight, s, n);
    assert OldHeadOk(s, n) || n == s.list.head;
    assert LayerOk(s.list, layer);
  }

  /** l' is l with the pointer of p in one layer changed to x, and x in that layer. */
  predicate Inserted(l: SkipList, l': SkipList, p: nat, x: nat, layer: nat) {
    && In(l, p, layer) && HasLayer(l, p, layer) && HasLayer(l, x, layer) && p != x && !l.nodes[x].isHead && l.nodes[x].levels == layer
    && |l.nodes| == |l'.nodes| && l'.head == l.head
    && (forall n: nat | n < |l.nodes| && n != p && n != x :: l'.nodes[n] == l.nodes[n])
    && l'.nodes[p] == l.nodes[p].(skip := l.nodes[p].skip[layer := x])
    && l'.nodes[x] == l.nodes[x].(levels := layer + 1, top := layer + 1)
  }

  lemma InsertedMembers(l: SkipList, l': SkipList, p: nat, x: nat, layer: nat, n: nat, i: nat)
    requires Inserted(l, l', p, x, layer)
    ensures In(l', n, i) <==> In(l, n, i) || (n == x && i == layer)
    ensures IsNode(l', n) == IsNode(l, n) && (In(l', n, i) ==> IsNode(l, n))
    ensures IsNode(l, n) ==> l'.nodes[n].key == l.nodes[n].key && l'.nodes[n].isHead == l.nodes[n].isHead && |l'.nodes[n].skip| == |l.nodes[n].skip|
    ensures IsNode(l, n) && i < |l.nodes[n].skip| ==> l'.nodes[n].skip[i] == if n == p && i == layer then x else l.nodes[n].skip[i]
  {
  }

  lemma InLowest(l: SkipList, n: nat, layer: nat)
    requires In(l, n, layer)
    ensures In(l, n, 0) && IsNode(l, n) && (l.nodes[n].isHead ==> n == l.head)
  {
  }

  /** Two members of a layer are ordered by their keys. */
  lemma MembersOrdered(l: SkipList, layer: nat, n: nat, m: nat)
    requires MembersOk(l) && In(l, n, layer) && In(l, m, layer) && n != m
    ensures IsNode(l, n) && IsNode(l, m) && !(l.nodes[n].isHead && l.nodes[m].isHead)
    ensures !l.nodes[n].isHead && !l.nodes[m].isHead ==> l.nodes[n].key != l.nodes[m].key
  {
    hide In;
    InLowest(l, n, layer);
    InLowest(l, m, layer);
  }

  lemma NextIs(l: SkipList, layer: nat, n: nat, m: nat)
    requires LayerOk(l, layer) && In(l, n, layer) && In(l, m, layer)
    ensures HasLayer(l, n, layer) && NextOk(l, n, layer, m) && (l.nodes[n].skip[layer] != NIL ==> In(l, l.nodes[n].skip[layer], layer))
  {
    hide In, NextOk;
    assert LinkOk(l, n, layer);
  }

  /** The layer in which a node is put between two neighbours. */
  lemma InsertKeepsOrder(l: SkipList, l': SkipList, p: nat, x: nat, layer: nat, n: nat, m: nat)
    requires Inserted(l, l', p, x, layer) && LayerOk(l, layer) && MembersOk(l) && In(l', n, layer) && In(l', m, layer)
    requires Before(l, p, x) && l.nodes[x].skip[layer] == l.nodes[p].skip[layer]
    requires var next := l.nodes[p].skip[layer]; IsNode(l, next) ==> l.nodes[x].key < l.nodes[next].key
    ensures HasLayer(l', n, layer) && NextOk(l', n, layer, m)
  {
    hide In, LayerOk, MembersOk, Inserted;
    InsertedMembers(l, l', p, x, layer, n, layer);
    InsertedMembers(l, l', p, x, layer, m, layer);
    InsertedMembers(l, l', p, x, layer, p, layer);
    InsertedMembers(l, l', p, x, layer, x, layer);
    InsertedParts(l, l', p, x, layer);
    if n != x {
      NextIs(l, layer, n, n);
    }
    var next := l.nodes[n].skip[layer];
    InsertedMembers(l, l', p, x, layer, next, layer);
    if m != x {
      if n == x {
        NextIs(l, layer, p, m);
      } else {
        NextIs(l, layer, n, m);
      }
    } else if n != x && n != p {
      MembersOrdered(l, layer, n, p);
      NextIs(l, layer, n, p);
      NextIs(l, layer, p, n);
    }
  }

  lemma InsertedParts(l: SkipList, l': SkipList, p: nat, x: nat, layer: nat)
    requires Inserted(l, l', p, x, layer)
    ensures In(l, p, layer) && HasLayer(l, p, layer) && HasLayer(l, x, layer) && p != x && !l.nodes[x].isHead && !In(l, x, layer)
  {
  }

  /** A node put between two neighbours keeps its layer in order, and the others as they were. */
  lemma InsertKeepsLayer(l: SkipList, l': SkipList, p: nat, x: nat, layer: nat, i: nat)
    requires Inserted(l, l', p, x, layer) && LayerOk(l, i) && LayerOk(l, layer) && MembersOk(l)
    requires Before(l, p, x) && l.nodes[x].skip[layer] == l.nodes[p].skip[layer]
    requires var next := l.nodes[p].skip[layer]; IsNode(l, next) ==> l.nodes[x].key < l.nodes[next].key
    ensures LayerOk(l', i)
  {
    hide In, LayerOk, MembersOk, Inserted, NextOk;
    InsertedParts(l, l', p, x, layer);
    forall n: nat | In(l', n, i) ensures HasLayer(l', n, i) && LinkOk(l', n, i) {
      InsertedMembers(l, l', p, x, layer, n, i);
      NextIs(l, layer, p, p);
      assert HasLayer(l', n, i) by { if n != x || i != layer { NextIs(l, i, n, n); } }
      var next := l'.nodes[n].skip[i];
      InsertedMembers(l, l', p, x, layer, next, i);
      assert next != NIL ==> In(l', next, i) by { if n != x || i != layer { NextIs(l, i, n, n); } }
      forall m: nat | In(l', m, i) ensures NextOk(l', n, i, m) {
        if i == layer {
          InsertKeepsOrder(l, l', p, x, layer, n, m);
        } else {
          InsertElsewhere(l, l', p, x, layer, i, n, m);
        }
      }
    }
    assert LayerOk(l', i) by { LayerIsOk(l', i); }
  }

  lemma LayerIsOk(l: SkipList, layer: nat)
    requires forall n: nat | In(l, n, layer) :: HasLayer(l, n, layer) && LinkOk(l, n, layer)
    ensures LayerOk(l, layer)
  {
  }

  lemma InsertElsewhere(l: SkipList, l': SkipList, p: nat, x: nat, layer: nat, i: nat, n: nat, m: nat)
    requires Inserted(l, l', p, x, layer) && LayerOk(l, i) && In(l', n, i) && In(l', m, i) && i != layer
    ensures HasLayer(l', n, i) && NextOk(l', n, i, m)
  {
    hide In, LayerOk, Inserted;
    InsertedMembers(l, l', p, x, layer, n, i);
    InsertedMembers(l, l', p, x, layer, m, i);
    NextIs(l, i, n, m);
    InsertedMembers(l, l', p, x, layer, l.nodes[n].skip[i], i);
  }

  /** l' is l with the pointer of p in one layer taken past its successor d, and d out of that layer. */
  predicate Deleted(l: SkipList, l': SkipList, p: nat, d: nat, layer: nat) {
    && In(l, p, layer) && HasLayer(l, p, layer) && HasLayer(l, d, layer) && p != d && !l.nodes[d].isHead
    && l.nodes[d].levels == layer + 1 && l.nodes[p].skip[layer] == d
    && |l.nodes| == |l'.nodes| && l'.head == l.head
    && (forall n: nat | n < |l.nodes| && n != p && n != d :: l'.nodes[n] == l.nodes[n])
    && l'.nodes[p] == l.nodes[p].(skip := l.nodes[p].skip[layer := l.nodes[d].skip[layer]])
    && l'.nodes[d] == l.nodes[d].(levels := layer)
  }

  lemma DeletedMembers(l: SkipList, l': SkipList, p: nat, d: nat, layer: nat, n: nat, i: nat)
    requires Deleted(l, l', p, d, layer)
    ensures In(l', n, i) <==> In(l, n, i) && !(n == d && i == layer)
    ensures IsNode(l', n) == IsNode(l, n) && (In(l, n, i) ==> IsNode(l, n))
    ensures IsNode(l, n) ==> l'.nodes[n].key == l.nodes[n].key && l'.nodes[n].isHead == l.nodes[n].isHead && |l'.nodes[n].skip| == |l.nodes[n].skip|
    ensures IsNode(l, n) && i < |l.nodes[n].skip| ==>
              l'.nodes[n].skip[i] == if n == p && i == layer then l.nodes[d].skip[i] else l.nodes[n].skip[i]
    ensures In(l, p, layer) && HasLayer(l, p, layer) && In(l, d, layer) && HasLayer(l, d, layer) && p != d && l.nodes[p].skip[layer] == d
            && !l.nodes[d].isHead
  {
  }

  /** Only one member of a layer points to d. */
  lemma OnePredecessor(l: SkipList, layer: nat, n: nat, p: nat, d: nat)
    requires LayerOk(l, layer) && MembersOk(l) && In(l, n, layer) && In(l, p, layer) && In(l, d, layer)
    requires HasLayer(l, n, layer) && HasLayer(l, p, layer) && l.nodes[n].skip[layer] == d && l.nodes[p].skip[layer] == d
    requires IsNode(l, d) && Before(l, n, d) && Before(l, p, d)
    ensures n == p
  {
    hide In, MembersOk, LayerOk;
    if n != p {
      MembersOrdered(l, layer, n, p);
      NextIs(l, layer, n, p);
      NextIs(l, layer, p, n);
    }
  }

  lemma DeleteKeepsOrder(l: SkipList, l': SkipList, p: nat, d: nat, layer: nat, n: nat, m: nat)
    requires Deleted(l, l', p, d, layer) && LayerOk(l, layer) && MembersOk(l) && In(l', n, layer) && In(l', m, layer)
    ensures HasLayer(l', n, layer) && NextOk(l', n, layer, m)
  {
    hide In, LayerOk, MembersOk, Deleted;
    DeletedMembers(l, l', p, d, layer, n, layer);
    DeletedMembers(l, l', p, d, layer, m, layer);
    NextIs(l, layer, n, m);
    NextIs(l, layer, d, m);
    MembersOrdered(l, layer, d, m);
    DeletedMembers(l, l', p, d, layer, l.nodes[n].skip[layer], layer);
    DeletedMembers(l, l', p, d, layer, l.nodes[d].skip[layer], layer);
  }

  lemma DeleteElsewhere(l: SkipList, l': SkipList, p: nat, d: nat, layer: nat, i: nat, n: nat, m: nat)
    requires Deleted(l, l', p, d, layer) && LayerOk(l, i) && In(l', n, i) && In(l', m, i) && i != layer
    ensures HasLayer(l', n, i) && NextOk(l', n, i, m)
  {
    hide In, LayerOk, Deleted;
    DeletedMembers(l, l', p, d, layer, n, i);
    DeletedMembers(l, l', p, d, layer, m, i);
    NextIs(l, i, n, m);
    DeletedMembers(l, l', p, d, layer, l.nodes[n].skip[i], i);
  }

  /** A node taken out keeps its layer in order, and the others as they were. */
  lemma DeleteKeepsLayer(maxHeight: nat, l: SkipList, l': SkipList, p: nat, d: nat, layer: nat, i: nat)
    requires Deleted(l, l', p, d, layer) && LayerOk(l, i) && LayerOk(l, layer) && MembersOk(l)
    requires forall n: nat | IsNode(l, n) :: NodeOk(maxHeight, l, n)
    ensures LayerOk(l', i)
  {
    hide In, LayerOk, MembersOk, Deleted, NextOk, NodeOk;
    forall n: nat | In(l', n, i) ensures HasLayer(l', n, i) && LinkOk(l', n, i) {
      DeletedMembers(l, l', p, d, layer, n, i);
      NextIs(l, i, n, n);
      NextIs(l, layer, d, d);
      if i == layer && n != p && l.nodes[n].skip[i] == d {
        assert Before(l, n, d) && Before(l, p, d) by {
          PointsAhead(maxHeight, l, n, layer);
          PointsAhead(maxHeight, l, p, layer);
        }
        OnePredecessor(l, layer, n, p, d);
      }
      var next := l'.nodes[n].skip[i];
      DeletedMembers(l, l', p, d, layer, next, i);
      assert next != NIL ==> In(l', next, i) by {
        if next == d && i == layer {
          PointsAhead(maxHeight, l, d, layer);
        }
      }
      forall m: nat | In(l', m, i) ensures NextOk(l', n, i, m) {
        if i == layer {
          DeleteKeepsOrder(l, l', p, d, layer, n, m);
        } else {
          DeleteElsewhere(l, l', p, d, layer, i, n, m);
        }
      }
    }
    assert LayerOk(l', i) by { LayerIsOk(l', i); }
  }

  lemma PointsAhead(maxHeight: nat, l: SkipList, n: nat, layer: nat)
    requires IsNode(l, n) && NodeOk(maxHeight, l, n) && HasLayer(l, n, layer)
    ensures TargetOk(l, n, layer, l.nodes[n].skip[layer])
  {
  }

  /** An access that changes no layer: at most locks, flags, and pointers above a node's levels. */
  predicate QuietNode(was: Node, now: Node) {
    && now.height == was.height && now.key == was.key && now.isHead == was.isHead && now.levels == was.levels
    && now.top == was.top && |now.skip| == |was.skip|
    && forall layer: nat | layer < |was.skip| && (if was.isHead then was.top > 0 else layer < was.levels || layer < was.top) :: now.skip[layer] == was.skip[layer]
  }

  ghost predicate Quiet(was: SkipList, now: SkipList) {
    && |was.nodes| <= |now.nodes| && now.head == was.head
    && (forall n: nat | IsNode(was, n) :: QuietNode(was.nodes[n], now.nodes[n]))
    && (forall n: nat | |was.nodes| <= n < |now.nodes| :: now.nodes[n].levels == 0)
  }

  lemma OneQuiet(was: SkipList, n: nat, node: Node, size: int)
    requires IsNode(was, n) && QuietNode(was.nodes[n], node)
    ensures Quiet(was, Put(was, n, node).(size := size))
  {
  }

  lemma NewQuiet(was: SkipList, node: Node)
    requires node.levels == 0
    ensures Quiet(was, was.(nodes := was.nodes + [node]))
  {
  }

  lemma QuietMembers(was: SkipList, now: SkipList, n: nat, layer: nat)
    requires Quiet(was, now) && IsNode(was, was.head)
    ensures In(now, n, layer) <==> In(was, n, layer)
    ensures IsNode(was, n) ==> IsNode(now, n) && now.nodes[n].key == was.nodes[n].key && now.nodes[n].isHead == was.nodes[n].isHead
    ensures In(was, n, layer) ==> IsNode(was, n)
    ensures In(was, n, layer) && was.nodes[was.head].top > 0 && HasLayer(was, n, layer) ==>
      HasLayer(now, n, layer) && now.nodes[n].skip[layer] == was.nodes[n].skip[layer]
  {
  }

  lemma QuietKeepsLayer(was: SkipList, now: SkipList, layer: nat)
    requires Quiet(was, now) && LayerOk(was, layer) && IsNode(was, was.head) && was.nodes[was.head].top > 0
    ensures LayerOk(now, layer)
  {
    hide In, Quiet, LayerOk;
    forall n: nat | In(now, n, layer) ensures HasLayer(now, n, layer) && LinkOk(now, n, layer) {
      QuietMembers(was, now, n, layer);
      NextIs(was, layer, n, n);
      var next := was.nodes[n].skip[layer];
      QuietMembers(was, now, next, layer);
      forall m: nat | In(now, m, layer) ensures NextOk(now, n, layer, m) {
        QuietMembers(was, now, m, layer);
        NextIs(was, layer, n, m);
      }
    }
    LayerIsOk(now, layer);
  }

  lemma LockIsQuiet(l: SkipList, t: ThreadId, th: Thread, c: Choice)
    requires InRange(l, th) && (Locking(th.pc) || th.pc == Release)
    ensures Quiet(l, if th.pc == Release then ReleaseStep(l, th, c).list else LockStep(l, t, th).list)
  {
    hide Quiet;
    SameIsQuiet(l);
    if th.pc == Release && c.node in th.held && IsNode(l, c.node) {
      OneQuiet(l, c.node, l.nodes[c.node].(lock := Free), l.size);
    } else if th.pc == LockPred {
      OneQuiet(l, th.preds[th.k], l.nodes[th.preds[th.k]].(lock := By(t)), l.size);
    }
  }

  lemma SameIsQuiet(l: SkipList)
    ensures Quiet(l, l)
  {
  }

  lemma AddIsQuiet(l: SkipList, t: ThreadId, th: Thread)
    requires InRange(l, th) && Adding(th.pc) && th.pc != Link
    requires th.maxLayer < |th.preds| == |th.succs| && AdderOk(l, t, th)
    ensures Quiet(l, AddStep(l, t, th).list)
  {
    hide Quiet, FoundOk, HeldOk, ValidFrom;
    SameIsQuiet(l);
    var l' := AddStep(l, t, th).list;
    if th.pc in {SetNew, StoreLinked, IncSize} {
      OneQuiet(l, th.node, l'.nodes[th.node], l'.size);
    } else if th.pc == Create {
      NewQuiet(l, NewNode(th.height, th.op.k, false, t));
    }
  }

  lemma RemoveIsQuiet(l: SkipList, t: ThreadId, th: Thread)
    requires InRange(l, th) && Removing(th.pc) && th.pc != Unlink
    ensures Quiet(l, RemoveStep(l, t, th).list)
  {
    hide Quiet;
    SameIsQuiet(l);
    var l' := RemoveStep(l, t, th).list;
    if th.pc in {LockVictim, StoreMark, DecSize, ReleaseVictim} && l' != l {
      OneQuiet(l, th.node, l'.nodes[th.node], l'.size);
    }
  }

  lemma GrowIsQuiet(maxHeight: nat, l: SkipList, t: ThreadId, th: Thread, c: Choice)
    requires InRange(l, th) && Growing(th.pc) && GrowerOk(maxHeight, l, t, th)
    requires th.pc == GrowCas ==> l.head != th.oldHead
    ensures Quiet(l, GrowStep(maxHeight, l, t, th, c).list)
  {
    hide Quiet;
    SameIsQuiet(l);
    var l' := GrowStep(maxHeight, l, t, th, c).list;
    if th.pc == GrowCreate {
      NewQuiet(l, NewNode(th.height, 0, true, t));
    } else if th.pc in {GrowFlags, GrowCopy} {
      OneQuiet(l, th.node, l'.nodes[th.node], l.size);
    } else if th.pc in {GrowLock, GrowStoreMark, GrowUnlock} && l' != l {
      OneQuiet(l, th.oldHead, l'.nodes[th.oldHead], l.size);
    }
  }

  /** Only three accesses change a layer: a link, an unlink, and the exchange of the head. */
  predicate ChangesLayers(l: SkipList, th: Thread) {
    th.pc in {Link, Unlink} || (th.pc == GrowCas && l.head == th.oldHead)
  }

  lemma StepIsQuiet(maxHeight: nat, s: State, t: ThreadId, c: Choice)
    requires Inv(maxHeight, s) && CanStep(s, t) && !ChangesLayers(s.list, s.threads[t])
    ensures Quiet(s.list, Step(maxHeight, s, t, c).list)
  {
    hide Inv, LockStep, ReleaseStep, AddStep, RemoveStep, GrowStep, SearchStep, FindStep, InRange, Quiet,
      AdderOk, RemoverOk, GrowerOk, SearcherOk, LockerOk, ReleaserOk;
    var th := s.threads[t];
    InvParts(maxHeight, s, t);
    SameIsQuiet(s.list);
    if Locking(th.pc) || th.pc == Release {
      LockIsQuiet(s.list, t, th, c);
    } else if Adding(th.pc) {
      AddIsQuiet(s.list, t, th);
    } else if Removing(th.pc) {
      RemoveIsQuiet(s.list, t, th);
    } else if Growing(th.pc) {
      GrowIsQuiet(maxHeight, s.list, t, th, c);
    }
  }

  /** The store that links the new node puts it between two neighbours, whatever happened since the search. */
  lemma LinkInserts(maxHeight: nat, s: State, t: ThreadId, c: Choice)
    requires Inv(maxHeight, s) && CanStep(s, t) && s.threads[t].pc == Link
    ensures var th, l := s.threads[t], s.list;
            var p := th.preds[th.k];
            && Inserted(l, Step(maxHeight, s, t, c).list, p, th.node, th.k)
            && Before(l, p, th.node) && l.nodes[th.node].skip[th.k] == l.nodes[p].skip[th.k] && LayerOk(l, th.k)
            && (IsNode(l, l.nodes[p].skip[th.k]) ==> l.nodes[th.node].key < l.nodes[l.nodes[p].skip[th.k]].key)
  {
    hide Inv, LayerOk, MembersOk, HeadOk, SearcherOk, LockerOk, ReleaserOk, RemoverOk, GrowerOk, HeldOk, SearchStep, LockStep, RemoveStep, GrowStep, FindStep, LinkOk;
    var th, l := s.threads[t], s.list;
    InvParts(maxHeight, s, t);
    assert Valid(l, t, th.preds[th.k], th.k, th.succs[th.k]) && Found(l, th, th.k);
    ValidIsIn(maxHeight, s, t, th.preds[th.k], th.k, th.succs[th.k]);
  }

  /** A validated predecessor of a victim points to the victim. */
  lemma VictimIsNext(maxHeight: nat, s: State, t: ThreadId, layer: nat)
    requires Inv(maxHeight, s) && t in s.threads && s.threads[t].pc in {LoadVictim, Unlink} && layer <= s.threads[t].k
    requires layer < |s.threads[t].preds| == |s.threads[t].succs|
    ensures var th, l := s.threads[t], s.list;
            && HasLayer(l, th.preds[layer], layer) && l.nodes[th.preds[layer]].skip[layer] == th.node
            && In(l, th.preds[layer], layer) && In(l, th.node, layer) && LayerOk(l, layer) && th.preds[layer] != th.node
  {
    hide Inv, LayerOk, MembersOk, HeadOk, SearcherOk, LockerOk, ReleaserOk, AdderOk, GrowerOk, HeldOk, LinkOk;
    var th, l := s.threads[t], s.list;
    InvParts(maxHeight, s, t);
    var p := th.preds[layer];
    assert Valid(l, t, p, layer, th.succs[layer]) && Found(l, th, layer);
    ValidIsIn(maxHeight, s, t, p, layer, th.succs[layer]);
    NextIs(l, layer, p, th.node);
    MembersOrdered1(l, layer, th.succs[layer], th.node);
  }

  lemma MembersOrdered1(l: SkipList, layer: nat, n: nat, m: nat)
    requires MembersOk(l) && In(l, n, layer) && In(l, m, layer) && l.nodes[n].key == l.nodes[m].key
    requires !l.nodes[n].isHead && !l.nodes[m].isHead
    ensures n == m
  {
    hide MembersOk, In;
    if n != m {
      MembersOrdered(l, layer, n, m);
    }
  }

  lemma UnlinkDeletes(maxHeight: nat, s: State, t: ThreadId, c: Choice)
    requires Inv(maxHeight, s) && CanStep(s, t) && s.threads[t].pc == Unlink
    ensures var th := s.threads[t];
            Deleted(s.list, Step(maxHeight, s, t, c).list, th.preds[th.k], th.node, th.k) && LayerOk(s.list, th.k)
  {
    hide Inv, LayerOk, MembersOk, HeadOk, SearcherOk, LockerOk, ReleaserOk, AdderOk, GrowerOk, HeldOk, SearchStep, LockStep, AddStep, GrowStep, FindStep, FoundOk, ValidFrom;
    var th, l := s.threads[t], s.list;
    InvParts(maxHeight, s, t);
    VictimIsNext(maxHeight, s, t, th.k);
  }

  /** l' is l with its head replaced by a higher one that points where the old one did. */
  predicate Regrown(l: SkipList, l': SkipList) {
    && IsNode(l, l.head) && l.nodes[l.head].isHead && IsNode(l, l'.head) && l'.head != l.head
    && |l'.nodes| == |l.nodes| && (forall n: nat | n < |l.nodes| && n != l'.head :: l'.nodes[n] == l.nodes[n])
    && l'.nodes[l'.head] == l.nodes[l'.head].(top := l.nodes[l'.head].height)
    && var was, now := l.nodes[l.head], l'.nodes[l'.head];
    && now.isHead && was.height < now.height == |now.skip| && was.height <= |was.skip|
    && forall i: nat | i < now.height :: now.skip[i] == if i < was.height then was.skip[i] else NIL
  }

  lemma RegrownMembers(l: SkipList, l': SkipList, n: nat, layer: nat)
    requires Regrown(l, l') && (In(l, n, layer) ==> layer < l.nodes[l.head].height)
    ensures In(l', n, layer) ==>
      if n == l'.head then layer < |l'.nodes[n].skip| && (layer < l.nodes[l.head].height ==> In(l, l.head, layer)) else In(l, n, layer)
    ensures In(l, n, layer) && n != l.head ==> In(l', n, layer) && n != l'.head
    ensures IsNode(l, n) == IsNode(l', n) && (In(l', n, layer) ==> IsNode(l, n))
    ensures IsNode(l, n) ==> l'.nodes[n].key == l.nodes[n].key && l'.nodes[n].isHead == l.nodes[n].isHead
    ensures HasLayer(l, n, layer) ==> HasLayer(l', n, layer) && (n != l'.head ==> l'.nodes[n].skip[layer] == l.nodes[n].skip[layer])
  {
  }

  lemma NoHigherThanHead(l: SkipList, n: nat, layer: nat)
    requires MembersOk(l) && In(l, n, layer)
    ensures IsNode(l, l.head) && layer < l.nodes[l.head].height
  {
    hide In;
  }

  /** The higher head starts every layer that the old one started; its new layers are empty. */
  lemma RegrowKeepsLayer(maxHeight: nat, l: SkipList, l': SkipList, layer: nat)
    requires Regrown(l, l') && LayerOk(l, layer) && MembersOk(l)
    requires forall n: nat | IsNode(l, n) :: NodeOk(maxHeight, l, n)
    ensures LayerOk(l', layer)
  {
    hide In, LayerOk, MembersOk, Regrown, NodeOk, NextOk;
    forall n: nat | In(l', n, layer) ensures HasLayer(l', n, layer) && LinkOk(l', n, layer) {
      RegrownAt(l, l', n, layer);
      if n == l'.head {
        NewHeadPoints(l, l', layer);
      }
      var was := if n == l'.head then l.head else n;
      if n != l'.head || layer < l.nodes[l.head].height {
        NextIs(l, layer, was, was);
        PointsAhead(maxHeight, l, was, layer);
        RegrownAt(l, l', l.nodes[was].skip[layer], layer);
      }
      forall m: nat | In(l', m, layer) ensures NextOk(l', n, layer, m) {
        RegrownOrder(maxHeight, l, l', layer, n, m);
      }
    }
    LayerIsOk(l', layer);
  }

  lemma RegrownAt(l: SkipList, l': SkipList, n: nat, layer: nat)
    requires Regrown(l, l') && MembersOk(l)
    ensures In(l', n, layer) ==>
      if n == l'.head then layer < |l'.nodes[n].skip| && (layer < l.nodes[l.head].height ==> In(l, l.head, layer)) else In(l, n, layer)
    ensures In(l, n, layer) && n != l.head ==> In(l', n, layer) && n != l'.head
    ensures IsNode(l, n) == IsNode(l', n) && (In(l', n, layer) ==> IsNode(l, n))
    ensures IsNode(l, n) ==> l'.nodes[n].key == l.nodes[n].key && l'.nodes[n].isHead == l.nodes[n].isHead
    ensures HasLayer(l, n, layer) ==> HasLayer(l', n, layer) && (n != l'.head ==> l'.nodes[n].skip[layer] == l.nodes[n].skip[layer])
    ensures IsNode(l, l.head) && l.nodes[l.head].isHead
  {
    hide MembersOk;
    if In(l, n, layer) {
      NoHigherThanHead(l, n, layer);
    }
    RegrownMembers(l, l', n, layer);
  }

  lemma NewHeadPoints(l: SkipList, l': SkipList, layer: nat)
    requires Regrown(l, l') && layer < |l'.nodes[l'.head].skip|
    ensures IsNode(l, l.head) && l'.nodes[l'.head].isHead && l.nodes[l.head].height <= |l.nodes[l.head].skip|
    ensures l'.nodes[l'.head].skip[layer] == if layer < l.nodes[l.head].height then l.nodes[l.head].skip[layer] else NIL
  {
  }

  lemma RegrownOrder(maxHeight: nat, l: SkipList, l': SkipList, layer: nat, n: nat, m: nat)
    requires Regrown(l, l') && LayerOk(l, layer) && MembersOk(l) && In(l', n, layer) && In(l', m, layer) && HasLayer(l', n, layer)
    ensures NextOk(l', n, layer, m)
  {
    hide In, LayerOk, MembersOk, Regrown;
    RegrownAt(l, l', n, layer);
    RegrownAt(l, l', m, layer);
    NewHeadPoints1(l, l');
    if m != l'.head {
      NoHigherThanHead(l, m, layer);
      if n == l'.head {
        NewHeadPoints(l, l', layer);
        NextIs(l, layer, l.head, m);
        RegrownAt(l, l', l.nodes[l.head].skip[layer], layer);
      } else {
        NextIs(l, layer, n, m);
        RegrownAt(l, l', l.nodes[n].skip[layer], layer);
      }
    }
  }

  lemma NewHeadPoints1(l: SkipList, l': SkipList)
    requires Regrown(l, l')
    ensures IsNode(l', l'.head) && l'.nodes[l'.head].isHead
  {
  }

  lemma CasRegrows(maxHeight: nat, s: State, t: ThreadId, c: Choice)
    requires Inv(maxHeight, s) && CanStep(s, t) && s.threads[t].pc == GrowCas && s.list.head == s.threads[t].oldHead
    ensures Regrown(s.list, Step(maxHeight, s, t, c).list)
  {
    hide Inv, LayerOk, MembersOk, HeadOk, SearcherOk, LockerOk, ReleaserOk, RemoverOk, AdderOk, SearchStep, LockStep, RemoveStep, AddStep, FindStep;
    InvParts(maxHeight, s, t);
  }

  /** Every layer stays in order under every single pointer write. */
  lemma StepKeepsLayer(maxHeight: nat, s: State, t: ThreadId, c: Choice, layer: nat)
    requires Inv(maxHeight, s) && CanStep(s, t)
    ensures LayerOk(Step(maxHeight, s, t, c).list, layer)
  {
    hide Step, CanStep, LayerOk, MembersOk, HeadOk, ThreadOk, NodeOk;
    CanStepIsLive(s, t);
    var th, l, l' := s.threads[t], s.list, Step(maxHeight, s, t, c).list;
    assert LayerOk(l, layer);
    if th.pc == Link {
      LinkInserts(maxHeight, s, t, c);
      InsertKeepsLayer(l, l', th.preds[th.k], th.node, th.k, layer);
    } else if th.pc == Unlink {
      UnlinkDeletes(maxHeight, s, t, c);
      DeleteKeepsLayer(maxHeight, l, l', th.preds[th.k], th.node, th.k, layer);
    } else if th.pc == GrowCas && l.head == th.oldHead {
      CasRegrows(maxHeight, s, t, c);
      RegrowKeepsLayer(maxHeight, l, l', layer);
    } else {
      StepIsQuiet(maxHeight, s, t, c);
      HeadIsPublished(maxHeight, s);
      QuietKeepsLayer(l, l', layer);
    }
  }

  lemma HeadIsPublished(maxHeight: nat, s: State)
    requires Inv(maxHeight, s)
    ensures var l := s.list; IsNode(l, l.head) && l.nodes[l.head].isHead && !l.nodes[l.head].marked && l.nodes[l.head].top > 0
  {
    hide LayerOk, MembersOk, ThreadOk;
    NodeParts(maxHeight, s, s.list.head);
  }

  lemma CanStepIsLive(s: State, t: ThreadId)
    requires CanStep(s, t)
    ensures t in s.threads && InRange(s.list, s.threads[t])
    ensures s.threads[t].pc in {Link, Unlink} ==> s.threads[t].k < |s.threads[t].preds| == |s.threads[t].succs|
  {
  }

  // ----- Members, nodes and the head -----

  lemma StepKeepsMembers(maxHeight: nat, s: State, t: ThreadId, c: Choice)
    requires Inv(maxHeight, s) && CanStep(s, t)
    ensures MembersOk(Step(maxHeight, s, t, c).list)
  {
    hide Step, CanStep, LayerOk, HeadOk, ThreadOk, NodeOk, In, Inserted, Deleted, Regrown, Quiet;
    CanStepIsLive(s, t);
    var th, l, l' := s.threads[t], s.list, Step(maxHeight, s, t, c).list;
    HeadIsPublished(maxHeight, s);
    if th.pc == Link {
      LinkInserts(maxHeight, s, t, c);
      var p, x, k := th.preds[th.k], th.node, th.k;
      InsertedParts(l, l', p, x, k);
      InsertedHead(l, l', p, x, k);
      NoHigherThanHead(l, p, k);
      forall n: nat, i: nat ensures In(l', n, i) ==> IsNode(l, n) && (In(l, n, i) || (n == x && i == k)) {
        InsertedMembers(l, l', p, x, k, n, i);
      }
      forall n: nat ensures IsNode(l, n) ==> IsNode(l', n) && l'.nodes[n].key == l.nodes[n].key && l'.nodes[n].isHead == l.nodes[n].isHead {
        InsertedMembers(l, l', p, x, k, n, 0);
      }
      if k == 0 {
        forall m: nat | In(l, m, 0) && IsNode(l, m) && !l.nodes[m].isHead ensures l.nodes[m].key != l.nodes[x].key {
          NextIs(l, 0, p, m);
        }
      }
    } else if th.pc == Unlink {
      UnlinkDeletes(maxHeight, s, t, c);
      DeletedHead(l, l', th.preds[th.k], th.node, th.k);
      forall n: nat, i: nat ensures In(l', n, i) ==> IsNode(l, n) && In(l, n, i) {
        DeletedMembers(l, l', th.preds[th.k], th.node, th.k, n, i);
      }
      forall n: nat ensures IsNode(l, n) ==> IsNode(l', n) && l'.nodes[n].key == l.nodes[n].key && l'.nodes[n].isHead == l.nodes[n].isHead {
        DeletedMembers(l, l', th.preds[th.k], th.node, th.k, n, 0);
      }
    } else if th.pc == GrowCas && l.head == th.oldHead {
      CasRegrows(maxHeight, s, t, c);
      RegrownHead(l, l');
      forall n: nat, i: nat ensures In(l', n, i) ==> IsNode(l, n) && if n == l'.head then i < l'.nodes[l'.head].height else In(l, n, i) {
        RegrownAt(l, l', n, i);
      }
      forall n: nat ensures IsNode(l, n) ==> IsNode(l', n) && l'.nodes[n].key == l.nodes[n].key && l'.nodes[n].isHead == l.nodes[n].isHead {
        RegrownAt(l, l', n, 0);
      }
    } else {
      StepIsQuiet(maxHeight, s, t, c);
      QuietHead(l, l');
      forall n: nat, i: nat ensures In(l', n, i) ==> IsNode(l, n) && In(l, n, i) {
        QuietMembers(l, l', n, i);
      }
      forall n: nat ensures IsNode(l, n) ==> IsNode(l', n) && l'.nodes[n].key == l.nodes[n].key && l'.nodes[n].isHead == l.nodes[n].isHead {
        QuietMembers(l, l', n, 0);
      }
    }
  }

  lemma InsertedHead(l: SkipList, l': SkipList, p: nat, x: nat, layer: nat)
    requires Inserted(l, l', p, x, layer) && IsNode(l, l.head)
    ensures l'.head == l.head && IsNode(l', l'.head) && l'.nodes[l'.head].height == l.nodes[l.head].height
  {
  }

  lemma DeletedHead(l: SkipList, l': SkipList, p: nat, d: nat, layer: nat)
    requires Deleted(l, l', p, d, layer) && IsNode(l, l.head)
    ensures l'.head == l.head && IsNode(l', l'.head) && l'.nodes[l'.head].height == l.nodes[l.head].height
  {
  }

  lemma QuietHead(l: SkipList, l': SkipList)
    requires Quiet(l, l') && IsNode(l, l.head)
    ensures l'.head == l.head && IsNode(l', l'.head) && l'.nodes[l'.head].height == l.nodes[l.head].height
  {
  }

  lemma RegrownHead(l: SkipList, l': SkipList)
    requires Regrown(l, l')
    ensures IsNode(l', l'.head) && l'.nodes[l'.head].isHead && l.nodes[l.head].height < l'.nodes[l'.head].height == |l'.nodes[l'.head].skip|
  {
  }

  lemma TargetStays(t: ThreadId, l: SkipList, l': SkipList, n: nat, layer: nat, m: nat)
    requires Evolves(t, l, l') && IsNode(l, n) && TargetOk(l, n, layer, m)
    ensures IsNode(l', n) && TargetOk(l', n, layer, m)
  {
  }

  /** A node that kept its pointers is as good as it was. */
  lemma NodeStaysIf(maxHeight: nat, t: ThreadId, l: SkipList, l': SkipList, n: nat)
    requires Evolves(t, l, l') && IsNode(l, n) && NodeOk(maxHeight, l, n) && IsNode(l', n)
    requires var was, now := l.nodes[n], l'.nodes[n];
             && now.skip == was.skip && now.levels == was.levels && now.top == was.top
             && (!now.isHead ==> (now.marked ==> now.linked) && (was.marked ==> now.marked) && (now.linked ==> was.linked || now.top == now.height))
    ensures NodeOk(maxHeight, l', n)
  {
    hide Evolves;
    NodeKeeps(t, l, l', n);
    forall layer: nat | layer < l'.nodes[n].height ensures TargetOk(l', n, layer, l'.nodes[n].skip[layer]) {
      TargetStays(t, l, l', n, layer, l.nodes[n].skip[layer]);
    }
  }

  lemma NodeKeeps(t: ThreadId, l: SkipList, l': SkipList, n: nat)
    requires Evolves(t, l, l') && IsNode(l, n)
    ensures IsNode(l', n) && l'.nodes[n].height == l.nodes[n].height && l'.nodes[n].isHead == l.nodes[n].isHead && l'.nodes[n].key == l.nodes[n].key
    ensures l.nodes[n].top <= l'.nodes[n].top
  {
  }

  /** A node one of whose pointers was written. */
  lemma PointerWritten(maxHeight: nat, t: ThreadId, l: SkipList, l': SkipList, n: nat, layer: nat, m: nat)
    requires Evolves(t, l, l') && IsNode(l, n) && NodeOk(maxHeight, l, n) && layer < |l.nodes[n].skip| && IsNode(l', n)
    requires l'.nodes[n] == l.nodes[n].(skip := l.nodes[n].skip[layer := m]) && TargetOk(l', n, layer, m)
    ensures NodeOk(maxHeight, l', n)
  {
    hide Evolves;
    forall i: nat | i < l'.nodes[n].height ensures TargetOk(l', n, i, l'.nodes[n].skip[i]) {
      if i != layer {
        TargetStays(t, l, l', n, i, l.nodes[n].skip[i]);
      }
    }
  }

  /** A node whose levels were changed. */
  lemma LevelsWritten(maxHeight: nat, t: ThreadId, l: SkipList, l': SkipList, n: nat, levels: nat, top: nat)
    requires Evolves(t, l, l') && IsNode(l, n) && NodeOk(maxHeight, l, n) && IsNode(l', n)
    requires l'.nodes[n] == l.nodes[n].(levels := levels, top := top) && !l.nodes[n].isHead
    requires l.nodes[n].top <= top <= l.nodes[n].height && levels <= top && (levels == top || l.nodes[n].marked)
    ensures NodeOk(maxHeight, l', n)
  {
    hide Evolves;
    forall i: nat | i < l'.nodes[n].height ensures TargetOk(l', n, i, l'.nodes[n].skip[i]) {
      TargetStays(t, l, l', n, i, l.nodes[n].skip[i]);
    }
  }

  lemma LockKeepsNode(maxHeight: nat, l: SkipList, l': SkipList, t: ThreadId, th: Thread, c: Choice, n: nat)
    requires InRange(l, th) && (Locking(th.pc) || th.pc == Release)
    requires l' == (if th.pc == Release then ReleaseStep(l, th, c).list else LockStep(l, t, th).list)
    requires Evolves(t, l, l') && IsNode(l, n) && NodeOk(maxHeight, l, n)
    ensures IsNode(l', n) && NodeOk(maxHeight, l', n)
  {
    hide Evolves, TargetOk;
    NodeKeeps(t, l, l', n);
    NodeStaysIf(maxHeight, t, l, l', n);
  }

  lemma LinkKeepsNode(maxHeight: nat, l: SkipList, l': SkipList, t: ThreadId, th: Thread, n: nat)
    requires InRange(l, th) && th.pc == Link && th.maxLayer < |th.preds| && AdderOk(l, t, th) && l' == AddStep(l, t, th).list
    requires Evolves(t, l, l') && IsNode(l, n) && NodeOk(maxHeight, l, n)
    requires Before(l, th.preds[th.k], th.node)
    ensures IsNode(l', n) && NodeOk(maxHeight, l', n)
  {
    hide Evolves, HeldOk, FoundOk, ValidFrom, NodeOk;
    NodeKeeps(t, l, l', n);
    if n == th.preds[th.k] && n != th.node {
      PointerWritten(maxHeight, t, l, l', n, th.k, th.node);
    } else if n == th.node {
      assert n != th.preds[th.k];
      LevelsWritten(maxHeight, t, l, l', n, th.k + 1, th.k + 1);
    } else {
      UntouchedStays(maxHeight, t, l, l', n);
    }
  }

  lemma UntouchedStays(maxHeight: nat, t: ThreadId, l: SkipList, l': SkipList, n: nat)
    requires Evolves(t, l, l') && IsNode(l, n) && IsNode(l', n) && NodeOk(maxHeight, l, n) && l'.nodes[n] == l.nodes[n]
    ensures NodeOk(maxHeight, l', n)
  {
    hide Evolves, TargetOk;
    NodeStaysIf(maxHeight, t, l, l', n);
  }

  lemma AddKeepsNode(maxHeight: nat, l: SkipList, l': SkipList, t: ThreadId, th: Thread, n: nat)
    requires InRange(l, th) && Adding(th.pc) && th.pc != Link && th.maxLayer < |th.preds| == |th.succs| && AdderOk(l, t, th)
    requires l' == AddStep(l, t, th).list
    requires Evolves(t, l, l') && IsNode(l, n) && NodeOk(maxHeight, l, n)
    ensures IsNode(l', n) && NodeOk(maxHeight, l', n)
  {
    hide Evolves, HeldOk, ValidFrom, NodeOk, FoundOk;
    NodeKeeps(t, l, l', n);
    if th.pc == SetNew && n == th.node {
      assert SuccOk(l, th.op.k, th.succs[th.k], th.k) && (IsNode(l, th.succs[th.k]) ==> th.op.k < l.nodes[th.succs[th.k]].key)
      by { FoundAt(l, th, th.k); }
      TargetStays(t, l, l', n, th.k, th.succs[th.k]);
      PointerWritten(maxHeight, t, l, l', n, th.k, th.succs[th.k]);
    } else if th.pc in {StoreLinked, IncSize} && n == th.node {
      FlagsOk(maxHeight, l, n);
      NodeStaysIf(maxHeight, t, l, l', n);
    } else {
      UntouchedStays(maxHeight, t, l, l', n);
    }
  }

  lemma FoundAt(l: SkipList, th: Thread, layer: nat)
    requires th.maxLayer < |th.preds| == |th.succs| && FoundOk(l, th, 0) && layer <= th.maxLayer
    ensures Found(l, th, layer)
  {
  }

  lemma FlagsOk(maxHeight: nat, l: SkipList, n: nat)
    requires IsNode(l, n) && NodeOk(maxHeight, l, n) && !l.nodes[n].isHead
    ensures l.nodes[n].marked ==> l.nodes[n].linked
    ensures l.nodes[n].linked ==> l.nodes[n].top == l.nodes[n].height
    ensures !l.nodes[n].marked ==> l.nodes[n].levels == l.nodes[n].top
    ensures l.nodes[n].levels <= l.nodes[n].top <= l.nodes[n].height == |l.nodes[n].skip|
  {
  }

  lemma RemoveKeepsNode(maxHeight: nat, l: SkipList, l': SkipList, t: ThreadId, th: Thread, n: nat)
    requires InRange(l, th) && Removing(th.pc) && th.maxLayer < |th.preds| == |th.succs| && RemoverOk(l, t, th)
    requires l' == RemoveStep(l, t, th).list
    requires Evolves(t, l, l') && IsNode(l, n) && NodeOk(maxHeight, l, n)
    requires th.pc == Unlink ==> NodeOk(maxHeight, l, th.node) && HasLayer(l, th.preds[th.k], th.k) && Before(l, th.preds[th.k], th.node)
    ensures IsNode(l', n) && NodeOk(maxHeight, l', n)
  {
    hide Evolves, HeldOk, ValidFrom, NodeOk, Found;
    NodeKeeps(t, l, l', n);
    if th.pc == Unlink {
      FlagsOk(maxHeight, l, th.node);
      if n == th.node {
        LevelsWritten(maxHeight, t, l, l', n, th.k, l.nodes[n].top);
      } else if n == th.preds[th.k] {
        PointsAhead(maxHeight, l, th.node, th.k);
        TargetStays(t, l, l', n, th.k, th.tmp);
        PointerWritten(maxHeight, t, l, l', n, th.k, th.tmp);
      } else {
        UntouchedStays(maxHeight, t, l, l', n);
      }
    } else if n == th.node && th.pc in {LockVictim, StoreMark, DecSize, ReleaseVictim} {
      if !l.nodes[n].isHead {
        FlagsOk(maxHeight, l, n);
      }
      NodeStaysIf(maxHeight, t, l, l', n);
    } else {
      UntouchedStays(maxHeight, t, l, l', n);
    }
  }

  lemma GrowKeepsNode(maxHeight: nat, l: SkipList, l': SkipList, t: ThreadId, th: Thread, c: Choice, n: nat)
    requires InRange(l, th) && Growing(th.pc) && GrowerOk(maxHeight, l, t, th)
    requires l' == GrowStep(maxHeight, l, t, th, c).list
    requires Evolves(t, l, l') && IsNode(l, n) && NodeOk(maxHeight, l, n)
    requires th.pc == GrowCopy ==> NodeOk(maxHeight, l, th.oldHead)
    ensures IsNode(l', n) && NodeOk(maxHeight, l', n)
  {
    hide Evolves, TargetOk;
    NodeKeeps(t, l, l', n);
    if th.pc == GrowCopy && n == th.node {
      assert TargetOk(l, n, th.k, l.nodes[th.oldHead].skip[th.k]) by {
        PointsAhead(maxHeight, l, th.oldHead, th.k);
        HeadsTarget(l, th.oldHead, n, th.k, l.nodes[th.oldHead].skip[th.k]);
      }
      TargetStays(t, l, l', n, th.k, l.nodes[th.oldHead].skip[th.k]);
      PointerWritten(maxHeight, t, l, l', n, th.k, l.nodes[th.oldHead].skip[th.k]);
    } else if th.pc == GrowCas && n == th.node && l.head == th.oldHead {
      forall i: nat | i < l'.nodes[n].height ensures TargetOk(l', n, i, l'.nodes[n].skip[i]) {
        TargetStays(t, l, l', n, i, l.nodes[n].skip[i]);
      }
    } else {
      NodeStaysIf(maxHeight, t, l, l', n);
    }
  }

  lemma HeadsTarget(l: SkipList, n: nat, n': nat, layer: nat, m: nat)
    requires IsNode(l, n) && IsNode(l, n') && l.nodes[n'].isHead && TargetOk(l, n, layer, m)
    ensures TargetOk(l, n', layer, m)
  {
  }

  lemma NewNodeOk(maxHeight: nat, l: SkipList, n: nat, t: ThreadId)
    requires IsNode(l, n) && 1 <= l.nodes[n].height <= maxHeight
    requires l.nodes[n] == NewNode(l.nodes[n].height, l.nodes[n].key, l.nodes[n].isHead, t)
    ensures NodeOk(maxHeight, l, n)
  {
  }

  lemma OnlyTwoCreate(maxHeight: nat, s: State, t: ThreadId, c: Choice)
    requires CanStep(s, t) && !(s.threads[t].pc in {Create, GrowCreate})
    ensures |Step(maxHeight, s, t, c).list.nodes| == |s.list.nodes|
  {
    hide LockStep, ReleaseStep, AddStep, RemoveStep, GrowStep, SearchStep, FindStep;
    NobodyElseCreates(maxHeight, s.list, t, s.threads[t], c);
  }

  lemma NobodyElseCreates(maxHeight: nat, l: SkipList, t: ThreadId, th: Thread, c: Choice)
    requires InRange(l, th) && !(th.pc in {Create, GrowCreate})
    ensures Locking(th.pc) ==> |LockStep(l, t, th).list.nodes| == |l.nodes|
    ensures |ReleaseStep(l, th, c).list.nodes| == |l.nodes|
    ensures Adding(th.pc) ==> |AddStep(l, t, th).list.nodes| == |l.nodes|
    ensures Removing(th.pc) ==> |RemoveStep(l, t, th).list.nodes| == |l.nodes|
    ensures Growing(th.pc) ==> |GrowStep(maxHeight, l, t, th, c).list.nodes| == |l.nodes|
  {
  }

  lemma StepCreates(maxHeight: nat, s: State, t: ThreadId, c: Choice, n: nat)
    requires Inv(maxHeight, s) && CanStep(s, t) && !IsNode(s.list, n) && IsNode(Step(maxHeight, s, t, c).list, n)
    ensures NodeOk(maxHeight, Step(maxHeight, s, t, c).list, n) && Step(maxHeight, s, t, c).list.nodes[n].top == 0
  {
    hide Inv, NodeOk, FoundOk, HeldOk, ValidFrom, HeadOk, MembersOk, SearcherOk, LockerOk, ReleaserOk, RemoverOk, LayerOk, SearchStep, FindStep, LockStep,
      RemoveStep, ReleaseStep;
    InvParts(maxHeight, s, t);
    if !(s.threads[t].pc in {Create, GrowCreate}) {
      OnlyTwoCreate(maxHeight, s, t, c);
    } else {
      NewNodeOk(maxHeight, Step(maxHeight, s, t, c).list, n, t);
    }
  }

  lemma StepKeepsNode(maxHeight: nat, s: State, t: ThreadId, c: Choice, n: nat)
    requires Inv(maxHeight, s) && CanStep(s, t) && IsNode(Step(maxHeight, s, t, c).list, n)
    ensures NodeOk(maxHeight, Step(maxHeight, s, t, c).list, n)
  {
    hide Inv, NodeOk, HeadOk, MembersOk, LayerOk, SearchStep, FindStep, LockStep, RemoveStep, AddStep, GrowStep, ReleaseStep,
      SearcherOk, LockerOk, ReleaserOk, AdderOk, RemoverOk, GrowerOk, FinderOk, Evolves, InRange;
    var th, l, l' := s.threads[t], s.list, Step(maxHeight, s, t, c).list;
    InvParts(maxHeight, s, t);
    StepEvolves(maxHeight, s, t, c);
    if !IsNode(l, n) {
      StepCreates(maxHeight, s, t, c, n);
    } else {
      NodeParts(maxHeight, s, n);
      if Locking(th.pc) || th.pc == Release {
        LockKeepsNode(maxHeight, l, l', t, th, c, n);
      } else if th.pc == Link {
        LinkInserts(maxHeight, s, t, c);
        LinkKeepsNode(maxHeight, l, l', t, th, n);
      } else if Adding(th.pc) {
        AddKeepsNode(maxHeight, l, l', t, th, n);
      } else if Removing(th.pc) {
        if th.pc == Unlink {
          VictimComesAfter(maxHeight, s, t);
        }
        RemoveKeepsNode(maxHeight, l, l', t, th, n);
      } else if Growing(th.pc) {
        if th.pc == GrowCopy {
          OldIsANode(maxHeight, l, t, th);
          NodeParts(maxHeight, s, th.oldHead);
        }
        GrowKeepsNode(maxHeight, l, l', t, th, c, n);
      }
    }
  }

  lemma OldIsANode(maxHeight: nat, l: SkipList, t: ThreadId, th: Thread)
    requires GrowerOk(maxHeight, l, t, th) && th.pc == GrowCopy
    ensures IsNode(l, th.oldHead)
  {
  }

  lemma VictimComesAfter(maxHeight: nat, s: State, t: ThreadId)
    requires Inv(maxHeight, s) && CanStep(s, t) && s.threads[t].pc == Unlink
    ensures var th, l := s.threads[t], s.list;
            && HasLayer(l, th.preds[th.k], th.k) && IsNode(l, th.node) && NodeOk(maxHeight, l, th.node) && Before(l, th.preds[th.k], th.node)
  {
    hide Inv, NodeOk, LayerOk, MembersOk, SearcherOk, LockerOk, ReleaserOk, AdderOk, GrowerOk, HeadOk, ValidFrom, HeldOk;
    var th, l := s.threads[t], s.list;
    InvParts(maxHeight, s, t);
    FoundAt(l, th, th.k);
    NodeParts(maxHeight, s, th.node);
  }

  /** Replaced heads are marked, or their lock's owner is about to mark them. */
  lemma StepKeepsHead(maxHeight: nat, s: State, t: ThreadId, c: Choice)
    requires Inv(maxHeight, s) && CanStep(s, t)
    ensures HeadOk(Step(maxHeight, s, t, c))
  {
    hide Inv, NodeOk, HeadOk, MembersOk, LayerOk, ThreadOk, Evolves, InRange, Step, OldHeadOk;
    var th, l, s' := s.threads[t], s.list, Step(maxHeight, s, t, c);
    HeadIsFine(maxHeight, s, t, c);
    forall n: nat | IsNode(s'.list, n) && n != s'.list.head ensures OldHeadOk(s', n) {
      OldHeadStays(maxHeight, s, t, c, n);
    }
    assert HeadOk(s') by { HeadIsOk(s'); }
  }

  lemma HeadIsOk(s: State)
    requires IsNode(s.list, s.list.head)
    requires var head := s.list.nodes[s.list.head]; head.isHead && !head.marked && head.top == head.height
    requires forall n: nat | IsNode(s.list, n) && n != s.list.head :: OldHeadOk(s, n)
    ensures HeadOk(s)
  {
  }

  /** Everyone but a grower leaves the heads as they are. */
  ghost predicate HeadsStay(l: SkipList, l': SkipList) {
    l'.head == l.head && forall n: nat | IsNode(l, n) && l.nodes[n].isHead :: IsNode(l', n) && l'.nodes[n].top == l.nodes[n].top
                                        && l'.nodes[n].marked == l.nodes[n].marked && l'.nodes[n].isHead
  }

  lemma OneStays(was: SkipList, n: nat, node: Node, size: int)
    requires IsNode(was, n) && (was.nodes[n].isHead ==> node.isHead && node.top == was.nodes[n].top && node.marked == was.nodes[n].marked)
    ensures HeadsStay(was, Put(was, n, node).(size := size))
  {
  }

  lemma SameStays(l: SkipList)
    ensures HeadsStay(l, l)
  {
  }

  lemma NewStays(l: SkipList, node: Node)
    ensures HeadsStay(l, l.(nodes := l.nodes + [node]))
  {
  }

  lemma TwoStay(was: SkipList, n: nat, node: Node, m: nat, other: Node)
    requires IsNode(was, n) && IsNode(was, m) && n != m && !was.nodes[m].isHead
    requires was.nodes[n].isHead ==> node.isHead && node.top == was.nodes[n].top && node.marked == was.nodes[n].marked
    ensures HeadsStay(was, Put(Put(was, n, node), m, other))
  {
  }

  lemma LockLeavesHeads(l: SkipList, t: ThreadId, th: Thread, c: Choice)
    requires InRange(l, th) && (Locking(th.pc) || th.pc == Release)
    ensures HeadsStay(l, if th.pc == Release then ReleaseStep(l, th, c).list else LockStep(l, t, th).list)
  {
    hide HeadsStay;
    SameStays(l);
    if th.pc == Release && c.node in th.held && IsNode(l, c.node) {
      OneStays(l, c.node, l.nodes[c.node].(lock := Free), l.size);
    } else if th.pc == LockPred {
      OneStays(l, th.preds[th.k], l.nodes[th.preds[th.k]].(lock := By(t)), l.size);
    }
  }

  lemma AddLeavesHeads(l: SkipList, t: ThreadId, th: Thread)
    requires InRange(l, th) && Adding(th.pc)
    requires th.maxLayer < |th.preds| == |th.succs| && AdderOk(l, t, th)
    ensures HeadsStay(l, AddStep(l, t, th).list)
  {
    hide HeadsStay, FoundOk, HeldOk;
    SameStays(l);
    var l' := AddStep(l, t, th).list;
    if th.pc == Link {
      assert Valid(l, t, th.preds[th.k], th.k, th.succs[th.k]);
      TwoStay(l, th.preds[th.k], l'.nodes[th.preds[th.k]], th.node, l'.nodes[th.node]);
    } else if th.pc in {SetNew, StoreLinked, IncSize} {
      OneStays(l, th.node, l'.nodes[th.node], l'.size);
    } else if th.pc == Create {
      NewStays(l, NewNode(th.height, th.op.k, false, t));
    }
  }

  lemma RemoveLeavesHeads(l: SkipList, t: ThreadId, th: Thread)
    requires InRange(l, th) && Removing(th.pc)
    requires th.maxLayer < |th.preds| == |th.succs| && RemoverOk(l, t, th)
    requires th.pc == Unlink ==> th.preds[th.k] != th.node
    ensures HeadsStay(l, RemoveStep(l, t, th).list)
  {
    hide HeadsStay, Found, HeldOk, ValidFrom;
    SameStays(l);
    var l' := RemoveStep(l, t, th).list;
    if th.pc == Unlink {
      TwoStay(l, th.preds[th.k], l'.nodes[th.preds[th.k]], th.node, l'.nodes[th.node]);
    } else if th.pc in {LockVictim, StoreMark, DecSize, ReleaseVictim} && l' != l {
      OneStays(l, th.node, l'.nodes[th.node], l'.size);
    }
  }

  lemma StepLeavesHeads(maxHeight: nat, s: State, t: ThreadId, c: Choice)
    requires Inv(maxHeight, s) && CanStep(s, t) && !Growing(s.threads[t].pc)
    ensures HeadsStay(s.list, Step(maxHeight, s, t, c).list)
  {
    hide Inv, NodeOk, HeadOk, MembersOk, LayerOk, SearchStep, FindStep, LockStep, RemoveStep, AddStep, GrowStep, ReleaseStep,
      SearcherOk, LockerOk, ReleaserOk, AdderOk, RemoverOk, GrowerOk, FinderOk, InRange, HeadsStay;
    var th, l := s.threads[t], s.list;
    InvParts(maxHeight, s, t);
    SameStays(l);
    if Locking(th.pc) || th.pc == Release {
      LockLeavesHeads(l, t, th, c);
    } else if Adding(th.pc) {
      AddLeavesHeads(l, t, th);
    } else if Removing(th.pc) {
      if th.pc == Unlink {
        CanStepIsLive(s, t);
        VictimIsNext(maxHeight, s, t, th.k);
      }
      RemoveLeavesHeads(l, t, th);
    }
  }

  lemma HeadIsFine(maxHeight: nat, s: State, t: ThreadId, c: Choice)
    requires Inv(maxHeight, s) && CanStep(s, t)
    ensures var l' := Step(maxHeight, s, t, c).list;
            && IsNode(l', l'.head)
            && l'.nodes[l'.head].isHead && !l'.nodes[l'.head].marked && l'.nodes[l'.head].top == l'.nodes[l'.head].height
  {
    hide Step, Inv, LayerOk, MembersOk, SearcherOk, LockerOk, ReleaserOk, AdderOk, RemoverOk, FinderOk, OldHeadOk, NodeOk, InRange, GrowStep, ThreadStep, GrowerOk;
    InvParts(maxHeight, s, t);
    var l := s.list;
    CanStepIsLive(s, t);
    if Growing(s.threads[t].pc) {
      GrowerHead(maxHeight, l, t, s.threads[t], c);
      StepIs(maxHeight, s, t, c);
    } else {
      StepLeavesHeads(maxHeight, s, t, c);
      StepEvolves(maxHeight, s, t, c);
    }
  }

  lemma GrowerHead(maxHeight: nat, l: SkipList, t: ThreadId, th: Thread, c: Choice)
    requires GrowerOk(maxHeight, l, t, th) && InRange(l, th) && Growing(th.pc)
    requires var head := l.nodes[l.head]; head.isHead && !head.marked && head.top == head.height
    ensures var l' := GrowStep(maxHeight, l, t, th, c).list;
            && IsNode(l', l'.head)
            && l'.nodes[l'.head].isHead && !l'.nodes[l'.head].marked && l'.nodes[l'.head].top == l'.nodes[l'.head].height
  {
  }

  lemma StepIs(maxHeight: nat, s: State, t: ThreadId, c: Choice)
    requires CanStep(s, t)
    ensures var e := ThreadStep(maxHeight, s.list, t, s.threads[t], c);
            && Step(maxHeight, s, t, c) == State(e.list, s.threads[t := e.th])
            && (Growing(s.threads[t].pc) ==> e == GrowStep(maxHeight, s.list, t, s.threads[t], c))
  {
    hide LockStep, ReleaseStep, AddStep, RemoveStep, GrowStep, SearchStep, FindStep;
  }

  lemma OldHeadStays(maxHeight: nat, s: State, t: ThreadId, c: Choice, n: nat)
    requires Inv(maxHeight, s) && CanStep(s, t) && IsNode(Step(maxHeight, s, t, c).list, n) && n != Step(maxHeight, s, t, c).list.head
    ensures OldHeadOk(Step(maxHeight, s, t, c), n)
  {
    hide Step, LayerOk, MembersOk, SearcherOk, LockerOk, ReleaserOk, AdderOk, RemoverOk, NodeOk, InRange;
    var th, l, s' := s.threads[t], s.list, Step(maxHeight, s, t, c);
    InvParts(maxHeight, s, t);
    StepEvolves(maxHeight, s, t, c);
    OnlyOneMoves(maxHeight, s, t, c);
    if !IsNode(l, n) {
      StepCreates(maxHeight, s, t, c, n);
    } else if l.nodes[n].isHead {
      MarkerMoves(maxHeight, s, t, c, n);
      assert n != l.head ==> OldHeadOk(s, n);
    }
  }

  lemma OnlyOneMoves(maxHeight: nat, s: State, t: ThreadId, c: Choice)
    requires CanStep(s, t)
    ensures var s' := Step(maxHeight, s, t, c); t in s'.threads && s'.threads == s.threads[t := s'.threads[t]]
  {
    hide InRange, SearchStep, FindStep, LockStep, RemoveStep, AddStep, GrowStep, ReleaseStep;
  }

  /** The exchange of the head leads to its marking, and a private head is not published before. */
  predicate HeadTransition(l: SkipList, l': SkipList, t: ThreadId, th: Thread, th': Thread, n: nat) {
    && IsNode(l, n) && IsNode(l', n)
    && (l'.head != n ==> l'.nodes[n].top == l.nodes[n].top)
    && (l'.head != l.head ==>
          th'.pc == GrowLoadMark && th'.oldHead == l.head && IsNode(l', l.head) && l'.nodes[l.head].lock == By(t))
    && (th.pc == GrowLoadMark ==> th'.pc == GrowStoreMark && th'.oldHead == th.oldHead && l' == l)
    && (th.pc == GrowStoreMark ==> IsNode(l', th.oldHead) && l'.nodes[th.oldHead].marked)
  }

  lemma MarkerMoves(maxHeight: nat, s: State, t: ThreadId, c: Choice, n: nat)
    requires Inv(maxHeight, s) && CanStep(s, t) && IsNode(s.list, n) && s.list.nodes[n].isHead
    ensures var e := ThreadStep(maxHeight, s.list, t, s.threads[t], c); HeadTransition(s.list, e.list, t, s.threads[t], e.th, n)
    ensures var e := ThreadStep(maxHeight, s.list, t, s.threads[t], c);
            Step(maxHeight, s, t, c) == State(e.list, s.threads[t := e.th])
  {
    hide Inv, LayerOk, MembersOk, SearcherOk, LockerOk, ReleaserOk, AdderOk, RemoverOk, FinderOk, OldHeadOk, NodeOk, InRange, GrowerOk,
      LockStep, ReleaseStep, AddStep, RemoveStep, GrowStep, SearchStep, FindStep;
    InvParts(maxHeight, s, t);
    CanStepIsLive(s, t);
    HeadIsPublished(maxHeight, s);
    if Growing(s.threads[t].pc) {
      GrowerMoves(maxHeight, s.list, t, s.threads[t], c, n);
    } else {
      StepLeavesHeads(maxHeight, s, t, c);
    }
  }

  lemma GrowerMoves(maxHeight: nat, l: SkipList, t: ThreadId, th: Thread, c: Choice, n: nat)
    requires GrowerOk(maxHeight, l, t, th) && InRange(l, th) && Growing(th.pc) && IsNode(l, n)
    ensures var e := GrowStep(maxHeight, l, t, th, c); HeadTransition(l, e.list, t, th, e.th, n)
  {
    hide NewHeadOk;
  }

  // ----- What the moving thread knows -----

  lemma LayerFound(l: SkipList, th: Thread, node: nat)
    requires th.layer <= th.maxLayer < |th.preds| == |th.succs| && FoundOk(l, th, th.layer + 1)
    requires PredOk(l, th.op.k, th.pred, th.layer) && TargetOk(l, th.pred, th.layer, node) && !Greater(l, th.op.k, node)
    ensures FoundOk(l, Recorded(l, th, node), th.layer)
  {
    var th' := Recorded(l, th, node);
    forall layer: nat | th.layer <= layer <= th.maxLayer ensures Found(l, th', layer) {
      if layer > th.layer {
        assert Found(l, th, layer);
      }
    }
  }

  lemma SearchingOk(maxHeight: nat, l: SkipList, t: ThreadId, th: Thread)
    requires Searching(th.pc) && th.maxLayer < maxHeight == |th.preds| == |th.succs| && (th.isMarked ==> th.op.Remove?)
    requires SearcherOk(l, t, th)
    ensures ThreadOk(maxHeight, l, t, th)
  {
    hide SearcherOk;
  }

  lemma SearcherKnows(maxHeight: nat, s: State, t: ThreadId, c: Choice)
    requires Inv(maxHeight, s) && CanStep(s, t) && Searching(s.threads[t].pc)
    ensures ThreadOk(maxHeight, s.list, t, SearchStep(s.list, s.threads[t], c))
  {
    if s.threads[t].pc == LoadSkip {
      WalkerKnows(maxHeight, s, t, c);
    } else {
      StarterKnows(maxHeight, s, t, c);
    }
  }

  lemma StarterKnows(maxHeight: nat, s: State, t: ThreadId, c: Choice)
    requires Inv(maxHeight, s) && CanStep(s, t) && s.threads[t].pc in {LoadMaxLayer, LoadHead}
    ensures ThreadOk(maxHeight, s.list, t, SearchStep(s.list, s.threads[t], c))
  {
    hide Inv, LayerOk, MembersOk, NodeOk, HeadOk, ThreadOk, SearchStep, SearcherOk;
    SearchingParts(maxHeight, s, t);
    var th, l := s.threads[t], s.list;
    InvParts(maxHeight, s, t);
    HeadIsPublished(maxHeight, s);
    NodeParts(maxHeight, s, l.head);
    HeightOfHead(maxHeight, l);
    if th.isMarked {
      VictimHeight(maxHeight, s, t);
    }
    HeadIsHigh(s);
    StartsAre(l, th, c);
    var th' := SearchStep(l, th, c);
    StartedOk(maxHeight, l, t, th, th');
    SearchingOk(maxHeight, l, t, th');
  }

  lemma StartsAre(l: SkipList, th: Thread, c: Choice)
    requires IsNode(l, l.head) && th.pc in {LoadMaxLayer, LoadHead} && 0 < l.nodes[l.head].height
    ensures SearchStep(l, th, c) == if th.pc == LoadMaxLayer then th.(pc := LoadHead, maxLayer := l.nodes[l.head].height - 1)
                                    else th.(pc := LoadSkip, pred := l.head, layer := th.maxLayer, found := -1, foundNode := NIL)
  {
  }

  lemma StartedOk(maxHeight: nat, l: SkipList, t: ThreadId, th: Thread, th': Thread)
    requires th.pc in {LoadMaxLayer, LoadHead} && Fits(maxHeight, th) && SearcherOk(l, t, th) && IsNode(l, l.head)
    requires var head := l.nodes[l.head]; 0 < head.height == head.top <= maxHeight && head.isHead && (th.isMarked ==> th.height <= head.height)
    requires th' == if th.pc == LoadMaxLayer then th.(pc := LoadHead, maxLayer := l.nodes[l.head].height - 1)
                    else th.(pc := LoadSkip, pred := l.head, layer := th.maxLayer, found := -1, foundNode := NIL)
    ensures Fits(maxHeight, th') && SearcherOk(l, t, th')
  {
    hide FoundOk;
    if th.pc == LoadHead {
      NothingFound(l, th');
    }
  }

  lemma SearchingParts(maxHeight: nat, s: State, t: ThreadId)
    requires Inv(maxHeight, s) && t in s.threads && Searching(s.threads[t].pc)
    ensures Fits(maxHeight, s.threads[t]) && SearcherOk(s.list, t, s.threads[t])
  {
    hide SearcherOk;
    InvParts(maxHeight, s, t);
  }

  lemma HeadIsHigh(s: State)
    requires HeadOk(s)
    ensures s.list.nodes[s.list.head].top == s.list.nodes[s.list.head].height
  {
  }

  lemma WalkerKnows(maxHeight: nat, s: State, t: ThreadId, c: Choice)
    requires Inv(maxHeight, s) && CanStep(s, t) && s.threads[t].pc == LoadSkip
    ensures ThreadOk(maxHeight, s.list, t, SearchStep(s.list, s.threads[t], c))
  {
    hide Inv, LayerOk, MembersOk, NodeOk, HeadOk, Searched, Recorded, SearcherOk, ThreadOk, TargetOk, PredOk, FoundOk;
    var th, l := s.threads[t], s.list;
    InvParts(maxHeight, s, t);
    WalkerParts(maxHeight, l, t, th);
    if th.isMarked {
      VictimHeight(maxHeight, s, t);
    }
    NodeParts(maxHeight, s, th.pred);
    PointsAhead(maxHeight, l, th.pred, th.layer);
    var node := l.nodes[th.pred].skip[th.layer];
    if Greater(l, th.op.k, node) {
      StepsRight(l, t, th, node);
      SearchingOk(maxHeight, l, t, th.(pred := node));
    } else {
      RecorderKnows(maxHeight, l, t, th, node, c);
    }
  }

  lemma WalkerParts(maxHeight: nat, l: SkipList, t: ThreadId, th: Thread)
    requires ThreadOk(maxHeight, l, t, th) && th.pc == LoadSkip
    ensures Fits(maxHeight, th) && SearcherOk(l, t, th) && PredOk(l, th.op.k, th.pred, th.layer)
  {
  }

  lemma StepsRight(l: SkipList, t: ThreadId, th: Thread, node: nat)
    requires th.pc == LoadSkip && th.maxLayer < |th.preds| == |th.succs| && SearcherOk(l, t, th)
    requires TargetOk(l, th.pred, th.layer, node) && Greater(l, th.op.k, node)
    ensures SearcherOk(l, t, th.(pred := node))
  {
    hide FoundOk;
    SameFound(l, th, th.(pred := node), th.layer + 1);
  }

  lemma RecorderKnows(maxHeight: nat, l: SkipList, t: ThreadId, th: Thread, node: nat, c: Choice)
    requires th.pc == LoadSkip && th.maxLayer < maxHeight == |th.preds| == |th.succs| && (th.isMarked ==> th.op.Remove?)
    requires SearcherOk(l, t, th) && TargetOk(l, th.pred, th.layer, node) && !Greater(l, th.op.k, node)
    requires th.isMarked ==> 0 < th.height
    ensures var th2 := Recorded(l, th, node);
            ThreadOk(maxHeight, l, t, if th.layer > 0 then th2.(layer := th.layer - 1) else Searched(th2, c))
  {
    hide FoundOk, HeldOk, ValidFrom, Searched, Recorded, ThreadOk;
    LayerFound(l, th, node);
    RecordedParts(l, th, node);
    var th2 := Recorded(l, th, node);
    if th.layer == 0 {
      SearchedKnows(maxHeight, l, t, th2, c);
    } else {
      SameFound(l, th2, th2.(layer := th.layer - 1), th.layer);
      PredBelow(l, th.op.k, th.pred, th.layer);
      SearchingOk(maxHeight, l, t, th2.(layer := th.layer - 1));
    }
  }

  lemma PredBelow(l: SkipList, key: Key, n: nat, layer: nat)
    requires PredOk(l, key, n, layer) && layer > 0
    ensures PredOk(l, key, n, layer - 1)
  {
  }

  lemma RecordedParts(l: SkipList, th: Thread, node: nat)
    requires th.layer < |th.preds| == |th.succs|
    ensures var th' := Recorded(l, th, node);
            && th'.pc == th.pc && th'.op == th.op && th'.maxLayer == th.maxLayer && th'.isMarked == th.isMarked && th'.node == th.node
            && th'.height == th.height && th'.pred == th.pred && th'.layer == th.layer && |th'.preds| == |th.preds| == |th'.succs|
  {
  }

  lemma NothingFound(l: SkipList, th: Thread)
    requires th.maxLayer < |th.preds| == |th.succs| && th.found == -1 && th.foundNode == NIL
    ensures FoundOk(l, th, th.maxLayer + 1)
  {
  }

  lemma HeightOfHead(maxHeight: nat, l: SkipList)
    requires IsNode(l, l.head) && NodeOk(maxHeight, l, l.head)
    ensures 0 < l.nodes[l.head].height <= maxHeight
  {
  }

  /** The victim of a remover that searches again is still in all its layers, so below the head. */
  lemma VictimHeight(maxHeight: nat, s: State, t: ThreadId)
    requires Inv(maxHeight, s) && t in s.threads && s.threads[t].isMarked && Searching(s.threads[t].pc)
    ensures 0 < s.threads[t].height && IsNode(s.list, s.list.head) && s.threads[t].height <= s.list.nodes[s.list.head].height
  {
    hide Inv, LayerOk, HeadOk, MembersOk, FoundOk, HeldOk, AdderOk, RemoverOk, GrowerOk, TargetOk;
    var th, l := s.threads[t], s.list;
    InvParts(maxHeight, s, t);
    NodeParts(maxHeight, s, th.node);
    NoHigherThanHead(l, th.node, th.height - 1);
  }

  lemma SearchedKnows(maxHeight: nat, l: SkipList, t: ThreadId, th: Thread, c: Choice)
    requires th.maxLayer < maxHeight == |th.preds| == |th.succs| && FoundOk(l, th, 0) && !th.op.Find?
    requires th.isMarked ==> th.op.Remove? && VictimOk(l, t, th, th.height) && 0 < th.height <= th.maxLayer + 1
    ensures ThreadOk(maxHeight, l, t, Searched(th, c))
  {
    hide Found, LockerOk, AdderOk, RemoverOk, VictimOk;
    var th' := Searched(th, c);
    if th'.pc == LockPred {
      SameVictim(l, t, th, th'.(height := th.height), th.height);
      StartsLocking(l, t, th, th');
    } else if th'.pc == CheckFound {
      assert AdderOk(l, t, th') by { StartsChecking(l, t, th, th'); }
    } else if th'.pc == CheckLinked {
      SameFound(l, th, th', 0);
      assert RemoverOk(l, t, th') by { StartsChoosing(l, t, th'); }
    }
  }

  lemma StartsLocking(l: SkipList, t: ThreadId, th: Thread, th': Thread)
    requires th.maxLayer < |th.preds| == |th.succs| && FoundOk(l, th, 0)
    requires th' == th.(pc := LockPred, k := 0, held := {}, height := th'.height) && 0 < th'.height <= th.maxLayer + 1
    requires th.op.Add? ==> th.found == -1
    requires !th.op.Add? ==> th.op.Remove? && th.isMarked && VictimOk(l, t, th', th'.height)
    ensures LockerOk(l, t, th')
  {
    hide FoundOk, VictimOk;
    SameFound(l, th, th', 0);
  }

  lemma StartsChecking(l: SkipList, t: ThreadId, th: Thread, th': Thread)
    requires th.maxLayer < |th.preds| == |th.succs| && FoundOk(l, th, 0) && th.found >= 0 && th.op.Add? && th' == th.(pc := CheckFound)
    ensures AdderOk(l, t, th')
  {
  }

  lemma StartsChoosing(l: SkipList, t: ThreadId, th: Thread)
    requires th.maxLayer < |th.preds| == |th.succs| && FoundOk(l, th, 0) && th.found >= 0 && th.op.Remove? && !th.isMarked
    requires th.pc == CheckLinked
    ensures RemoverOk(l, t, th)
  {
    hide FoundOk;
  }

  lemma SameFound(l: SkipList, th: Thread, th': Thread, from: nat)
    requires th'.preds == th.preds && th'.succs == th.succs && th'.maxLayer == th.maxLayer && th'.op == th.op && th'.found == th.found
    requires th'.foundNode == th.foundNode && th.maxLayer < |th.preds| == |th.succs| && FoundOk(l, th, from)
    ensures FoundOk(l, th', from)
  {
    forall layer: nat | from <= layer <= th.maxLayer ensures Found(l, th', layer) {
      assert Found(l, th, layer);
    }
  }

  lemma LockingOk(maxHeight: nat, l: SkipList, t: ThreadId, th: Thread)
    requires Locking(th.pc) && Fits(maxHeight, th) && LockerOk(l, t, th)
    ensures ThreadOk(maxHeight, l, t, th)
  {
    hide LockerOk;
  }

  /** The predecessor is locked already, for the layer below. */
  lemma PredShared(maxHeight: nat, l: SkipList, t: ThreadId, th: Thread)
    requires th.pc == LockPred && Fits(maxHeight, th) && LockerOk(l, t, th) && th.preds[th.k] in th.held
    ensures LockerOk(l, t, th.(pc := CheckPred))
  {
    hide FoundOk, ValidFrom, HeldOk, VictimOk;
    var th' := th.(pc := CheckPred);
    SameFound(l, th, th', 0);
    SameValid(l, t, th, th', 0, th.k);
    SameHeld(l, t, th, th');
    SameVictim(l, t, th, th', th.height);
  }

  lemma SameHeld(l: SkipList, t: ThreadId, th: Thread, th': Thread)
    requires HeldOk(l, t, th) && th'.held <= th.held && th'.op == th.op
    ensures HeldOk(l, t, th')
  {
  }

  /** l' is l with one free lock taken by t. */
  predicate Taken(l: SkipList, l': SkipList, t: ThreadId, n: nat) {
    IsNode(l, n) && l.nodes[n].lock.Free? && l' == Put(l, n, l.nodes[n].(lock := By(t)))
  }

  lemma TakenHeld(l: SkipList, l': SkipList, t: ThreadId, n: nat, th: Thread)
    requires Taken(l, l', t, n) && HeldOk(l, t, th) && (l.nodes[n].isHead || l.nodes[n].key < th.op.k)
    ensures HeldOk(l', t, th.(pc := CheckPred, held := th.held + {n}))
  {
  }

  lemma TakenValid(l: SkipList, l': SkipList, t: ThreadId, n: nat, th: Thread, th': Thread, to: nat)
    requires Taken(l, l', t, n) && to <= |th.preds| == |th.succs| && ValidFrom(l, t, th, 0, to)
    requires th'.preds == th.preds && th'.succs == th.succs
    ensures ValidFrom(l', t, th', 0, to)
  {
    forall layer: nat | layer < to ensures Valid(l', t, th'.preds[layer], layer, th'.succs[layer]) {
      assert Valid(l, t, th.preds[layer], layer, th.succs[layer]);
    }
  }

  lemma TakenVictim(l: SkipList, l': SkipList, t: ThreadId, n: nat, th: Thread, th': Thread, levels: nat)
    requires Taken(l, l', t, n) && VictimOk(l, t, th, levels) && th'.node == th.node && th'.op == th.op && th'.height == th.height
    ensures VictimOk(l', t, th', levels)
  {
  }

  /** The lock of one predecessor, once it is free. */
  lemma PredTaken(maxHeight: nat, l: SkipList, l': SkipList, t: ThreadId, th: Thread)
    requires th.pc == LockPred && Fits(maxHeight, th) && LockerOk(l, t, th) && Taken(l, l', t, th.preds[th.k])
    requires Evolves(t, l, l')
    ensures LockerOk(l', t, th.(pc := CheckPred, held := th.held + {th.preds[th.k]}))
  {
    hide FoundOk, ValidFrom, HeldOk, VictimOk, Evolves, Taken;
    var th' := th.(pc := CheckPred, held := th.held + {th.preds[th.k]});
    FoundStays(t, l, l', th, 0);
    SameFound(l', th, th', 0);
    TakenValid(l, l', t, th.preds[th.k], th, th', th.k);
    FoundAt(l, th, th.k);
    TakenHeld(l, l', t, th.preds[th.k], th);
    if th.op.Remove? {
      TakenVictim(l, l', t, th.preds[th.k], th, th', th.height);
    }
  }

  lemma OneMoreValid(l: SkipList, t: ThreadId, th: Thread, k: nat)
    requires k < |th.preds| == |th.succs| && ValidFrom(l, t, th, 0, k) && Valid(l, t, th.preds[k], k, th.succs[k])
    ensures ValidFrom(l, t, th, 0, k + 1)
  {
  }

  lemma SameValid(l: SkipList, t: ThreadId, th: Thread, th': Thread, from: nat, to: nat)
    requires th'.preds == th.preds && th'.succs == th.succs && to <= |th.preds| == |th.succs| && ValidFrom(l, t, th, from, to)
    ensures ValidFrom(l, t, th', from, to)
  {
  }

  lemma LayerValidated(maxHeight: nat, l: SkipList, t: ThreadId, th: Thread)
    requires Locking(th.pc) && Fits(maxHeight, th) && LockerOk(l, t, th) && Valid(l, t, th.preds[th.k], th.k, th.succs[th.k])
    requires th.preds[th.k] in th.held
    ensures ThreadOk(maxHeight, l, t, LayerIsValid(th))
  {
    hide FoundOk, ValidFrom, HeldOk, VictimOk, AdderOk, RemoverOk, LockerOk;
    var th' := LayerIsValid(th);
    LockerBelow(l, t, th);
    if th'.pc == LockPred {
      NextLayer(l, t, th, th');
    } else if th'.pc == Create {
      StartsAdding(l, t, th, th');
    } else if th'.pc == LoadVictim {
      StartsUnlinking(l, t, th, th');
    }
  }

  lemma LockerBelow(l: SkipList, t: ThreadId, th: Thread)
    requires Locking(th.pc) && th.maxLayer < |th.preds| == |th.succs| && LockerOk(l, t, th)
    ensures th.k < th.height <= th.maxLayer + 1
  {
    hide FoundOk, ValidFrom, HeldOk, VictimOk;
  }

  lemma NextLayer(l: SkipList, t: ThreadId, th: Thread, th': Thread)
    requires Locking(th.pc) && th.maxLayer < |th.preds| == |th.succs| && LockerOk(l, t, th)
    requires Valid(l, t, th.preds[th.k], th.k, th.succs[th.k]) && th.preds[th.k] in th.held
    requires th.k + 1 < th.height && th' == th.(pc := LockPred, k := th.k + 1)
    ensures LockerOk(l, t, th')
  {
    hide FoundOk, ValidFrom, HeldOk, VictimOk, Valid;
    SameFound(l, th, th', 0);
    OneMoreValid(l, t, th, th.k);
    SameValid(l, t, th, th', 0, th.k + 1);
    SameHeld(l, t, th, th');
    SameVictim(l, t, th, th', th.height);
  }

  lemma SameVictim(l: SkipList, t: ThreadId, th: Thread, th': Thread, levels: nat)
    requires th'.node == th.node && th'.op == th.op && th'.height == th.height
    ensures VictimOk(l, t, th', levels) == VictimOk(l, t, th, levels)
  {
  }

  lemma StartsAdding(l: SkipList, t: ThreadId, th: Thread, th': Thread)
    requires Locking(th.pc) && th.maxLayer < |th.preds| == |th.succs| && LockerOk(l, t, th)
    requires Valid(l, t, th.preds[th.k], th.k, th.succs[th.k]) && th.preds[th.k] in th.held
    requires th.k + 1 == th.height && th' == th.(pc := Create, k := 0) && th.op.Add?
    ensures AdderOk(l, t, th')
  {
    hide FoundOk, ValidFrom, HeldOk, VictimOk, Valid;
    SameFound(l, th, th', 0);
    OneMoreValid(l, t, th, th.k);
    SameValid(l, t, th, th', 0, th.k + 1);
    SameHeld(l, t, th, th');
  }

  lemma StartsUnlinking(l: SkipList, t: ThreadId, th: Thread, th': Thread)
    requires Locking(th.pc) && th.maxLayer < |th.preds| == |th.succs| && LockerOk(l, t, th)
    requires Valid(l, t, th.preds[th.k], th.k, th.succs[th.k]) && th.preds[th.k] in th.held
    requires th.k + 1 == th.height && th' == th.(pc := LoadVictim) && !th.op.Add?
    ensures RemoverOk(l, t, th')
  {
    hide FoundOk, ValidFrom, HeldOk, VictimOk, Valid;
    SameFound(l, th, th', 0);
    OneMoreValid(l, t, th, th.k);
    SameValid(l, t, th, th', 0, th.k + 1);
    SameHeld(l, t, th, th');
    SameVictim(l, t, th, th', th.height);
  }

  lemma FailerKnows(maxHeight: nat, l: SkipList, t: ThreadId, th: Thread)
    requires Locking(th.pc) && Fits(maxHeight, th) && LockerOk(l, t, th)
    ensures ThreadOk(maxHeight, l, t, Fails(th))
  {
    hide FoundOk, ValidFrom, HeldOk, VictimOk;
    SameHeld(l, t, th, Fails(th));
    SameVictim(l, t, th, Fails(th), th.height);
  }

  lemma StillLocking(maxHeight: nat, l: SkipList, t: ThreadId, th: Thread, pc: Pc)
    requires Locking(th.pc) && Fits(maxHeight, th) && LockerOk(l, t, th) && th.preds[th.k] in th.held
    requires pc in {CheckSkip, CheckSucc} && IsNode(l, th.preds[th.k]) && !l.nodes[th.preds[th.k]].marked
    requires pc == CheckSucc ==> Valid(l, t, th.preds[th.k], th.k, th.succs[th.k])
    ensures ThreadOk(maxHeight, l, t, th.(pc := pc))
  {
    hide FoundOk, ValidFrom, HeldOk, VictimOk, Valid;
    var th' := th.(pc := pc);
    SameFound(l, th, th', 0);
    SameValid(l, t, th, th', 0, th.k);
    SameHeld(l, t, th, th');
    SameVictim(l, t, th, th', th.height);
  }

  lemma SkipChecked(l: SkipList, t: ThreadId, th: Thread)
    requires Locking(th.pc) && th.maxLayer < |th.preds| == |th.succs| && LockerOk(l, t, th)
    ensures HasLayer(l, th.preds[th.k], th.k) && th.pc == CheckSkip && l.nodes[th.preds[th.k]].skip[th.k] == th.succs[th.k] ==>
      th.preds[th.k] in th.held && Valid(l, t, th.preds[th.k], th.k, th.succs[th.k])
    ensures th.pc == CheckSucc ==> th.preds[th.k] in th.held && Valid(l, t, th.preds[th.k], th.k, th.succs[th.k])
    ensures th.pc == CheckPred ==> th.preds[th.k] in th.held
    ensures th.pc == LockPred && th.k > 0 && th.preds[th.k] == th.preds[th.k - 1] ==> th.preds[th.k] in th.held
  {
    hide ValidFrom, VictimOk;
    FoundAt(l, th, th.k);
  }

  lemma LockerKnows(maxHeight: nat, l: SkipList, t: ThreadId, th: Thread)
    requires InRange(l, th) && Locking(th.pc) && Fits(maxHeight, th) && LockerOk(l, t, th)
    requires Evolves(t, l, LockStep(l, t, th).list)
    ensures var e := LockStep(l, t, th); ThreadOk(maxHeight, e.list, t, e.th)
  {
    hide ThreadOk, Evolves, LayerIsValid, LockerOk, Fails, Valid;
    var e := LockStep(l, t, th);
    SkipChecked(l, t, th);
    if th.pc == LockPred {
      if th.k > 0 && th.preds[th.k] == th.preds[th.k - 1] {
        PredShared(maxHeight, l, t, th);
      } else if l.nodes[th.preds[th.k]].lock.Free? {
        PredTaken(maxHeight, l, e.list, t, th);
      }
      LockingOk(maxHeight, e.list, t, e.th);
    } else if th.pc == CheckPred && !l.nodes[th.preds[th.k]].marked {
      StillLocking(maxHeight, l, t, th, CheckSkip);
    } else if th.pc == CheckSkip && l.nodes[th.preds[th.k]].skip[th.k] == th.succs[th.k] {
      if th.op.Add? && th.succs[th.k] != NIL {
        IsUnmarked(l, t, th);
        StillLocking(maxHeight, l, t, th, CheckSucc);
      } else {
        LayerValidated(maxHeight, l, t, th);
      }
    } else if th.pc == CheckSucc && !(IsNode(l, th.succs[th.k]) && l.nodes[th.succs[th.k]].marked) {
      LayerValidated(maxHeight, l, t, th);
    } else {
      FailerKnows(maxHeight, l, t, th);
    }
  }

  lemma IsUnmarked(l: SkipList, t: ThreadId, th: Thread)
    requires th.k < |th.preds| == |th.succs| && Valid(l, t, th.preds[th.k], th.k, th.succs[th.k])
    ensures IsNode(l, th.preds[th.k]) && !l.nodes[th.preds[th.k]].marked
  {
  }

  lemma ReleaseIs(l: SkipList, th: Thread, c: Choice)
    ensures var e := ReleaseStep(l, th, c);
            || (c.node in th.held && IsNode(l, c.node) && e.list == Put(l, c.node, l.nodes[c.node].(lock := Free))
                && e.th == th.(held := th.held - {c.node}))
            || (e.list == l && e.th == th)
            || (e.list == l && th.held == {} && e.th == th.(pc := if !th.done then LoadMaxLayer else if th.op.Add? then GrowHeight else ReleaseVictim))
  {
  }

  /** A guard is given up; the victim's lock is none of them. */
  lemma ReleaserKnows(maxHeight: nat, l: SkipList, t: ThreadId, th: Thread, c: Choice)
    requires InRange(l, th) && th.pc == Release && Fits(maxHeight, th) && ReleaserOk(l, t, th)
    ensures var e := ReleaseStep(l, th, c); ThreadOk(maxHeight, e.list, t, e.th)
  {
    hide LockerOk, ReleaseStep, InRange;
    ReleaseIs(l, th, c);
  }

  /** l' differs from l in node x only, and perhaps in new nodes. */
  ghost predicate OnlyChanges(l: SkipList, l': SkipList, x: nat) {
    |l.nodes| <= |l'.nodes| && forall n: nat | IsNode(l, n) && n != x :: l'.nodes[n] == l.nodes[n]
  }

  lemma PutChanges(l: SkipList, x: nat, node: Node, size: int)
    requires IsNode(l, x)
    ensures OnlyChanges(l, Put(l, x, node).(size := size), x)
  {
  }

  lemma NewChanges(l: SkipList, node: Node)
    ensures OnlyChanges(l, l.(nodes := l.nodes + [node]), |l.nodes|)
  {
  }

  lemma KeptValid(l: SkipList, l': SkipList, x: nat, t: ThreadId, th: Thread, from: nat, to: nat)
    requires OnlyChanges(l, l', x) && to <= th.maxLayer + 1 <= |th.preds| == |th.succs| && ValidFrom(l, t, th, from, to) && FoundOk(l, th, 0)
    requires IsNode(l, x) ==> !l.nodes[x].isHead && l.nodes[x].key == th.op.k
    ensures ValidFrom(l', t, th, from, to)
  {
    forall layer: nat | from <= layer < to ensures Valid(l', t, th.preds[layer], layer, th.succs[layer]) {
      assert Valid(l, t, th.preds[layer], layer, th.succs[layer]) && Found(l, th, layer);
    }
  }

  lemma KeptHeld(l: SkipList, l': SkipList, x: nat, t: ThreadId, th: Thread)
    requires OnlyChanges(l, l', x) && HeldOk(l, t, th)
    requires IsNode(l, x) ==> !l.nodes[x].isHead && l.nodes[x].key == th.op.k
    ensures HeldOk(l', t, th)
  {
  }

  lemma KeptLinkedBelow(l: SkipList, l': SkipList, x: nat, t: ThreadId, th: Thread)
    requires OnlyChanges(l, l', x) && 0 < |th.preds| && LinkedBelow(l, t, th) && HeldOk(l, t, th)
    requires IsNode(l, x) ==> !l.nodes[x].isHead && l.nodes[x].key == th.op.k
    requires IsNode(l', th.node) && !l'.nodes[th.node].isHead
    ensures LinkedBelow(l', t, th)
  {
  }

  /** The node is made. */
  lemma CreatorKnows(l: SkipList, t: ThreadId, th: Thread)
    requires InRange(l, th) && th.pc == Create && th.maxLayer < |th.preds| == |th.succs| && AdderOk(l, t, th)
    requires Evolves(t, l, AddStep(l, t, th).list)
    ensures var e := AddStep(l, t, th); AdderOk(e.list, t, e.th)
  {
    hide FoundOk, ValidFrom, HeldOk, Evolves, OnlyChanges;
    var e := AddStep(l, t, th);
    NewChanges(l, NewNode(th.height, th.op.k, false, t));
    FoundStays(t, l, e.list, th, 0);
    SameFound(e.list, th, e.th, 0);
    KeptValid(l, e.list, |l.nodes|, t, th, th.k, th.height);
    SameValid(e.list, t, th, e.th, th.k, th.height);
    KeptHeld(l, e.list, |l.nodes|, t, th);
    SameHeld(e.list, t, th, e.th);
  }

  /** Its pointer in one layer is set. */
  lemma SetterKnows(maxHeight: nat, l: SkipList, t: ThreadId, th: Thread)
    requires InRange(l, th) && th.pc == SetNew && th.maxLayer < |th.preds| == |th.succs| && AdderOk(l, t, th)
    requires NodeOk(maxHeight, l, th.node)
    requires Evolves(t, l, AddStep(l, t, th).list)
    ensures var e := AddStep(l, t, th); AdderOk(e.list, t, e.th)
  {
    hide FoundOk, ValidFrom, HeldOk, Evolves, OnlyChanges, TargetOk, LinkedBelow;
    var e := AddStep(l, t, th);
    PutChanges(l, th.node, e.list.nodes[th.node], l.size);
    FoundStays(t, l, e.list, th, 0);
    SameFound(e.list, th, e.th, 0);
    KeptValid(l, e.list, th.node, t, th, th.k, th.height);
    SameValid(e.list, t, th, e.th, th.k, th.height);
    KeptHeld(l, e.list, th.node, t, th);
    SameHeld(e.list, t, th, e.th);
    if th.k > 0 {
      KeptLinkedBelow(l, e.list, th.node, t, th);
      SameLinkedBelow(e.list, t, th, e.th);
    }
  }

  lemma SameLinkedBelow(l: SkipList, t: ThreadId, th: Thread, th': Thread)
    requires th'.preds == th.preds && th'.node == th.node && th'.held == th.held && 0 < |th.preds|
    ensures LinkedBelow(l, t, th') == LinkedBelow(l, t, th)
  {
  }

  /** l' is l with the pointer of p in one layer set to next, and only the levels of x changed. */
  ghost predicate Relinked(l: SkipList, l': SkipList, p: nat, layer: nat, next: nat, x: nat) {
    && HasLayer(l, p, layer) && IsNode(l, x) && p != x && |l.nodes| == |l'.nodes|
    && (forall n: nat | IsNode(l, n) && n != x && n != p :: l'.nodes[n] == l.nodes[n])
    && l'.nodes[p] == l.nodes[p].(skip := l.nodes[p].skip[layer := next])
    && l'.nodes[x] == l.nodes[x].(levels := l'.nodes[x].levels, top := l'.nodes[x].top)
  }

  lemma RelinkedValid(l: SkipList, l': SkipList, p: nat, layer: nat, next: nat, x: nat, t: ThreadId, n: nat, i: nat, m: nat)
    requires Relinked(l, l', p, layer, next, x) && n != x && Valid(l, t, n, i, m) && !(n == p && i == layer)
    ensures Valid(l', t, n, i, m)
  {
  }

  lemma RelinkedHeld(l: SkipList, l': SkipList, p: nat, layer: nat, next: nat, x: nat, t: ThreadId, th: Thread)
    requires Relinked(l, l', p, layer, next, x) && HeldOk(l, t, th)
    ensures HeldOk(l', t, th)
  {
  }

  lemma RelinkedValidFrom(
      l: SkipList, l': SkipList, p: nat, layer: nat, next: nat, x: nat, t: ThreadId, th: Thread, from: nat, to: nat)
    requires Relinked(l, l', p, layer, next, x) && to <= th.maxLayer + 1 <= |th.preds| == |th.succs|
    requires ValidFrom(l, t, th, from, to) && FoundOk(l, th, 0) && (layer < from || to <= layer)
    requires !l.nodes[x].isHead && l.nodes[x].key == th.op.k
    ensures ValidFrom(l', t, th, from, to)
  {
    hide Relinked, FoundOk, Valid;
    forall i: nat | from <= i < to ensures Valid(l', t, th.preds[i], i, th.succs[i]) {
      FoundAt(l, th, i);
      assert Valid(l, t, th.preds[i], i, th.succs[i]);
      RelinkedValid(l, l', p, layer, next, x, t, th.preds[i], i, th.succs[i]);
    }
  }

  lemma LinkRelinks(l: SkipList, t: ThreadId, th: Thread)
    requires InRange(l, th) && th.pc == Link && th.preds[th.k] != th.node
    ensures var l' := AddStep(l, t, th).list;
            && Relinked(l, l', th.preds[th.k], th.k, th.node, th.node)
            && l'.nodes[th.node].levels == th.k + 1 && l'.nodes[th.node].top == th.k + 1
  {
  }

  lemma RelinkedNode(l: SkipList, l': SkipList, p: nat, layer: nat, next: nat, x: nat)
    requires Relinked(l, l', p, layer, next, x)
    ensures IsNode(l', x) && l'.nodes[x] == l.nodes[x].(levels := l'.nodes[x].levels, top := l'.nodes[x].top)
    ensures IsNode(l', p) && l'.nodes[p] == l.nodes[p].(skip := l.nodes[p].skip[layer := next])
  {
  }

  /** The lowest link, made just now or still there. */
  lemma LinkedBelowNow(l: SkipList, l': SkipList, t: ThreadId, th: Thread)
    requires th.k < |th.preds| == |th.succs| && Relinked(l, l', th.preds[th.k], th.k, th.node, th.node)
    requires !l.nodes[th.node].isHead && th.preds[0] != th.node && th.preds[0] in th.held
    requires if th.k == 0 then Valid(l, t, th.preds[0], 0, th.succs[0]) else LinkedBelow(l, t, th)
    ensures LinkedBelow(l', t, th)
  {
    hide Relinked;
    RelinkedNode(l, l', th.preds[th.k], th.k, th.node, th.node);
    if th.k > 0 {
      RelinkedValid(l, l', th.preds[th.k], th.k, th.node, th.node, t, th.preds[0], 0, th.node);
    }
  }

  /** The node is linked in one more layer. */
  lemma LinkerKnows(l: SkipList, t: ThreadId, th: Thread)
    requires InRange(l, th) && th.pc == Link && th.maxLayer < |th.preds| == |th.succs| && AdderOk(l, t, th)
    requires Evolves(t, l, AddStep(l, t, th).list)
    ensures var e := AddStep(l, t, th); AdderOk(e.list, t, e.th)
  {
    hide FoundOk, ValidFrom, HeldOk, Evolves, LinkedBelow, AddStep, AdderOk, NewOk;
    LinkerParts(l, t, th);
    AfterLink(l, t, th);
    LinkGoesOn(l, t, th);
    LinkedOk(AddStep(l, t, th).list, t, th, AddStep(l, t, th).th);
  }

  lemma AfterLink(l: SkipList, t: ThreadId, th: Thread)
    requires InRange(l, th) && th.pc == Link && th.maxLayer < |th.preds| == |th.succs| && AdderOk(l, t, th)
    requires Evolves(t, l, AddStep(l, t, th).list)
    ensures var l' := AddStep(l, t, th).list;
            && FoundOk(l', th, 0) && HeldOk(l', t, th) && th.height <= |th.preds| && ValidFrom(l', t, th, th.k + 1, th.height)
            && LinkedBelow(l', t, th) && NewOk(l', t, th, th.k + 1)
  {
    hide FoundOk, ValidFrom, HeldOk, Evolves, Relinked, LinkedBelow, Valid, AddStep, AdderOk, NewOk;
    var l', p, x, k := AddStep(l, t, th).list, th.preds[th.k], th.node, th.k;
    LinkerParts(l, t, th);
    LinkRelinks(l, t, th);
    RelinkedNode(l, l', p, k, x, x);
    ValidAt(l, t, th, k, th.height, k);
    FoundStays(t, l, l', th, 0);
    GuardsAfterLink(l, t, th);
    LinkedBelowNow(l, l', t, th);
    NewOneHigher(l, l', t, th);
  }

  lemma GuardsAfterLink(l: SkipList, t: ThreadId, th: Thread)
    requires InRange(l, th) && th.pc == Link && th.maxLayer < |th.preds| == |th.succs| && AdderOk(l, t, th)
    ensures var l' := AddStep(l, t, th).list;
            HeldOk(l', t, th) && th.height <= |th.preds| && ValidFrom(l', t, th, th.k + 1, th.height)
  {
    hide FoundOk, ValidFrom, HeldOk, Evolves, Relinked, LinkedBelow, Valid, AddStep, AdderOk, NewOk;
    var l', p, x, k := AddStep(l, t, th).list, th.preds[th.k], th.node, th.k;
    LinkerParts(l, t, th);
    LinkRelinks(l, t, th);
    RelinkedNode(l, l', p, k, x, x);
    RelinkedHeld(l, l', p, k, x, x, t, th);
    ShorterValid(l, t, th, k, k + 1, th.height);
    RelinkedValidFrom(l, l', p, k, x, x, t, th, k + 1, th.height);
    ValidAt(l, t, th, k, th.height, k);
  }

  lemma LinkerParts(l: SkipList, t: ThreadId, th: Thread)
    requires th.pc == Link && th.maxLayer < |th.preds| == |th.succs| && AdderOk(l, t, th)
    ensures th.k < th.height <= th.maxLayer + 1 && FoundOk(l, th, 0) && th.found == -1 && HeldOk(l, t, th) && th.op.Add?
    ensures ValidFrom(l, t, th, th.k, th.height) && th.preds[0] in th.held && NewOk(l, t, th, th.k)
    ensures th.k > 0 ==> LinkedBelow(l, t, th)
    ensures IsNode(l, th.node) && !l.nodes[th.node].isHead && l.nodes[th.node].key == th.op.k
    ensures th.preds[th.k] != th.node && th.preds[0] != th.node
  {
    hide ValidFrom, HeldOk, LinkedBelow;
    FoundAt(l, th, th.k);
    FoundAt(l, th, 0);
  }

  lemma NewOneHigher(l: SkipList, l': SkipList, t: ThreadId, th: Thread)
    requires NewOk(l, t, th, th.k) && IsNode(l', th.node)
    requires l'.nodes[th.node] == l.nodes[th.node].(levels := th.k + 1, top := th.k + 1)
    ensures NewOk(l', t, th, th.k + 1)
  {
  }

  lemma LinkedOk(l: SkipList, t: ThreadId, th: Thread, th': Thread)
    requires th.pc == Link && th.maxLayer < |th.preds| == |th.succs|
    requires th.k < th.height <= th.maxLayer + 1 && th.op.Add? && th.found == -1 && th.preds[0] in th.held
    requires FoundOk(l, th, 0) && HeldOk(l, t, th) && ValidFrom(l, t, th, th.k + 1, th.height)
    requires LinkedBelow(l, t, th) && NewOk(l, t, th, th.k + 1)
    requires th' == if th.k + 1 < th.height then th.(pc := SetNew, k := th.k + 1) else th.(pc := LoadLinked)
    ensures AdderOk(l, t, th')
  {
    hide FoundOk, ValidFrom, HeldOk, LinkedBelow, NewOk;
    SameFound(l, th, th', 0);
    SameHeld(l, t, th, th');
    SameValid(l, t, th, th', th.k + 1, th.height);
    SameLinkedBelow(l, t, th, th');
    SameNew(l, t, th, th', th.k + 1);
  }

  lemma LinkGoesOn(l: SkipList, t: ThreadId, th: Thread)
    requires InRange(l, th) && th.pc == Link
    ensures AddStep(l, t, th).th == if th.k + 1 < th.height then th.(pc := SetNew, k := th.k + 1) else th.(pc := LoadLinked)
  {
  }

  lemma SameNew(l: SkipList, t: ThreadId, th: Thread, th': Thread, levels: nat)
    requires th'.node == th.node && th'.op == th.op && th'.height == th.height
    ensures NewOk(l, t, th', levels) == NewOk(l, t, th, levels)
  {
  }

  lemma ShorterValid(l: SkipList, t: ThreadId, th: Thread, from: nat, from': nat, to: nat)
    requires from <= from' <= to <= |th.preds| == |th.succs| && ValidFrom(l, t, th, from, to)
    ensures ValidFrom(l, t, th, from', to)
  {
  }

  lemma ValidAt(l: SkipList, t: ThreadId, th: Thread, from: nat, to: nat, layer: nat)
    requires to <= |th.preds| == |th.succs| && ValidFrom(l, t, th, from, to) && from <= layer < to
    ensures Valid(l, t, th.preds[layer], layer, th.succs[layer])
  {
  }

  /** The node is marked as linked, and counted. */
  lemma FinisherKnows(maxHeight: nat, l: SkipList, t: ThreadId, th: Thread)
    requires InRange(l, th) && th.pc in {LoadLinked, StoreLinked} && th.maxLayer < |th.preds| == |th.succs| && AdderOk(l, t, th)
    ensures var e := AddStep(l, t, th); AdderOk(e.list, t, e.th)
  {
    hide FoundOk, ValidFrom, HeldOk, OnlyChanges, LinkedBelow;
    var e := AddStep(l, t, th);
    if th.pc == StoreLinked {
      PutChanges(l, th.node, e.list.nodes[th.node], l.size);
      KeptHeld(l, e.list, th.node, t, th);
      KeptLinkedBelow(l, e.list, th.node, t, th);
    }
    SameHeld(e.list, t, th, e.th);
    SameLinkedBelow(e.list, t, th, e.th);
  }

  lemma CounterKnows(maxHeight: nat, l: SkipList, t: ThreadId, th: Thread)
    requires InRange(l, th) && th.pc == IncSize && Fits(maxHeight, th) && AdderOk(l, t, th)
    ensures var e := AddStep(l, t, th); ThreadOk(maxHeight, e.list, t, e.th)
  {
    hide FoundOk, ValidFrom, HeldOk, OnlyChanges, AddStep, InRange;
    var e := AddStep(l, t, th);
    CountIs(l, t, th);
    PutChanges(l, th.node, l.nodes[th.node].(counted := true), l.size + 1);
    SameHeld(l, t, th, e.th);
    KeptHeld(l, e.list, th.node, t, e.th);
  }

  lemma CountIs(l: SkipList, t: ThreadId, th: Thread)
    requires InRange(l, th) && th.pc == IncSize
    ensures var e := AddStep(l, t, th);
            && IsNode(l, th.node) && e.list == Put(l, th.node, l.nodes[th.node].(counted := true)).(size := l.size + 1)
            && e.th == th.(pc := Release, done := true, answer := Added(th.node, l.size + 1))
  {
  }

  lemma IdleOk(maxHeight: nat, l: SkipList, t: ThreadId, th: Thread)
    requires th.pc == Idle && Fits(maxHeight, th)
    ensures ThreadOk(maxHeight, l, t, th)
  {
  }

  lemma AddingOk(maxHeight: nat, l: SkipList, t: ThreadId, th: Thread)
    requires Adding(th.pc) && Fits(maxHeight, th) && AdderOk(l, t, th)
    ensures ThreadOk(maxHeight, l, t, th)
  {
    hide AdderOk;
  }

  lemma RemovingOk(maxHeight: nat, l: SkipList, t: ThreadId, th: Thread)
    requires Removing(th.pc) && Fits(maxHeight, th) && RemoverOk(l, t, th)
    ensures ThreadOk(maxHeight, l, t, th)
  {
    hide RemoverOk;
  }

  lemma CheckIs(l: SkipList, t: ThreadId, th: Thread)
    requires InRange(l, th) && th.pc in {CheckFound, WaitLinked}
    ensures var e := AddStep(l, t, th);
            e.list == l && (e.th == th.(pc := LoadMaxLayer) || e.th == th.(pc := WaitLinked) || e.th == th.Answers(Present(th.foundNode)))
  {
  }

  lemma CheckerKnows(maxHeight: nat, l: SkipList, t: ThreadId, th: Thread)
    requires InRange(l, th) && th.pc in {CheckFound, WaitLinked} && Fits(maxHeight, th) && AdderOk(l, t, th)
    ensures var e := AddStep(l, t, th); e.list == l && ThreadOk(maxHeight, l, t, e.th)
  {
    hide FoundOk, ValidFrom, HeldOk, AddStep, InRange, ThreadOk;
    CheckIs(l, t, th);
    var th' := AddStep(l, t, th).th;
    if th'.pc == Idle {
      IdleOk(maxHeight, l, t, th');
    } else if th'.pc == WaitLinked {
      AddingOk(maxHeight, l, t, th');
    } else {
      SearchingOk(maxHeight, l, t, th');
    }
  }

  lemma AdderKnows(maxHeight: nat, l: SkipList, t: ThreadId, th: Thread)
    requires InRange(l, th) && Adding(th.pc) && Fits(maxHeight, th) && AdderOk(l, t, th)
    requires th.pc == SetNew ==> NodeOk(maxHeight, l, th.node)
    requires Evolves(t, l, AddStep(l, t, th).list)
    ensures var e := AddStep(l, t, th); ThreadOk(maxHeight, e.list, t, e.th)
  {
    hide AddStep, AdderOk, Evolves, NodeOk;
    if th.pc in {CheckFound, WaitLinked} {
      CheckerKnows(maxHeight, l, t, th);
    } else if th.pc == IncSize {
      CounterKnows(maxHeight, l, t, th);
    } else {
      if th.pc == Create {
        CreatorKnows(l, t, th);
      } else if th.pc == SetNew {
        SetterKnows(maxHeight, l, t, th);
      } else if th.pc == Link {
        LinkerKnows(l, t, th);
      } else {
        FinisherKnows(maxHeight, l, t, th);
      }
      AdderGoesOn(maxHeight, l, t, th);
    }
  }

  lemma AdderGoesOn(maxHeight: nat, l: SkipList, t: ThreadId, th: Thread)
    requires InRange(l, th) && th.pc in {Create, SetNew, Link, LoadLinked, StoreLinked} && Fits(maxHeight, th)
    requires var e := AddStep(l, t, th); |e.th.preds| == |e.th.succs| && e.th.maxLayer < |e.th.preds| ==> AdderOk(e.list, t, e.th)
    ensures var e := AddStep(l, t, th); ThreadOk(maxHeight, e.list, t, e.th)
  {
    hide AdderOk, AddStep, InRange;
    StillAdding(l, t, th);
  }

  lemma StillAdding(l: SkipList, t: ThreadId, th: Thread)
    requires InRange(l, th) && th.pc in {Create, SetNew, Link, LoadLinked, StoreLinked}
    ensures var th' := AddStep(l, t, th).th;
            && th'.pc in {SetNew, Link, LoadLinked, StoreLinked, IncSize}
            && th'.maxLayer == th.maxLayer && |th'.preds| == |th.preds| && |th'.succs| == |th.succs| && th'.isMarked == th.isMarked && th'.op == th.op
  {
  }

  lemma RemoverParts(l: SkipList, t: ThreadId, th: Thread)
    requires th.pc in {LoadVictim, Unlink} && th.maxLayer < |th.preds| == |th.succs| && RemoverOk(l, t, th)
    ensures th.k < th.height <= th.maxLayer + 1 && FoundOk(l, th, 0) && HeldOk(l, t, th) && th.op.Remove? && th.isMarked
    ensures ValidFrom(l, t, th, 0, th.k + 1) && VictimOk(l, t, th, th.k + 1)
    ensures th.preds[th.k] != th.node
  {
    hide ValidFrom, HeldOk;
    FoundAt(l, th, th.k);
  }

  lemma UnlinkIs(l: SkipList, t: ThreadId, th: Thread)
    requires InRange(l, th) && th.pc == Unlink && th.preds[th.k] != th.node
    ensures var e := RemoveStep(l, t, th);
            && Relinked(l, e.list, th.preds[th.k], th.k, th.tmp, th.node)
            && e.list.nodes[th.node].levels == th.k
            && e.th == if th.k > 0 then th.(pc := LoadVictim, k := th.k - 1) else th.(pc := DecSize)
  {
  }

  lemma VictimLower(l: SkipList, l': SkipList, t: ThreadId, th: Thread, levels: nat)
    requires VictimOk(l, t, th, levels) && IsNode(l', th.node)
    requires l'.nodes[th.node] == l.nodes[th.node].(levels := l'.nodes[th.node].levels, top := l'.nodes[th.node].top)
    ensures VictimOk(l', t, th, l'.nodes[th.node].levels)
  {
  }

  /** The victim is taken out of one more layer. */
  lemma UnlinkerKnows(l: SkipList, t: ThreadId, th: Thread)
    requires InRange(l, th) && th.pc == Unlink && th.maxLayer < |th.preds| == |th.succs| && RemoverOk(l, t, th)
    requires Evolves(t, l, RemoveStep(l, t, th).list)
    ensures var e := RemoveStep(l, t, th); RemoverOk(e.list, t, e.th)
  {
    hide FoundOk, ValidFrom, HeldOk, Evolves, Relinked, Valid, RemoveStep, RemoverOk, VictimOk;
    RemoverParts(l, t, th);
    UnlinkIs(l, t, th);
    var l', p, x, k := RemoveStep(l, t, th).list, th.preds[th.k], th.node, th.k;
    RelinkedNode(l, l', p, k, th.tmp, x);
    FoundStays(t, l, l', th, 0);
    RelinkedHeld(l, l', p, k, th.tmp, x, t, th);
    LessValid(l, t, th, k, k + 1);
    VictimIsNode(l, t, th, k + 1);
    RelinkedValidFrom(l, l', p, k, th.tmp, x, t, th, 0, k);
    VictimLower(l, l', t, th, k + 1);
    UnlinkedOk(l', t, th, RemoveStep(l, t, th).th);
  }

  lemma VictimIsNode(l: SkipList, t: ThreadId, th: Thread, levels: nat)
    requires VictimOk(l, t, th, levels)
    ensures IsNode(l, th.node) && !l.nodes[th.node].isHead && l.nodes[th.node].key == th.op.k
  {
  }

  lemma LessValid(l: SkipList, t: ThreadId, th: Thread, to: nat, to': nat)
    requires to <= to' <= |th.preds| == |th.succs| && ValidFrom(l, t, th, 0, to')
    ensures ValidFrom(l, t, th, 0, to)
  {
  }

  lemma UnlinkedOk(l: SkipList, t: ThreadId, th: Thread, th': Thread)
    requires th.pc == Unlink && th.maxLayer < |th.preds| == |th.succs|
    requires th.k < th.height <= th.maxLayer + 1 && th.op.Remove? && th.isMarked
    requires FoundOk(l, th, 0) && HeldOk(l, t, th) && ValidFrom(l, t, th, 0, th.k) && VictimOk(l, t, th, th.k)
    requires th' == if th.k > 0 then th.(pc := LoadVictim, k := th.k - 1) else th.(pc := DecSize)
    ensures RemoverOk(l, t, th')
  {
    hide FoundOk, ValidFrom, HeldOk, VictimOk;
    SameFound(l, th, th', 0);
    SameHeld(l, t, th, th');
    SameValid(l, t, th, th', 0, th.k);
    SameVictim(l, t, th, th', th.k);
  }

  lemma LoadIs(l: SkipList, t: ThreadId, th: Thread)
    requires InRange(l, th) && th.pc == LoadVictim
    ensures var e := RemoveStep(l, t, th);
            HasLayer(l, th.node, th.k) && e.list == l && e.th == th.(pc := Unlink, tmp := l.nodes[th.node].skip[th.k])
  {
  }

  /** The victim's next pointer is read. */
  lemma LoaderKnows(maxHeight: nat, l: SkipList, t: ThreadId, th: Thread)
    requires InRange(l, th) && th.pc == LoadVictim && th.maxLayer < |th.preds| == |th.succs| && RemoverOk(l, t, th)
    requires NodeOk(maxHeight, l, th.node)
    ensures var e := RemoveStep(l, t, th); e.list == l && RemoverOk(l, t, e.th)
  {
    hide FoundOk, ValidFrom, HeldOk, RemoveStep, VictimOk, RemoverOk, NodeOk;
    LoadIs(l, t, th);
    RemoverParts(l, t, th);
    NodeIsFull(maxHeight, l, th.node);
    LoadedOk(l, t, th, RemoveStep(l, t, th).th);
  }

  lemma LoadedOk(l: SkipList, t: ThreadId, th: Thread, th': Thread)
    requires th.pc == LoadVictim && th.maxLayer < |th.preds| == |th.succs| && HasLayer(l, th.node, th.k)
    requires th.k < th.height <= th.maxLayer + 1 && th.op.Remove? && th.isMarked && |l.nodes[th.node].skip| == l.nodes[th.node].height
    requires FoundOk(l, th, 0) && HeldOk(l, t, th) && ValidFrom(l, t, th, 0, th.k + 1) && VictimOk(l, t, th, th.k + 1)
    requires th' == th.(pc := Unlink, tmp := l.nodes[th.node].skip[th.k])
    ensures RemoverOk(l, t, th')
  {
    hide FoundOk, ValidFrom, HeldOk, VictimOk;
    SameFound(l, th, th', 0);
    SameHeld(l, t, th, th');
    SameValid(l, t, th, th', 0, th.k + 1);
    SameVictim(l, t, th, th', th.k + 1);
  }

  lemma ChoiceIs(l: SkipList, t: ThreadId, th: Thread)
    requires InRange(l, th) && th.pc in {CheckLinked, CheckVictim}
    ensures var e := RemoveStep(l, t, th);
            && e.list == l && IsNode(l, th.foundNode)
            && (th.pc == CheckLinked ==>
                  e.th == if l.nodes[th.foundNode].linked && l.nodes[th.foundNode].height == th.found + 1 then th.(pc := CheckVictim)
                          else th.Answers(Missing))
            && (th.pc == CheckVictim ==>
                  e.th == if l.nodes[th.foundNode].marked then th.Answers(Missing)
                          else th.(pc := LockVictim, node := th.foundNode, height := l.nodes[th.foundNode].height))
  {
  }

  /** The victim is chosen. */
  lemma ChooserKnows(maxHeight: nat, l: SkipList, t: ThreadId, th: Thread)
    requires InRange(l, th) && th.pc in {CheckLinked, CheckVictim} && Fits(maxHeight, th) && RemoverOk(l, t, th)
    ensures var e := RemoveStep(l, t, th); ThreadOk(maxHeight, e.list, t, e.th)
  {
    hide RemoveStep, InRange, RemoverOk, ThreadOk;
    ChoiceIs(l, t, th);
    var th' := RemoveStep(l, t, th).th;
    if th'.pc == Idle {
      IdleOk(maxHeight, l, t, th');
    } else {
      ChosenOk(l, t, th, th');
      RemovingOk(maxHeight, l, t, th');
    }
  }

  lemma ChosenOk(l: SkipList, t: ThreadId, th: Thread, th': Thread)
    requires th.pc in {CheckLinked, CheckVictim} && th.maxLayer < |th.preds| == |th.succs| && RemoverOk(l, t, th) && IsNode(l, th.foundNode)
    requires if th.pc == CheckLinked then
               l.nodes[th.foundNode].linked && l.nodes[th.foundNode].height == th.found + 1 && th' == th.(pc := CheckVictim)
             else th' == th.(pc := LockVictim, node := th.foundNode, height := l.nodes[th.foundNode].height)
    ensures RemoverOk(l, t, th')
  {
    hide Found;
    SameFound(l, th, th', 0);
  }

  /** It is locked. */
  lemma VictimLocker(maxHeight: nat, l: SkipList, t: ThreadId, th: Thread)
    requires InRange(l, th) && th.pc == LockVictim && Fits(maxHeight, th) && RemoverOk(l, t, th)
    requires Evolves(t, l, RemoveStep(l, t, th).list)
    ensures var e := RemoveStep(l, t, th); ThreadOk(maxHeight, e.list, t, e.th)
  {
    hide ValidFrom, HeldOk, Evolves, Found, ThreadOk;
    var e := RemoveStep(l, t, th);
    FoundStays(t, l, e.list, th, 0);
    SameFound(e.list, th, e.th, 0);
    RemovingOk(maxHeight, e.list, t, e.th);
  }

  /** It is checked again. */
  lemma VictimChecker(maxHeight: nat, l: SkipList, t: ThreadId, th: Thread)
    requires InRange(l, th) && th.pc == RecheckVictim && Fits(maxHeight, th) && RemoverOk(l, t, th)
    requires Evolves(t, l, RemoveStep(l, t, th).list)
    ensures var e := RemoveStep(l, t, th); ThreadOk(maxHeight, e.list, t, e.th)
  {
    hide ValidFrom, HeldOk, Evolves, Found, ThreadOk;
    var e := RemoveStep(l, t, th);
    SameFound(e.list, th, e.th, 0);
    RemovingOk(maxHeight, e.list, t, e.th);
  }

  lemma MarkLoader(maxHeight: nat, l: SkipList, t: ThreadId, th: Thread)
    requires InRange(l, th) && th.pc == LoadMark && Fits(maxHeight, th) && RemoverOk(l, t, th)
    requires Evolves(t, l, RemoveStep(l, t, th).list)
    ensures var e := RemoveStep(l, t, th); ThreadOk(maxHeight, e.list, t, e.th)
  {
    hide ValidFrom, HeldOk, Evolves, Found, ThreadOk;
    var e := RemoveStep(l, t, th);
    SameFound(e.list, th, e.th, 0);
    RemovingOk(maxHeight, e.list, t, e.th);
  }

  lemma MarkIs(l: SkipList, t: ThreadId, th: Thread)
    requires InRange(l, th) && th.pc == StoreMark
    ensures var e := RemoveStep(l, t, th);
            && IsNode(l, th.node) && e.list == Put(l, th.node, l.nodes[th.node].(marked := true, linked := th.flag))
            && e.th == th.(pc := LockPred, k := 0, held := {}, isMarked := true)
  {
  }

  /** The victim is marked: from here on it is this thread's to take out. */
  lemma MarkerKnows(maxHeight: nat, l: SkipList, t: ThreadId, th: Thread)
    requires InRange(l, th) && th.pc == StoreMark && Fits(maxHeight, th) && RemoverOk(l, t, th) && NodeOk(maxHeight, l, th.node)
    requires Evolves(t, l, RemoveStep(l, t, th).list)
    ensures var e := RemoveStep(l, t, th); ThreadOk(maxHeight, e.list, t, e.th)
  {
    hide ValidFrom, HeldOk, Evolves, Found, TargetOk, RemoveStep, LockerOk;
    MarkIs(l, t, th);
    var e := RemoveStep(l, t, th);
    FoundStays(t, l, e.list, th, 0);
    assert LockerOk(e.list, t, e.th) by {
      var th0 := th.(isMarked := true);
      SameFound(e.list, th, th0, 0);
      StartsLocking(e.list, t, th0, e.th);
    }
  }

  lemma UncounterKnows(maxHeight: nat, l: SkipList, t: ThreadId, th: Thread)
    requires InRange(l, th) && th.pc == DecSize && Fits(maxHeight, th) && RemoverOk(l, t, th)
    ensures var e := RemoveStep(l, t, th); ThreadOk(maxHeight, e.list, t, e.th)
  {
    hide FoundOk, ValidFrom, HeldOk, OnlyChanges, RemoveStep, InRange;
    var e := RemoveStep(l, t, th);
    UncountIs(l, t, th);
    PutChanges(l, th.node, l.nodes[th.node].(counted := false), l.size - 1);
    SameHeld(l, t, th, e.th);
    KeptHeld(l, e.list, th.node, t, e.th);
  }

  lemma UncountIs(l: SkipList, t: ThreadId, th: Thread)
    requires InRange(l, th) && th.pc == DecSize
    ensures var e := RemoveStep(l, t, th);
            && IsNode(l, th.node) && e.list == Put(l, th.node, l.nodes[th.node].(counted := false)).(size := l.size - 1)
            && e.th == th.(pc := Release, done := true, answer := Removed)
  {
  }

  lemma RemoverKnows(maxHeight: nat, l: SkipList, t: ThreadId, th: Thread)
    requires InRange(l, th) && Removing(th.pc) && Fits(maxHeight, th) && RemoverOk(l, t, th)
    requires th.pc in {StoreMark, LoadVictim} ==> NodeOk(maxHeight, l, th.node)
    requires Evolves(t, l, RemoveStep(l, t, th).list)
    ensures var e := RemoveStep(l, t, th); ThreadOk(maxHeight, e.list, t, e.th)
  {
    hide RemoveStep, RemoverOk, Evolves, NodeOk, ThreadOk;
    if th.pc in {CheckLinked, CheckVictim} {
      ChooserKnows(maxHeight, l, t, th);
    } else if th.pc == LockVictim {
      VictimLocker(maxHeight, l, t, th);
    } else if th.pc == RecheckVictim {
      VictimChecker(maxHeight, l, t, th);
    } else if th.pc == LoadMark {
      MarkLoader(maxHeight, l, t, th);
    } else if th.pc == StoreMark {
      MarkerKnows(maxHeight, l, t, th);
    } else if th.pc == DecSize {
      UncounterKnows(maxHeight, l, t, th);
    } else if th.pc == ReleaseVictim {
      LeaverKnows(maxHeight, l, t, th);
    } else {
      if th.pc == LoadVictim {
        LoaderKnows(maxHeight, l, t, th);
      } else {
        UnlinkerKnows(l, t, th);
      }
      RemoverGoesOn(maxHeight, l, t, th);
    }
  }

  lemma LeaverKnows(maxHeight: nat, l: SkipList, t: ThreadId, th: Thread)
    requires InRange(l, th) && th.pc == ReleaseVictim && Fits(maxHeight, th)
    ensures var e := RemoveStep(l, t, th); ThreadOk(maxHeight, e.list, t, e.th)
  {
  }

  lemma RemoverGoesOn(maxHeight: nat, l: SkipList, t: ThreadId, th: Thread)
    requires InRange(l, th) && th.pc in {LoadVictim, Unlink} && Fits(maxHeight, th)
    requires var e := RemoveStep(l, t, th); |e.th.preds| == |e.th.succs| && e.th.maxLayer < |e.th.preds| ==> RemoverOk(e.list, t, e.th)
    ensures var e := RemoveStep(l, t, th); ThreadOk(maxHeight, e.list, t, e.th)
  {
    hide RemoverOk, RemoveStep, InRange;
    StillRemoving(l, t, th);
  }

  lemma StillRemoving(l: SkipList, t: ThreadId, th: Thread)
    requires InRange(l, th) && th.pc in {LoadVictim, Unlink}
    ensures var th' := RemoveStep(l, t, th).th;
            && th'.pc in {LoadVictim, Unlink, DecSize}
            && th'.maxLayer == th.maxLayer && |th'.preds| == |th.preds| && |th'.succs| == |th.succs| && th'.isMarked == th.isMarked && th'.op == th.op
  {
  }

  lemma FlagsAre(maxHeight: nat, l: SkipList, t: ThreadId, th: Thread, c: Choice)
    requires InRange(l, th) && th.pc == GrowFlags
    ensures var e := GrowStep(maxHeight, l, t, th, c);
            && IsNode(l, l.head)
            && IsNode(l, th.oldHead) && IsNode(l, th.node)
            && e.list == Put(l, th.node, l.nodes[th.node].(marked := l.nodes[th.oldHead].marked, linked := l.nodes[th.oldHead].linked))
            && e.th == th.(pc := if l.nodes[th.oldHead].height > 0 then GrowCopy else GrowCas)
  {
  }

  lemma CopyIs(maxHeight: nat, l: SkipList, t: ThreadId, th: Thread, c: Choice)
    requires InRange(l, th) && th.pc == GrowCopy
    ensures var e := GrowStep(maxHeight, l, t, th, c);
            && IsNode(l, l.head)
            && HasLayer(l, th.oldHead, th.k) && HasLayer(l, th.node, th.k)
            && e.list == Put(l, th.node, l.nodes[th.node].(skip := l.nodes[th.node].skip[th.k := l.nodes[th.oldHead].skip[th.k]]))
            && e.th == th.(pc := if th.k + 1 < l.nodes[th.oldHead].height then GrowCopy else GrowCas, k := th.k + 1)
  {
  }

  lemma FlagsCopied(maxHeight: nat, l: SkipList, t: ThreadId, th: Thread, c: Choice)
    requires InRange(l, th) && th.pc == GrowFlags && Fits(maxHeight, th) && GrowerOk(maxHeight, l, t, th)
    ensures var e := GrowStep(maxHeight, l, t, th, c); ThreadOk(maxHeight, e.list, t, e.th)
  {
    hide GrowStep, InRange, ThreadOk;
    FlagsAre(maxHeight, l, t, th, c);
    var e := GrowStep(maxHeight, l, t, th, c);
    GrowingOk(maxHeight, e.list, t, e.th);
  }

  lemma GrowingOk(maxHeight: nat, l: SkipList, t: ThreadId, th: Thread)
    requires (Growing(th.pc) && GrowerOk(maxHeight, l, t, th)) || th.pc == Idle
    requires Fits(maxHeight, th)
    ensures ThreadOk(maxHeight, l, t, th)
  {
    hide GrowerOk;
  }

  lemma FindingOk(maxHeight: nat, l: SkipList, t: ThreadId, th: Thread)
    requires (Finding(th.pc) && FinderOk(l, th)) || th.pc == Idle
    requires Fits(maxHeight, th)
    ensures ThreadOk(maxHeight, l, t, th)
  {
    hide FinderOk;
  }

  /** The new head's pointers are copied, one by one, under the old head's lock. */
  lemma CopierKnows(maxHeight: nat, l: SkipList, t: ThreadId, th: Thread, c: Choice)
    requires InRange(l, th) && th.pc == GrowCopy && Fits(maxHeight, th) && GrowerOk(maxHeight, l, t, th)
    ensures var e := GrowStep(maxHeight, l, t, th, c); ThreadOk(maxHeight, e.list, t, e.th)
  {
    hide GrowStep, InRange, ThreadOk;
    CopyIs(maxHeight, l, t, th, c);
    var e := GrowStep(maxHeight, l, t, th, c);
    GrowingOk(maxHeight, e.list, t, e.th);
  }

  lemma StarterGrows(maxHeight: nat, l: SkipList, t: ThreadId, th: Thread, c: Choice)
    requires InRange(l, th) && th.pc in {GrowHeight, GrowLoad, GrowCreate} && Fits(maxHeight, th) && GrowerOk(maxHeight, l, t, th)
    requires l.nodes[l.head].isHead && l.nodes[l.head].top > 0
    ensures var e := GrowStep(maxHeight, l, t, th, c); ThreadOk(maxHeight, e.list, t, e.th)
  {
    hide GrowStep, ThreadOk, GrowerOk;
    StartIs(maxHeight, l, t, th, c);
    var e := GrowStep(maxHeight, l, t, th, c);
    if th.pc == GrowCreate {
      HeadMade(maxHeight, l, e.list, t, th, e.th);
    } else if e.th.pc != Idle {
      GrowthStarted(maxHeight, l, t, th, e.th);
    }
    GrowingOk(maxHeight, e.list, t, e.th);
  }

  lemma GrowthStarted(maxHeight: nat, l: SkipList, t: ThreadId, th: Thread, th': Thread)
    requires th.pc in {GrowHeight, GrowLoad} && GrowerOk(maxHeight, l, t, th) && IsNode(l, l.head)
    requires l.nodes[l.head].isHead && l.nodes[l.head].top > 0
    requires th.pc == GrowHeight ==> l.nodes[l.head].height < maxHeight && th' == th.(pc := GrowLoad, height := l.nodes[l.head].height + 1)
    requires th.pc == GrowLoad ==> l.nodes[l.head].height < th.height && th' == th.(pc := GrowCreate, oldHead := l.head)
    ensures GrowerOk(maxHeight, l, t, th')
  {
    hide NewHeadOk;
  }

  lemma HeadMade(maxHeight: nat, l: SkipList, l': SkipList, t: ThreadId, th: Thread, th': Thread)
    requires th.pc == GrowCreate && GrowerOk(maxHeight, l, t, th)
    requires l' == l.(nodes := l.nodes + [NewNode(th.height, 0, true, t)]) && th' == th.(pc := GrowLock, node := |l.nodes|, k := 0)
    ensures GrowerOk(maxHeight, l', t, th')
  {
    hide NewHeadOk;
  }

  lemma StartIs(maxHeight: nat, l: SkipList, t: ThreadId, th: Thread, c: Choice)
    requires InRange(l, th) && th.pc in {GrowHeight, GrowLoad, GrowCreate}
    ensures var e := GrowStep(maxHeight, l, t, th, c);
            && IsNode(l, l.head)
            && (th.pc == GrowHeight ==>
                  && e.list == l
                  && e.th == if l.nodes[l.head].height < maxHeight && c.flag then th.(pc := GrowLoad, height := l.nodes[l.head].height + 1)
                             else th.(pc := Idle))
            && (th.pc == GrowLoad ==>
                  && e.list == l
                  && e.th == if l.nodes[l.head].height >= th.height then th.(pc := Idle) else th.(pc := GrowCreate, oldHead := l.head))
            && (th.pc == GrowCreate ==>
                  && e.list == l.(nodes := l.nodes + [NewNode(th.height, 0, true, t)])
                  && e.th == th.(pc := GrowLock, node := |l.nodes|, k := 0))
  {
  }

  lemma LockIs(maxHeight: nat, l: SkipList, t: ThreadId, th: Thread, c: Choice)
    requires InRange(l, th) && th.pc == GrowLock
    ensures var e := GrowStep(maxHeight, l, t, th, c);
            && IsNode(l, l.head)
            && IsNode(l, th.oldHead)
            && if l.nodes[th.oldHead].lock.Free? then
                 e.list == Put(l, th.oldHead, l.nodes[th.oldHead].(lock := By(t))) && e.th == th.(pc := GrowFlags)
               else e.list == l && e.th == th
  {
  }

  lemma LockerGrows(maxHeight: nat, l: SkipList, t: ThreadId, th: Thread, c: Choice)
    requires InRange(l, th) && th.pc == GrowLock && Fits(maxHeight, th) && GrowerOk(maxHeight, l, t, th)
    requires |l.nodes[th.node].skip| == l.nodes[th.node].height && l.nodes[th.oldHead].height <= |l.nodes[th.oldHead].skip|
    ensures var e := GrowStep(maxHeight, l, t, th, c); ThreadOk(maxHeight, e.list, t, e.th)
  {
    hide GrowStep, InRange, ThreadOk;
    LockIs(maxHeight, l, t, th, c);
    var e := GrowStep(maxHeight, l, t, th, c);
    GrowingOk(maxHeight, e.list, t, e.th);
  }

  lemma SwapIs(maxHeight: nat, l: SkipList, t: ThreadId, th: Thread, c: Choice)
    requires InRange(l, th) && th.pc in {GrowCas, GrowLoadMark, GrowStoreMark, GrowUnlock}
    ensures var e := GrowStep(maxHeight, l, t, th, c);
            && IsNode(l, l.head)
            && IsNode(l, th.oldHead)
            && (th.pc == GrowCas ==>
                  if l.head == th.oldHead then
                    && IsNode(l, th.node)
                    && e.list == Put(l, th.node, l.nodes[th.node].(top := l.nodes[th.node].height)).(head := th.node)
                    && e.th == th.(pc := GrowLoadMark)
                  else e.list == l && e.th == th.(pc := GrowUnlock))
            && (th.pc == GrowLoadMark ==> e.list == l && e.th == th.(pc := GrowStoreMark, flag := l.nodes[th.oldHead].linked))
            && (th.pc == GrowStoreMark ==>
                  && e.list == Put(l, th.oldHead, l.nodes[th.oldHead].(marked := true, linked := th.flag))
                  && e.th == th.(pc := GrowUnlock))
            && (th.pc == GrowUnlock ==> e.th == th.(pc := Idle))
  {
  }

  /** The head is exchanged, the old one marked. */
  lemma SwapperGrows(maxHeight: nat, l: SkipList, t: ThreadId, th: Thread, c: Choice)
    requires InRange(l, th) && th.pc in {GrowCas, GrowLoadMark, GrowStoreMark, GrowUnlock} && Fits(maxHeight, th)
    requires GrowerOk(maxHeight, l, t, th)
    ensures var e := GrowStep(maxHeight, l, t, th, c); ThreadOk(maxHeight, e.list, t, e.th)
  {
    hide GrowStep, ThreadOk, GrowerOk;
    SwapIs(maxHeight, l, t, th, c);
    var e := GrowStep(maxHeight, l, t, th, c);
    if th.pc != GrowUnlock {
      SwappedOk(maxHeight, l, e.list, t, th, e.th);
    }
    GrowingOk(maxHeight, e.list, t, e.th);
  }

  lemma SwappedOk(maxHeight: nat, l: SkipList, l': SkipList, t: ThreadId, th: Thread, th': Thread)
    requires th.pc in {GrowCas, GrowLoadMark, GrowStoreMark} && GrowerOk(maxHeight, l, t, th) && IsNode(l, th.oldHead)
    requires th.pc == GrowCas ==>
      if l.head == th.oldHead then
        && IsNode(l, th.node) && l' == Put(l, th.node, l.nodes[th.node].(top := l.nodes[th.node].height)).(head := th.node)
        && th' == th.(pc := GrowLoadMark)
      else l' == l && th' == th.(pc := GrowUnlock)
    requires th.pc == GrowLoadMark ==> l' == l && th' == th.(pc := GrowStoreMark, flag := l.nodes[th.oldHead].linked)
    requires th.pc == GrowStoreMark ==>
      l' == Put(l, th.oldHead, l.nodes[th.oldHead].(marked := true, linked := th.flag)) && th' == th.(pc := GrowUnlock)
    ensures GrowerOk(maxHeight, l', t, th')
  {
  }

  lemma GrowerKnows(maxHeight: nat, s: State, t: ThreadId, c: Choice)
    requires Inv(maxHeight, s) && CanStep(s, t) && Growing(s.threads[t].pc)
    ensures var e := GrowStep(maxHeight, s.list, t, s.threads[t], c); ThreadOk(maxHeight, e.list, t, e.th)
  {
    hide Inv, LayerOk, MembersOk, HeadOk, GrowStep, NodeOk, TargetOk, GrowerOk;
    var th, l := s.threads[t], s.list;
    InvParts(maxHeight, s, t);
    if th.pc in {GrowHeight, GrowLoad, GrowCreate} {
      HeadIsPublished(maxHeight, s);
      StarterGrows(maxHeight, l, t, th, c);
    } else if th.pc == GrowFlags {
      FlagsCopied(maxHeight, l, t, th, c);
    } else if th.pc == GrowCopy {
      CopierKnows(maxHeight, l, t, th, c);
    } else if th.pc == GrowLock {
      GrowNodes(maxHeight, l, t, th);
      NodeParts(maxHeight, s, th.node);
      NodeParts(maxHeight, s, th.oldHead);
      NodeIsFull(maxHeight, l, th.node);
      NodeIsFull(maxHeight, l, th.oldHead);
      LockerGrows(maxHeight, l, t, th, c);
    } else {
      SwapperGrows(maxHeight, l, t, th, c);
    }
  }

  lemma GrowNodes(maxHeight: nat, l: SkipList, t: ThreadId, th: Thread)
    requires GrowerOk(maxHeight, l, t, th) && th.pc == GrowLock
    ensures IsNode(l, th.node) && IsNode(l, th.oldHead)
  {
  }

  lemma NodeIsFull(maxHeight: nat, l: SkipList, n: nat)
    requires IsNode(l, n) && NodeOk(maxHeight, l, n)
    ensures |l.nodes[n].skip| == l.nodes[n].height
    ensures l.nodes[n].isHead && l.nodes[n].top > 0 ==> l.nodes[n].top == l.nodes[n].height
  {
  }

  lemma FinderKnows(maxHeight: nat, s: State, t: ThreadId)
    requires Inv(maxHeight, s) && CanStep(s, t) && Finding(s.threads[t].pc)
    ensures ThreadOk(maxHeight, s.list, t, FindStep(s.list, s.threads[t]))
  {
    hide Inv, LayerOk, MembersOk, HeadOk, NodeOk, FindStep, TargetOk, PredOk;
    var th, l := s.threads[t], s.list;
    InvParts(maxHeight, s, t);
    if th.pc == FindHead {
      HeadIsPublished(maxHeight, s);
      NodeParts(maxHeight, s, l.head);
      NodeIsFull(maxHeight, l, l.head);
      FinderStarts(maxHeight, l, t, th);
    } else if th.pc == FindMarked {
      FinderEnds(maxHeight, l, t, th);
    } else {
      NodeParts(maxHeight, s, th.pred);
      PointsAhead(maxHeight, l, th.pred, if th.pc == FindDown then th.layer - 1 else th.layer);
      FinderWalks(maxHeight, l, t, th);
    }
  }

  lemma FinderStarts(maxHeight: nat, l: SkipList, t: ThreadId, th: Thread)
    requires InRange(l, th) && th.pc == FindHead && Fits(maxHeight, th) && FinderOk(l, th)
    requires l.nodes[l.head].isHead && l.nodes[l.head].top == l.nodes[l.head].height
    ensures ThreadOk(maxHeight, l, t, FindStep(l, th))
  {
    hide ThreadOk;
    FindingOk(maxHeight, l, t, FindStep(l, th));
  }

  lemma FinderEnds(maxHeight: nat, l: SkipList, t: ThreadId, th: Thread)
    requires InRange(l, th) && th.pc == FindMarked && Fits(maxHeight, th)
    ensures ThreadOk(maxHeight, l, t, FindStep(l, th))
  {
    hide ThreadOk;
    FindingOk(maxHeight, l, t, FindStep(l, th));
  }

  lemma FinderWalks(maxHeight: nat, l: SkipList, t: ThreadId, th: Thread)
    requires InRange(l, th) && th.pc in {FindDown, FindRight} && Fits(maxHeight, th) && FinderOk(l, th)
    requires var layer := if th.pc == FindDown then th.layer - 1 else th.layer;
             HasLayer(l, th.pred, layer) && TargetOk(l, th.pred, layer, l.nodes[th.pred].skip[layer])
    ensures ThreadOk(maxHeight, l, t, FindStep(l, th))
  {
    hide ThreadOk;
    FindingOk(maxHeight, l, t, FindStep(l, th));
  }

  lemma IdlerKnows(maxHeight: nat, l: SkipList, t: ThreadId, th: Thread, c: Choice)
    requires th.pc == Idle && Fits(maxHeight, th)
    ensures ThreadOk(maxHeight, l, t, th.(op := c.op, isMarked := false, pc := if c.op.Find? then FindHead else LoadMaxLayer))
  {
  }

  /** What the moving thread knows after its access. */
  lemma StepperKnows(maxHeight: nat, s: State, t: ThreadId, c: Choice)
    requires Inv(maxHeight, s) && CanStep(s, t)
    ensures var e := ThreadStep(maxHeight, s.list, t, s.threads[t], c); ThreadOk(maxHeight, e.list, t, e.th)
  {
    hide Inv, LayerOk, MembersOk, HeadOk, NodeOk, InRange, Step, Evolves,
      SearchStep, LockStep, ReleaseStep, AddStep, RemoveStep, GrowStep, FindStep,
      SearcherOk, LockerOk, ReleaserOk, AdderOk, RemoverOk, GrowerOk, FinderOk;
    var th, l := s.threads[t], s.list;
    CanStepIsLive(s, t);
    InvParts(maxHeight, s, t);
    StepEvolves(maxHeight, s, t, c);
    StepIs(maxHeight, s, t, c);
    if th.pc == Idle {
      IdlerKnows(maxHeight, l, t, th, c);
    } else if Searching(th.pc) {
      SearcherKnows(maxHeight, s, t, c);
    } else if Locking(th.pc) {
      LockerKnows(maxHeight, l, t, th);
    } else if th.pc == Release {
      ReleaserKnows(maxHeight, l, t, th, c);
    } else if Adding(th.pc) {
      WorkedNode(maxHeight, s, t);
      AdderKnows(maxHeight, l, t, th);
    } else if Removing(th.pc) {
      WorkedNode(maxHeight, s, t);
      RemoverKnows(maxHeight, l, t, th);
    } else if Growing(th.pc) {
      GrowerKnows(maxHeight, s, t, c);
    } else {
      FinderKnows(maxHeight, s, t);
    }
  }

  lemma WorkedNode(maxHeight: nat, s: State, t: ThreadId)
    requires Inv(maxHeight, s) && CanStep(s, t)
    ensures s.threads[t].pc in {SetNew, StoreMark, LoadVictim} ==> IsNode(s.list, s.threads[t].node) && NodeOk(maxHeight, s.list, s.threads[t].node)
  {
    hide ThreadOk, LayerOk, MembersOk, HeadOk, NodeOk;
  }

  // ----- The invariant, kept by every access -----

  lemma OthersKeep(maxHeight: nat, s: State, t: ThreadId, c: Choice, u: ThreadId)
    requires Inv(maxHeight, s) && CanStep(s, t) && u in s.threads && u != t
    ensures ThreadOk(maxHeight, Step(maxHeight, s, t, c).list, u, s.threads[u])
  {
    hide Inv, Step, CanStep, Evolves, LayerOk, MembersOk, HeadOk, NodeOk,
      SearcherOk, LockerOk, ReleaserOk, AdderOk, RemoverOk, GrowerOk, FinderOk;
    var l, l', th := s.list, Step(maxHeight, s, t, c).list, s.threads[u];
    InvParts(maxHeight, s, u);
    StepEvolves(maxHeight, s, t, c);
    if Searching(th.pc) {
      SearcherStays(t, l, l', u, th);
    } else if Locking(th.pc) {
      LockerStays(t, l, l', u, th);
    } else if th.pc == Release {
      ReleaserStays(t, l, l', u, th);
    } else if Adding(th.pc) {
      AdderStays(t, l, l', u, th);
    } else if Removing(th.pc) {
      if th.pc == Unlink {
        VictimIsWhole(maxHeight, s, u);
      }
      RemoverStays(t, l, l', u, th);
    } else if Growing(th.pc) {
      OldIsWhole(maxHeight, s, u);
      GrowerStays(maxHeight, t, l, l', u, th);
    } else if Finding(th.pc) {
      FinderStays(t, l, l', th);
    }
  }

  lemma VictimIsWhole(maxHeight: nat, s: State, u: ThreadId)
    requires Inv(maxHeight, s) && u in s.threads && s.threads[u].pc == Unlink
    ensures var l, th := s.list, s.threads[u]; IsNode(l, th.node) && l.nodes[th.node].top == l.nodes[th.node].height
  {
    hide Inv, LayerOk, MembersOk, HeadOk, NodeOk, FoundOk, ValidFrom, HeldOk;
    InvParts(maxHeight, s, u);
    NodeParts(maxHeight, s, s.threads[u].node);
    FlagsOk(maxHeight, s.list, s.threads[u].node);
  }

  lemma OldIsWhole(maxHeight: nat, s: State, u: ThreadId)
    requires Inv(maxHeight, s) && u in s.threads && Growing(s.threads[u].pc)
    ensures var l, th := s.list, s.threads[u]; OldOk(l, th) ==> l.nodes[th.oldHead].top == l.nodes[th.oldHead].height
  {
    hide Inv, LayerOk, MembersOk, HeadOk, NodeOk, ThreadOk;
    if OldOk(s.list, s.threads[u]) {
      NodeParts(maxHeight, s, s.threads[u].oldHead);
      NodeIsFull(maxHeight, s.list, s.threads[u].oldHead);
    }
  }

  /** Every access keeps the invariant. */
  lemma StepKeepsInv(maxHeight: nat, s: State, t: ThreadId, c: Choice)
    requires Inv(maxHeight, s) && CanStep(s, t)
    ensures Inv(maxHeight, Step(maxHeight, s, t, c))
  {
    hide Step, CanStep, LayerOk, MembersOk, HeadOk, NodeOk, ThreadOk;
    var s' := Step(maxHeight, s, t, c);
    StepKeepsHead(maxHeight, s, t, c);
    StepKeepsMembers(maxHeight, s, t, c);
    forall n: nat | IsNode(s'.list, n) ensures NodeOk(maxHeight, s'.list, n) {
      StepKeepsNode(maxHeight, s, t, c, n);
    }
    forall layer: nat ensures LayerOk(s'.list, layer) {
      StepKeepsLayer(maxHeight, s, t, c, layer);
    }
    CanStepIsLive(s, t);
    OnlyOneMoves(maxHeight, s, t, c);
    forall u | u in s'.threads ensures ThreadOk(maxHeight, s'.list, u, s'.threads[u]) {
      if u == t {
        StepperKnows(maxHeight, s, t, c);
        StepIs(maxHeight, s, t, c);
      } else {
        OthersKeep(maxHeight, s, t, c, u);
      }
    }
  }

  lemma InitIsInv(maxHeight: nat, height: nat, ids: set<ThreadId>)
    requires 1 <= height <= maxHeight
    ensures Inv(maxHeight, Init(maxHeight, height, ids))
  {
    var s := Init(maxHeight, height, ids);
    forall layer: nat ensures LayerOk(s.list, layer) {
    }
    forall t | t in s.threads ensures ThreadOk(maxHeight, s.list, t, s.threads[t]) {
    }
  }

  /** No access is ever out of range: every layer that is followed exists, and no null pointer is. */
  lemma NobodyIsStuck(maxHeight: nat, s: State, t: ThreadId)
    requires Inv(maxHeight, s) && t in s.threads
    ensures CanStep(s, t)
  {
    hide Inv, LayerOk, MembersOk, NodeOk, FoundOk, ValidFrom, HeldOk, SearcherOk, LockerOk, AdderOk, RemoverOk, GrowerOk, FinderOk, HeadOk;
    var th, l := s.threads[t], s.list;
    HeadIsPublished(maxHeight, s);
    InvParts(maxHeight, s, t);
    if Searching(th.pc) {
      SearcherInRange(maxHeight, s, t);
    } else if Locking(th.pc) {
      LockerInRange(maxHeight, s, t);
    } else if Adding(th.pc) {
      AdderInRange(maxHeight, s, t);
    } else if Removing(th.pc) {
      RemoverInRange(maxHeight, s, t);
    } else if Growing(th.pc) {
      GrowerInRange(maxHeight, s, t);
    } else if Finding(th.pc) {
      FinderInRange(maxHeight, s, t);
    }
  }

  /** A layer below a node's top exists. */
  lemma TopLayerExists(maxHeight: nat, s: State, n: nat, layer: nat)
    requires Inv(maxHeight, s) && IsNode(s.list, n) && layer < s.list.nodes[n].top
    ensures HasLayer(s.list, n, layer)
  {
    hide LayerOk, MembersOk, HeadOk, ThreadOk;
  }

  lemma SearcherInRange(maxHeight: nat, s: State, t: ThreadId)
    requires Inv(maxHeight, s) && t in s.threads && Searching(s.threads[t].pc)
    ensures InRange(s.list, s.threads[t])
  {
    hide Inv, LayerOk, MembersOk, NodeOk, FoundOk, HeadOk;
    HeadIsPublished(maxHeight, s);
    SearchingParts(maxHeight, s, t);
    if s.threads[t].pc == LoadSkip {
      TopLayerExists(maxHeight, s, s.threads[t].pred, s.threads[t].layer);
    }
  }

  lemma LockerInRange(maxHeight: nat, s: State, t: ThreadId)
    requires Inv(maxHeight, s) && t in s.threads && Locking(s.threads[t].pc)
    ensures InRange(s.list, s.threads[t])
  {
    hide Inv, LayerOk, MembersOk, NodeOk, HeadOk, ValidFrom, HeldOk;
    HeadIsPublished(maxHeight, s);
    InvParts(maxHeight, s, t);
    FoundAt(s.list, s.threads[t], s.threads[t].k);
    TopLayerExists(maxHeight, s, s.threads[t].preds[s.threads[t].k], s.threads[t].k);
  }

  lemma AdderInRange(maxHeight: nat, s: State, t: ThreadId)
    requires Inv(maxHeight, s) && t in s.threads && Adding(s.threads[t].pc)
    ensures InRange(s.list, s.threads[t])
  {
    hide Inv, LayerOk, MembersOk, NodeOk, HeadOk, HeldOk, FoundOk;
    var th := s.threads[t];
    HeadIsPublished(maxHeight, s);
    InvParts(maxHeight, s, t);
    if th.pc in {SetNew, Link} {
      assert Valid(s.list, t, th.preds[th.k], th.k, th.succs[th.k]);
      NodeParts(maxHeight, s, th.node);
      NodeIsFull(maxHeight, s.list, th.node);
    }
  }

  lemma RemoverInRange(maxHeight: nat, s: State, t: ThreadId)
    requires Inv(maxHeight, s) && t in s.threads && Removing(s.threads[t].pc)
    ensures InRange(s.list, s.threads[t])
  {
    hide Inv, LayerOk, MembersOk, NodeOk, HeadOk, HeldOk, Found;
    var th := s.threads[t];
    HeadIsPublished(maxHeight, s);
    InvParts(maxHeight, s, t);
    if th.pc in {LoadVictim, Unlink} {
      assert Valid(s.list, t, th.preds[th.k], th.k, th.succs[th.k]);
      NodeParts(maxHeight, s, th.node);
      NodeIsFull(maxHeight, s.list, th.node);
    }
  }

  lemma GrowerInRange(maxHeight: nat, s: State, t: ThreadId)
    requires Inv(maxHeight, s) && t in s.threads && Growing(s.threads[t].pc)
    ensures InRange(s.list, s.threads[t])
  {
    hide Inv, LayerOk, MembersOk, NodeOk, HeadOk;
    HeadIsPublished(maxHeight, s);
    InvParts(maxHeight, s, t);
  }

  lemma FinderInRange(maxHeight: nat, s: State, t: ThreadId)
    requires Inv(maxHeight, s) && t in s.threads && Finding(s.threads[t].pc)
    ensures InRange(s.list, s.threads[t])
  {
    hide Inv, LayerOk, MembersOk, NodeOk, HeadOk;
    var th := s.threads[t];
    HeadIsPublished(maxHeight, s);
    InvParts(maxHeight, s, t);
    if th.pc in {FindDown, FindRight} {
      TopLayerExists(maxHeight, s, th.pred, if th.pc == FindDown then th.layer - 1 else th.layer);
    }
  }

  // ----- What holds in every reachable state -----

  /** Following the pointers of one layer from n, m times; NIL where the layer ends. */
  function Walk(l: SkipList, n: nat, layer: nat, m: nat): nat
    decreases m
  {
    if m == 0 then n else if HasLayer(l, n, layer) then Walk(l, l.nodes[n].skip[layer], layer, m - 1) else NIL
  }

  /** Is x met on the walk from head_ in the layer? */
  ghost predicate Reached(l: SkipList, layer: nat, x: nat) {
    exists m: nat :: m > 0 && Walk(l, l.head, layer, m) == x
  }

  lemma LayerParts(maxHeight: nat, s: State, layer: nat)
    requires Inv(maxHeight, s)
    ensures LayerOk(s.list, layer) && MembersOk(s.list)
  {
    hide LayerOk, MembersOk, HeadOk, NodeOk, ThreadOk;
  }

  lemma NextComesAfter(maxHeight: nat, s: State, layer: nat, n: nat)
    requires Inv(maxHeight, s) && In(s.list, n, layer)
    ensures HasLayer(s.list, n, layer)
    ensures var next := s.list.nodes[n].skip[layer];
            next == NIL || (In(s.list, next, layer) && !s.list.nodes[next].isHead && Before(s.list, n, next))
  {
    hide Inv, In;
    LayerParts(maxHeight, s, layer);
    NextIs(s.list, layer, n, n);
    NodeParts(maxHeight, s, n);
    PointsAhead(maxHeight, s.list, n, layer);
  }

  /** In every layer the walk from a member goes through members only, by increasing keys. */
  lemma {:induction false} WalkAscends(maxHeight: nat, s: State, layer: nat, n: nat, m: nat)
    requires Inv(maxHeight, s) && In(s.list, n, layer) && m > 0
    ensures var x := Walk(s.list, n, layer, m);
            x == NIL || (In(s.list, x, layer) && !s.list.nodes[x].isHead && Before(s.list, n, x))
    decreases m
  {
    hide Inv, In;
    NextComesAfter(maxHeight, s, layer, n);
    var next := s.list.nodes[n].skip[layer];
    assert Walk(s.list, n, layer, m) == Walk(s.list, next, layer, m - 1);
    if next == NIL {
      WalkFromNil(s.list, layer, m - 1);
    } else if m > 1 {
      WalkAscends(maxHeight, s, layer, next, m - 1);
    }
  }

  lemma {:induction false} WalkFromNil(l: SkipList, layer: nat, m: nat)
    ensures Walk(l, NIL, layer, m) == NIL
  {
  }

  lemma {:induction false} WalkJoins(l: SkipList, n: nat, layer: nat, i: nat, j: nat)
    ensures Walk(l, n, layer, i + j) == Walk(l, Walk(l, n, layer, i), layer, j)
    decreases i
  {
    if i > 0 {
      if HasLayer(l, n, layer) {
        WalkJoins(l, l.nodes[n].skip[layer], layer, i - 1, j);
      } else {
        assert !HasLayer(l, NIL, layer);
        WalkFromNil(l, layer, j);
      }
    }
  }

  /** Every layer of the list, from head_ on, is strictly increasing. */
  lemma LayerIsSorted(maxHeight: nat, s: State, layer: nat, i: nat, j: nat)
    requires Inv(maxHeight, s) && layer < s.list.nodes[s.list.head].height && 0 < i < j
    ensures var x, y := Walk(s.list, s.list.head, layer, i), Walk(s.list, s.list.head, layer, j);
            y != NIL ==> IsNode(s.list, x) && IsNode(s.list, y) && s.list.nodes[x].key < s.list.nodes[y].key
  {
    hide Inv;
    HeadIsPublished(maxHeight, s);
    WalkAscends(maxHeight, s, layer, s.list.head, i);
    WalkJoins(s.list, s.list.head, layer, i, j - i);
    var x := Walk(s.list, s.list.head, layer, i);
    if x == NIL {
      WalkFromNil(s.list, layer, j - i);
    } else {
      WalkAscends(maxHeight, s, layer, x, j - i);
    }
  }

  /** A member further on is reached. */
  lemma {:induction false} WalkReaches(maxHeight: nat, s: State, layer: nat, n: nat, x: nat) returns (m: nat)
    requires Inv(maxHeight, s) && In(s.list, n, layer) && In(s.list, x, layer)
    requires IsNode(s.list, n) && IsNode(s.list, x) && !s.list.nodes[x].isHead && Before(s.list, n, x)
    ensures m > 0 && Walk(s.list, n, layer, m) == x
    decreases s.list.nodes[n].isHead, s.list.nodes[x].key - s.list.nodes[n].key
  {
    hide Inv, In;
    StepTowards(maxHeight, s, layer, n, x);
    var next := s.list.nodes[n].skip[layer];
    if next == x {
      m := 1;
      assert Walk(s.list, next, layer, 0) == next;
    } else {
      var k := WalkReaches(maxHeight, s, layer, next, x);
      m := k + 1;
    }
  }

  lemma StepTowards(maxHeight: nat, s: State, layer: nat, n: nat, x: nat)
    requires Inv(maxHeight, s) && In(s.list, n, layer) && In(s.list, x, layer)
    requires IsNode(s.list, n) && IsNode(s.list, x) && !s.list.nodes[x].isHead && Before(s.list, n, x)
    ensures HasLayer(s.list, n, layer)
    ensures var next := s.list.nodes[n].skip[layer];
            && In(s.list, next, layer) && IsNode(s.list, next) && !s.list.nodes[next].isHead && Before(s.list, n, next)
            && (next == x || s.list.nodes[next].key < s.list.nodes[x].key)
  {
    hide Inv, In;
    NextComesAfter(maxHeight, s, layer, n);
    LayerParts(maxHeight, s, layer);
    NextIs(s.list, layer, n, x);
    var next := s.list.nodes[n].skip[layer];
    InLowest(s.list, next, layer);
    if next != x {
      MembersOrdered(s.list, layer, next, x);
    }
  }

  /** The walk from head_ in a layer reaches exactly the nodes in it, so that every higher layer is a part of the
      one below, in the same order. */
  lemma LayerIsReached(maxHeight: nat, s: State, layer: nat, x: nat)
    requires Inv(maxHeight, s) && layer < s.list.nodes[s.list.head].height && IsNode(s.list, x) && !s.list.nodes[x].isHead
    ensures In(s.list, x, layer) <==> Reached(s.list, layer, x)
  {
    hide Inv;
    HeadIsPublished(maxHeight, s);
    if In(s.list, x, layer) {
      var m := WalkReaches(maxHeight, s, layer, s.list.head, x);
    }
    forall m: nat | m > 0 && Walk(s.list, s.list.head, layer, m) == x ensures In(s.list, x, layer) {
      WalkAscends(maxHeight, s, layer, s.list.head, m);
    }
  }

  lemma HigherLayerIsPart(maxHeight: nat, s: State, layer: nat, m: nat) returns (k: nat)
    requires Inv(maxHeight, s) && layer + 1 < s.list.nodes[s.list.head].height && m > 0
    requires Walk(s.list, s.list.head, layer + 1, m) != NIL
    ensures k > 0 && Walk(s.list, s.list.head, layer, k) == Walk(s.list, s.list.head, layer + 1, m)
  {
    hide Inv;
    HeadIsPublished(maxHeight, s);
    WalkAscends(maxHeight, s, layer + 1, s.list.head, m);
    k := WalkReaches(maxHeight, s, layer, s.list.head, Walk(s.list, s.list.head, layer + 1, m));
  }

  /** No two linked nodes hold the same key, unless one of them is marked. */
  lemma KeysAreDistinct(maxHeight: nat, s: State, n: nat, m: nat)
    requires Inv(maxHeight, s) && IsNode(s.list, n) && IsNode(s.list, m)
    requires var a, b := s.list.nodes[n], s.list.nodes[m];
             !a.isHead && !b.isHead && a.linked && b.linked && !a.marked && !b.marked && a.key == b.key
    ensures n == m
  {
    hide Inv, MembersOk;
    IsLinked(maxHeight, s, n, 0);
    IsLinked(maxHeight, s, m, 0);
    LayerParts(maxHeight, s, 0);
    MembersOrdered1(s.list, 0, n, m);
  }

  /** A node that is fully linked and not marked is in all its layers. */
  lemma IsLinked(maxHeight: nat, s: State, n: nat, layer: nat)
    requires Inv(maxHeight, s) && IsNode(s.list, n)
    requires !s.list.nodes[n].isHead && s.list.nodes[n].linked && !s.list.nodes[n].marked
    ensures 0 < s.list.nodes[n].height && (layer < s.list.nodes[n].height ==> In(s.list, n, layer))
  {
    hide Inv, TargetOk;
    NodeParts(maxHeight, s, n);
  }

  // ----- Runs -----

  ghost predicate Steps(maxHeight: nat, s: State, s': State) {
    exists t, c :: CanStep(s, t) && s' == Step(maxHeight, s, t, c)
  }

  /** Any interleaving of any operations of the given threads, from an empty list. */
  ghost predicate IsRun(maxHeight: nat, ids: set<ThreadId>, run: seq<State>) {
    && |run| > 0 && (exists height: nat :: 1 <= height <= maxHeight && run[0] == Init(maxHeight, height, ids))
    && forall j: nat | j + 1 < |run| :: Steps(maxHeight, run[j], run[j + 1])
  }

  lemma {:induction false} RunKeepsInv(maxHeight: nat, ids: set<ThreadId>, run: seq<State>, j: nat)
    requires IsRun(maxHeight, ids, run) && j < |run|
    ensures Inv(maxHeight, run[j])
  {
    hide Inv, Init, Step, CanStep;
    if j == 0 {
      var height: nat :| 1 <= height <= maxHeight && run[0] == Init(maxHeight, height, ids);
      InitIsInv(maxHeight, height, ids);
    } else {
      RunKeepsInv(maxHeight, ids, run, j - 1);
      assert Steps(maxHeight, run[j - 1], run[j - 1 + 1]);
      var t, c :| CanStep(run[j - 1], t) && run[j] == Step(maxHeight, run[j - 1], t, c);
      StepKeepsInv(maxHeight, run[j - 1], t, c);
    }
  }

  lemma NextStep(maxHeight: nat, ids: set<ThreadId>, run: seq<State>, j: nat) returns (t: ThreadId, c: Choice)
    requires IsRun(maxHeight, ids, run) && j + 1 < |run|
    ensures Inv(maxHeight, run[j]) && CanStep(run[j], t) && run[j + 1] == Step(maxHeight, run[j], t, c) && Inv(maxHeight, run[j + 1])
  {
    hide Inv, Init, Step, CanStep;
    RunKeepsInv(maxHeight, ids, run, j);
    assert Steps(maxHeight, run[j], run[j + 1]);
    t, c :| CanStep(run[j], t) && run[j + 1] == Step(maxHeight, run[j], t, c);
    StepKeepsInv(maxHeight, run[j], t, c);
  }

  /** In any interleaving of adds, removes and head growth, after every single access: each layer from head_ is
      strictly increasing, and each is a part of the one below. */
  lemma LayersStaySorted(maxHeight: nat, ids: set<ThreadId>, run: seq<State>, a: nat, layer: nat, i: nat, j: nat)
    requires IsRun(maxHeight, ids, run) && a < |run| && 0 < i < j
    ensures IsNode(run[a].list, run[a].list.head)
    ensures layer < run[a].list.nodes[run[a].list.head].height ==>
      var l := run[a].list;
      var x, y := Walk(l, l.head, layer, i), Walk(l, l.head, layer, j);
      && (y != NIL ==> IsNode(l, x) && IsNode(l, y) && l.nodes[x].key < l.nodes[y].key)
      && (layer > 0 && x != NIL ==> Reached(l, layer - 1, x))
  {
    hide Inv, IsRun;
    RunKeepsInv(maxHeight, ids, run, a);
    HeadIsPublished(maxHeight, run[a]);
    if layer < run[a].list.nodes[run[a].list.head].height {
      LayerIsSorted(maxHeight, run[a], layer, i, j);
      if layer > 0 && Walk(run[a].list, run[a].list.head, layer, i) != NIL {
        var k := HigherLayerIsPart(maxHeight, run[a], layer - 1, i);
      }
    }
  }

  /** In any interleaving, two nodes that are linked and not marked have different keys. */
  lemma KeysStayDistinct(maxHeight: nat, ids: set<ThreadId>, run: seq<State>, a: nat, n: nat, m: nat)
    requires IsRun(maxHeight, ids, run) && a < |run| && IsNode(run[a].list, n) && IsNode(run[a].list, m)
    requires var x, y := run[a].list.nodes[n], run[a].list.nodes[m];
             !x.isHead && !y.isHead && x.linked && y.linked && !x.marked && !y.marked && x.key == y.key
    ensures n == m
  {
    hide Inv, IsRun;
    RunKeepsInv(maxHeight, ids, run, a);
    KeysAreDistinct(maxHeight, run[a], n, m);
  }

  // ----- Searches -----

  /** The pointer of a node that has left its layer stays as it is. */
  lemma PointerStays(maxHeight: nat, s: State, t: ThreadId, c: Choice, n: nat, layer: nat)
    requires Inv(maxHeight, s) && CanStep(s, t) && HasLayer(s.list, n, layer) && layer < s.list.nodes[n].top
    requires !In(Step(maxHeight, s, t, c).list, n, layer)
    ensures var l' := Step(maxHeight, s, t, c).list; HasLayer(l', n, layer) && l'.nodes[n].skip[layer] == s.list.nodes[n].skip[layer]
  {
    hide Inv, Step, CanStep, In, Inserted, Deleted, Regrown, Quiet;
    CanStepIsLive(s, t);
    var th, l, l' := s.threads[t], s.list, Step(maxHeight, s, t, c).list;
    LayerParts(maxHeight, s, layer);
    if th.pc == Link {
      LinkInserts(maxHeight, s, t, c);
      InsertedMembers(l, l', th.preds[th.k], th.node, th.k, n, layer);
      InsertedParts(l, l', th.preds[th.k], th.node, th.k);
    } else if th.pc == Unlink {
      UnlinkDeletes(maxHeight, s, t, c);
      DeletedMembers(l, l', th.preds[th.k], th.node, th.k, n, layer);
      DeletedMembers(l, l', th.preds[th.k], th.node, th.k, th.preds[th.k], th.k);
    } else if th.pc == GrowCas && l.head == th.oldHead {
      CasRegrows(maxHeight, s, t, c);
      RegrownPointer(l, l', n, layer);
    } else {
      StepIsQuiet(maxHeight, s, t, c);
      QuietPointer(l, l', n, layer);
    }
  }

  lemma RegrownPointer(l: SkipList, l': SkipList, n: nat, layer: nat)
    requires Regrown(l, l') && HasLayer(l, n, layer)
    ensures HasLayer(l', n, layer) && l'.nodes[n].skip[layer] == l.nodes[n].skip[layer]
  {
  }

  lemma QuietPointer(l: SkipList, l': SkipList, n: nat, layer: nat)
    requires Quiet(l, l') && HasLayer(l, n, layer) && layer < l.nodes[n].top
    ensures HasLayer(l', n, layer) && l'.nodes[n].skip[layer] == l.nodes[n].skip[layer]
  {
    assert QuietNode(l.nodes[n], l'.nodes[n]);
  }

  /** Was n in this layer at some time between a and b? */
  ghost predicate Recent(run: seq<State>, a: nat, b: nat, n: nat, layer: nat) {
    exists i: nat :: a <= i <= b && i < |run| && In(run[i].list, n, layer)
  }

  /** The node x is in the list, linked and not marked, from a to b. */
  ghost predicate Stays(run: seq<State>, a: nat, b: nat, x: nat) {
    forall i: nat | a <= i <= b && i < |run| :: IsPresent(run[i].list, x)
  }

  predicate IsPresent(l: SkipList, x: nat) {
    IsNode(l, x) && !l.nodes[x].isHead && l.nodes[x].linked && !l.nodes[x].marked
  }

  lemma RunKeepsNode(maxHeight: nat, ids: set<ThreadId>, run: seq<State>, a: nat, b: nat, n: nat)
    requires IsRun(maxHeight, ids, run) && a <= b < |run| && IsNode(run[a].list, n)
    ensures IsNode(run[b].list, n) && run[b].list.nodes[n].key == run[a].list.nodes[n].key
    ensures run[b].list.nodes[n].isHead == run[a].list.nodes[n].isHead && run[a].list.nodes[n].top <= run[b].list.nodes[n].top
    ensures run[b].list.nodes[n].height == run[a].list.nodes[n].height
  {
    hide IsRun, Inv, Step, CanStep, Evolves;
    if a < b {
      RunKeepsNode(maxHeight, ids, run, a, b - 1, n);
      var t, c := NextStep(maxHeight, ids, run, b - 1);
      StepEvolves(maxHeight, run[b - 1], t, c);
      NodeKeeps(t, run[b - 1].list, run[b].list, n);
    }
  }

  lemma InHasTop(maxHeight: nat, s: State, n: nat, layer: nat)
    requires Inv(maxHeight, s) && In(s.list, n, layer)
    ensures HasLayer(s.list, n, layer) && layer < s.list.nodes[n].top
  {
    hide Inv, TargetOk;
    NodeParts(maxHeight, s, n);
    HeadIsPublished(maxHeight, s);
  }

  /** A node that was in a layer once has that layer, and any node found from it there is a later one. */
  lemma RecentIsNode(maxHeight: nat, ids: set<ThreadId>, run: seq<State>, a: nat, b: nat, n: nat, layer: nat)
    requires IsRun(maxHeight, ids, run) && a <= b < |run| && Recent(run, a, b, n, layer)
    ensures HasLayer(run[b].list, n, layer) && layer < run[b].list.nodes[n].top
  {
    hide IsRun, Inv, In;
    var i: nat :| a <= i <= b && i < |run| && In(run[i].list, n, layer);
    RunKeepsInv(maxHeight, ids, run, i);
    InHasTop(maxHeight, run[i], n, layer);
    RunKeepsNode(maxHeight, ids, run, i, b, n);
    RunKeepsInv(maxHeight, ids, run, b);
    TopLayerExists(maxHeight, run[b], n, layer);
  }

  lemma PresentIsIn(maxHeight: nat, s: State, x: nat)
    requires Inv(maxHeight, s) && IsPresent(s.list, x)
    ensures In(s.list, x, 0)
  {
    hide Inv;
    IsLinked(maxHeight, s, x, 0);
  }

  /** What a pointer in a layer leads to, for a node that was in the layer since a: a node that was there too,
      and in the lowest layer no further than x, if x is there all the time. */
  ghost predicate LeadsOn(run: seq<State>, a: nat, b: nat, n: nat, layer: nat, x: nat)
    requires b < |run| && HasLayer(run[b].list, n, layer) && IsNode(run[b].list, x)
  {
    var l := run[b].list;
    var next := l.nodes[n].skip[layer];
    && (next != NIL ==> Recent(run, a, b, next, layer) && IsNode(l, next) && !l.nodes[next].isHead)
    && ((layer == 0 || layer < l.nodes[x].height) && Before(l, n, x) ==>
          next != NIL && IsNode(l, next) && l.nodes[next].key <= l.nodes[x].key)
  }

  lemma PresentLeads(maxHeight: nat, ids: set<ThreadId>, run: seq<State>, a: nat, b: nat, n: nat, layer: nat, x: nat)
    requires IsRun(maxHeight, ids, run) && a <= b < |run| && In(run[b].list, n, layer) && IsPresent(run[b].list, x)
    ensures HasLayer(run[b].list, n, layer) && LeadsOn(run, a, b, n, layer, x)
  {
    hide IsRun, Inv, In;
    var s := run[b];
    RunKeepsInv(maxHeight, ids, run, b);
    NextComesAfter(maxHeight, s, layer, n);
    var next := s.list.nodes[n].skip[layer];
    if next != NIL {
      InLowest(s.list, next, layer);
      assert Recent(run, a, b, next, layer);
    }
    IsLinked(maxHeight, s, x, layer);
    if (layer == 0 || layer < s.list.nodes[x].height) && Before(s.list, n, x) {
      StepTowards(maxHeight, s, layer, n, x);
    }
  }

  /** Even from a node that was taken out meanwhile, since its pointers were right when it left. */
  lemma {:induction false} RecentLeads(
      maxHeight: nat, ids: set<ThreadId>, run: seq<State>, a: nat, b: nat, n: nat, layer: nat, x: nat)
    requires IsRun(maxHeight, ids, run) && a <= b < |run| && Recent(run, a, b, n, layer) && Stays(run, a, b, x)
    ensures IsNode(run[b].list, x) && HasLayer(run[b].list, n, layer) && LeadsOn(run, a, b, n, layer, x)
  {
    hide IsRun, Inv, In, Step, CanStep;
    assert IsPresent(run[b].list, x);
    RecentIsNode(maxHeight, ids, run, a, b, n, layer);
    if In(run[b].list, n, layer) {
      PresentLeads(maxHeight, ids, run, a, b, n, layer, x);
    } else {
      var i: nat :| a <= i <= b && i < |run| && In(run[i].list, n, layer);
      assert i < b && Recent(run, a, b - 1, n, layer);
      RecentLeads(maxHeight, ids, run, a, b - 1, n, layer, x);
      RecentIsNode(maxHeight, ids, run, a, b - 1, n, layer);
      var t, c := NextStep(maxHeight, ids, run, b - 1);
      PointerStays(maxHeight, run[b - 1], t, c, n, layer);
      var next := run[b - 1].list.nodes[n].skip[layer];
      RunKeepsNode(maxHeight, ids, run, b - 1, b, n);
      RunKeepsNode(maxHeight, ids, run, b - 1, b, x);
      if next != NIL {
        RunKeepsNode(maxHeight, ids, run, b - 1, b, next);
        RecentLater(run, a, b - 1, b, next, layer);
      }
    }
  }

  lemma RecentLater(run: seq<State>, a: nat, b: nat, b': nat, n: nat, layer: nat)
    requires Recent(run, a, b, n, layer) && b <= b'
    ensures Recent(run, a, b', n, layer)
  {
    hide In;
  }

  lemma RecentLower(run: seq<State>, a: nat, b: nat, n: nat, layer: nat, lower: nat)
    requires Recent(run, a, b, n, layer) && lower <= layer
    ensures Recent(run, a, b, n, lower)
  {
    var i: nat :| a <= i <= b && i < |run| && In(run[i].list, n, layer);
    assert In(run[i].list, n, lower);
  }

  /** Only x can be met with the key of x. */
  lemma RecentKey(maxHeight: nat, ids: set<ThreadId>, run: seq<State>, a: nat, b: nat, n: nat, layer: nat, x: nat)
    requires IsRun(maxHeight, ids, run) && a <= b < |run| && Recent(run, a, b, n, layer) && Stays(run, a, b, x)
    requires IsNode(run[b].list, n) && !run[b].list.nodes[n].isHead && IsNode(run[b].list, x) && run[b].list.nodes[n].key == run[b].list.nodes[x].key
    ensures n == x
  {
    hide IsRun, Inv, In;
    var i: nat :| a <= i <= b && i < |run| && In(run[i].list, n, layer);
    assert IsPresent(run[i].list, x);
    RunKeepsInv(maxHeight, ids, run, i);
    InLowest(run[i].list, n, layer);
    PresentIsIn(maxHeight, run[i], x);
    RunKeepsNode(maxHeight, ids, run, i, b, n);
    RunKeepsNode(maxHeight, ids, run, i, b, x);
    LayerParts(maxHeight, run[i], 0);
    MembersOrdered1(run[i].list, 0, n, x);
  }

  /** A find that has not passed x. */
  ghost predicate OnTrack(run: seq<State>, a: nat, b: nat, th: Thread, x: nat)
    requires b < |run| && IsNode(run[b].list, x)
  {
    var l := run[b].list;
    && th.op == Find(l.nodes[x].key)
    && Finding(th.pc)
    && (th.pc == FindDown ==> th.layer > 0 && Recent(run, a, b, th.pred, th.layer - 1) && IsNode(l, th.pred) && Before(l, th.pred, x))
    && (th.pc == FindRight ==> Recent(run, a, b, th.pred, th.layer) && IsNode(l, th.pred) && Before(l, th.pred, x))
    && (th.pc == FindMarked ==> th.foundNode == x)
  }

  /** The thread's own access. */
  lemma FinderGetsThere(maxHeight: nat, ids: set<ThreadId>, run: seq<State>, a: nat, b: nat, th: Thread, x: nat)
    requires IsRun(maxHeight, ids, run) && a <= b < |run| && Stays(run, a, b, x) && IsNode(run[b].list, x)
    requires OnTrack(run, a, b, th, x) && InRange(run[b].list, th)
    ensures var th' := FindStep(run[b].list, th); OnTrack(run, a, b, th', x) || th' == th.Answers(Present(x))
  {
    hide IsRun, Inv, In, LeadsOn, Recent, Stays, OnTrack;
    var l := run[b].list;
    TrackParts(run, a, b, th, x);
    if th.pc == FindHead {
      RunKeepsInv(maxHeight, ids, run, b);
      HeadIsPublished(maxHeight, run[b]);
      NodeParts(maxHeight, run[b], l.head);
      FinderAtHead(maxHeight, run, a, b, th, x);
    } else if th.pc == FindMarked {
      assert IsPresent(l, x) by { PresentNow(run, a, b, x); }
    } else {
      var layer := if th.pc == FindDown then th.layer - 1 else th.layer;
      RecentLeads(maxHeight, ids, run, a, b, th.pred, layer, x);
      var next := l.nodes[th.pred].skip[layer];
      if !Less(l, th.op.k, next) && !Greater(l, th.op.k, next) {
        LeadsParts(run, a, b, th.pred, layer, x);
        RecentKey(maxHeight, ids, run, a, b, next, layer, x);
      }
      FinderWalksOn(run, a, b, th, layer, x);
    }
  }

  lemma TrackParts(run: seq<State>, a: nat, b: nat, th: Thread, x: nat)
    requires b < |run| && IsNode(run[b].list, x) && OnTrack(run, a, b, th, x)
    ensures var l := run[b].list;
            && th.op == Find(l.nodes[x].key) && Finding(th.pc)
            && (th.pc == FindDown ==> th.layer > 0 && Recent(run, a, b, th.pred, th.layer - 1) && IsNode(l, th.pred) && Before(l, th.pred, x))
            && (th.pc == FindRight ==> Recent(run, a, b, th.pred, th.layer) && IsNode(l, th.pred) && Before(l, th.pred, x))
            && (th.pc == FindMarked ==> th.foundNode == x)
  {
  }

  lemma PresentNow(run: seq<State>, a: nat, b: nat, x: nat)
    requires a <= b < |run| && Stays(run, a, b, x)
    ensures IsPresent(run[b].list, x)
  {
  }

  lemma LeadsParts(run: seq<State>, a: nat, b: nat, n: nat, layer: nat, x: nat)
    requires b < |run| && HasLayer(run[b].list, n, layer) && IsNode(run[b].list, x) && LeadsOn(run, a, b, n, layer, x)
    ensures var l := run[b].list;
            var next := l.nodes[n].skip[layer];
            && (next != NIL ==> Recent(run, a, b, next, layer) && IsNode(l, next) && !l.nodes[next].isHead)
            && ((layer == 0 || layer < l.nodes[x].height) && Before(l, n, x) ==>
                  next != NIL && IsNode(l, next) && l.nodes[next].key <= l.nodes[x].key)
            && (next == NIL ==> !IsNode(l, next))
  {
  }

  lemma FinderAtHead(maxHeight: nat, run: seq<State>, a: nat, b: nat, th: Thread, x: nat)
    requires a <= b < |run| && IsNode(run[b].list, x) && OnTrack(run, a, b, th, x) && InRange(run[b].list, th) && th.pc == FindHead
    requires var l := run[b].list; IsNode(l, l.head) && l.nodes[l.head].isHead && NodeOk(maxHeight, l, l.head)
    ensures OnTrack(run, a, b, FindStep(run[b].list, th), x)
  {
    hide TargetOk;
    var l := run[b].list;
    assert In(l, l.head, l.nodes[l.head].height - 1);
    assert Recent(run, a, b, l.head, l.nodes[l.head].height - 1);
  }

  /** One pointer further, or one layer down; from the lowest layer never down. */
  lemma FinderWalksOn(run: seq<State>, a: nat, b: nat, th: Thread, layer: nat, x: nat)
    requires a <= b < |run| && IsNode(run[b].list, x) && OnTrack(run, a, b, th, x) && InRange(run[b].list, th)
    requires th.pc in {FindDown, FindRight} && layer == (if th.pc == FindDown then th.layer - 1 else th.layer)
    requires HasLayer(run[b].list, th.pred, layer) && LeadsOn(run, a, b, th.pred, layer, x)
    requires var l := run[b].list;
             var next := l.nodes[th.pred].skip[layer];
             !Less(l, th.op.k, next) && !Greater(l, th.op.k, next) ==> next == x
    ensures OnTrack(run, a, b, FindStep(run[b].list, th), x)
  {
    hide Recent;
    if layer > 0 {
      RecentLower(run, a, b, th.pred, layer, layer - 1);
    }
  }

  /** In any interleaving, a find during which its key's node stays linked and unmarked answers with that node. */
  lemma {:induction false} PresentKeysAreFound(
      maxHeight: nat, ids: set<ThreadId>, run: seq<State>, a: nat, b: nat, t: ThreadId, x: nat)
    requires IsRun(maxHeight, ids, run) && a <= b < |run| && Stays(run, a, b, x) && IsNode(run[a].list, x)
    requires t in run[a].threads && run[a].threads[t].pc == FindHead && run[a].threads[t].op == Find(run[a].list.nodes[x].key)
    requires forall i: nat | a <= i < b :: t in run[i].threads && Finding(run[i].threads[t].pc)
    ensures IsNode(run[b].list, x) && t in run[b].threads
    ensures var th := run[b].threads[t];
            OnTrack(run, a, b, th, x) || (th.pc == Idle && th.answer == Present(x))
  {
    hide IsRun, Inv, In, Step, CanStep, Recent, Stays, OnTrack;
    if a == b {
      TrackStarts(run, a, t, x);
    } else {
      ShorterStay(run, a, b - 1, b, x);
      PresentKeysAreFound(maxHeight, ids, run, a, b - 1, t, x);
      assert OnTrack(run, a, b - 1, run[b - 1].threads[t], x) by {
        assert Finding(run[b - 1].threads[t].pc);
      }
      TrackStep(maxHeight, ids, run, a, b - 1, t, x);
    }
  }

  lemma TrackStep(maxHeight: nat, ids: set<ThreadId>, run: seq<State>, a: nat, b: nat, t: ThreadId, x: nat)
    requires IsRun(maxHeight, ids, run) && a <= b && b + 1 < |run| && Stays(run, a, b, x)
    requires IsNode(run[b].list, x) && t in run[b].threads && OnTrack(run, a, b, run[b].threads[t], x)
    ensures IsNode(run[b + 1].list, x) && t in run[b + 1].threads
    ensures var th := run[b + 1].threads[t];
            OnTrack(run, a, b + 1, th, x) || (th.pc == Idle && th.answer == Present(x))
  {
    hide IsRun, Inv, In, Step, CanStep, Recent, Stays, OnTrack, FindStep, InRange;
    var th := run[b].threads[t];
    var u, c := NextStep(maxHeight, ids, run, b);
    OnlyOneMoves(maxHeight, run[b], u, c);
    RunKeepsNode(maxHeight, ids, run, b, b + 1, x);
    if u == t {
      CanStepIsLive(run[b], t);
      FinderGetsThere(maxHeight, ids, run, a, b, th, x);
      assert Finding(th.pc) by { TrackParts(run, a, b, th, x); }
      FinderStepIs(maxHeight, run[b], t, c);
    }
    if OnTrack(run, a, b, run[b + 1].threads[t], x) {
      TrackStays(maxHeight, ids, run, a, b + 1, run[b + 1].threads[t], x);
    }
  }

  lemma ShorterStay(run: seq<State>, a: nat, b: nat, b': nat, x: nat)
    requires Stays(run, a, b', x) && b <= b'
    ensures Stays(run, a, b, x)
  {
  }

  lemma TrackStarts(run: seq<State>, a: nat, t: ThreadId, x: nat)
    requires a < |run| && IsNode(run[a].list, x) && t in run[a].threads
    requires run[a].threads[t].pc == FindHead && run[a].threads[t].op == Find(run[a].list.nodes[x].key)
    ensures OnTrack(run, a, a, run[a].threads[t], x)
  {
  }

  lemma FinderStepIs(maxHeight: nat, s: State, t: ThreadId, c: Choice)
    requires CanStep(s, t) && Finding(s.threads[t].pc)
    ensures Step(maxHeight, s, t, c) == s.(threads := s.threads[t := FindStep(s.list, s.threads[t])])
  {
    hide LockStep, ReleaseStep, AddStep, RemoveStep, GrowStep, SearchStep, FindStep;
  }

  lemma TrackStays(maxHeight: nat, ids: set<ThreadId>, run: seq<State>, a: nat, b: nat, th: Thread, x: nat)
    requires IsRun(maxHeight, ids, run) && a < b < |run| && IsNode(run[b - 1].list, x) && OnTrack(run, a, b - 1, th, x)
    ensures IsNode(run[b].list, x) && OnTrack(run, a, b, th, x)
  {
    hide IsRun, Recent;
    RunKeepsNode(maxHeight, ids, run, b - 1, b, x);
    if th.pc in {FindDown, FindRight} {
      RunKeepsNode(maxHeight, ids, run, b - 1, b, th.pred);
      RecentLater(run, a, b - 1, b, th.pred, if th.pc == FindDown then th.layer - 1 else th.layer);
    }
  }

  // ----- Adds and removes of a present key -----

  /** An add or a remove that has not missed x: every layer above those of x was left without a hit, and the
      hit was in the highest layer of x, as the check before a removal demands. */
  ghost predicate Tracks(run: seq<State>, a: nat, b: nat, th: Thread, x: nat)
    requires b < |run| && IsNode(run[b].list, x)
  {
    var l := run[b].list;
    && (th.op == Add(l.nodes[x].key) || th.op == Remove(l.nodes[x].key)) && !th.isMarked && 0 < l.nodes[x].height
    && match th.pc
       case LoadMaxLayer => true
       case LoadHead => l.nodes[x].height <= th.maxLayer + 1
       case LoadSkip =>
         && Recent(run, a, b, th.pred, th.layer) && IsNode(l, th.pred) && Before(l, th.pred, x)
         && HitsAt(th.found, th.foundNode, th.layer + 1, l.nodes[x].height, x)
       case CheckFound => th.op.Add? && th.foundNode == x
       case WaitLinked => th.op.Add? && th.foundNode == x
       case CheckLinked => th.op.Remove? && th.foundNode == x && th.found == l.nodes[x].height - 1
       case CheckVictim => th.op.Remove? && th.foundNode == x
       case LockVictim => th.op.Remove? && th.node == x
       case RecheckVictim => th.op.Remove? && th.node == x
       case LoadMark => th.op.Remove? && th.node == x
       case StoreMark => th.op.Remove? && th.node == x
       case _ => false
  }

  /** What the search found in the layers from the given one up. */
  predicate HitsAt(found: int, node: nat, from: nat, height: nat, x: nat) {
    if from < height then found == height - 1 && node == x else found == -1 && node == NIL
  }

  /** A node with the key of x that is met in a layer is x, and x has that layer. */
  lemma MetIsInLayer(maxHeight: nat, ids: set<ThreadId>, run: seq<State>, a: nat, b: nat, layer: nat, x: nat)
    requires IsRun(maxHeight, ids, run) && a <= b < |run| && Recent(run, a, b, x, layer) && Stays(run, a, b, x)
    ensures IsNode(run[b].list, x) && layer < run[b].list.nodes[x].height
  {
    hide IsRun, Inv;
    RecentIsNode(maxHeight, ids, run, a, b, x, layer);
    RunKeepsInv(maxHeight, ids, run, b);
    NodeParts(maxHeight, run[b], x);
  }

  /** One pointer of the search. */
  lemma SearchMeets(maxHeight: nat, ids: set<ThreadId>, run: seq<State>, a: nat, b: nat, th: Thread, c: Choice, x: nat)
    requires IsRun(maxHeight, ids, run) && a <= b < |run| && Stays(run, a, b, x) && IsNode(run[b].list, x)
    requires Tracks(run, a, b, th, x) && InRange(run[b].list, th) && th.pc == LoadSkip
    ensures Tracks(run, a, b, SearchStep(run[b].list, th, c), x)
  {
    hide IsRun, Inv, In, LeadsOn, Recent, Stays;
    var l, layer := run[b].list, th.layer;
    RecentLeads(maxHeight, ids, run, a, b, th.pred, layer, x);
    LeadsParts(run, a, b, th.pred, layer, x);
    var next := l.nodes[th.pred].skip[layer];
    if !Less(l, th.op.k, next) && !Greater(l, th.op.k, next) {
      RecentKey(maxHeight, ids, run, a, b, next, layer, x);
      MetIsInLayer(maxHeight, ids, run, a, b, layer, x);
    }
    SearchRecords(run, a, b, th, c, x);
  }

  /** What the next pointer is, on the way to x. */
  ghost predicate NextIsOnWay(run: seq<State>, a: nat, b: nat, th: Thread, x: nat)
    requires b < |run| && IsNode(run[b].list, x) && HasLayer(run[b].list, th.pred, th.layer)
  {
    var l := run[b].list;
    var next := l.nodes[th.pred].skip[th.layer];
    && (next != NIL ==> Recent(run, a, b, next, th.layer) && IsNode(l, next) && !l.nodes[next].isHead)
    && (th.layer < l.nodes[x].height ==> !Less(l, th.op.k, next))
    && (!Less(l, th.op.k, next) && !Greater(l, th.op.k, next) ==> next == x && th.layer < l.nodes[x].height)
  }

  lemma SearchRecords(run: seq<State>, a: nat, b: nat, th: Thread, c: Choice, x: nat)
    requires a <= b < |run| && IsNode(run[b].list, x)
    requires Tracks(run, a, b, th, x) && InRange(run[b].list, th) && th.pc == LoadSkip && NextIsOnWay(run, a, b, th, x)
    ensures Tracks(run, a, b, SearchStep(run[b].list, th, c), x)
  {
    hide Recent, Searched, Recorded, HitsAt, Less, Tracks;
    if Greater(run[b].list, th.op.k, run[b].list.nodes[th.pred].skip[th.layer]) {
      SearchPasses(run, a, b, th, x);
    } else {
      SearchTurns(run, a, b, th, c, x);
    }
  }

  lemma SearchPasses(run: seq<State>, a: nat, b: nat, th: Thread, x: nat)
    requires a <= b < |run| && IsNode(run[b].list, x)
    requires Tracks(run, a, b, th, x) && InRange(run[b].list, th) && th.pc == LoadSkip && NextIsOnWay(run, a, b, th, x)
    requires Greater(run[b].list, th.op.k, run[b].list.nodes[th.pred].skip[th.layer])
    ensures Tracks(run, a, b, th.(pred := run[b].list.nodes[th.pred].skip[th.layer]), x)
  {
    hide Recent, HitsAt, Tracks;
    SearcherParts(run, a, b, th, x);
    SearchesOn(run, a, b, th.(pred := run[b].list.nodes[th.pred].skip[th.layer]), x);
  }

  lemma SearchTurns(run: seq<State>, a: nat, b: nat, th: Thread, c: Choice, x: nat)
    requires a <= b < |run| && IsNode(run[b].list, x)
    requires Tracks(run, a, b, th, x) && InRange(run[b].list, th) && th.pc == LoadSkip && NextIsOnWay(run, a, b, th, x)
    requires !Greater(run[b].list, th.op.k, run[b].list.nodes[th.pred].skip[th.layer])
    ensures Tracks(run, a, b, SearchStep(run[b].list, th, c), x)
  {
    hide Recent, Searched, Recorded, HitsAt, Less, Greater, Tracks, SearchStep;
    var l := run[b].list;
    var next := l.nodes[th.pred].skip[th.layer];
    var th2 := Recorded(l, th, next);
    SearcherParts(run, a, b, th, x);
    RecordsHit(l, th, next, x);
    TurnIs(l, th, c);
    if th.layer > 0 {
      RecentLower(run, a, b, th.pred, th.layer, th.layer - 1);
      SearchesOn(run, a, b, th2.(layer := th.layer - 1), x);
    } else {
      EndsSearch(run, a, b, th2, c, x);
    }
  }

  lemma TurnIs(l: SkipList, th: Thread, c: Choice)
    requires InRange(l, th) && th.pc == LoadSkip && !Greater(l, th.op.k, l.nodes[th.pred].skip[th.layer])
    ensures var th2 := Recorded(l, th, l.nodes[th.pred].skip[th.layer]);
            SearchStep(l, th, c) == if th.layer > 0 then th2.(layer := th.layer - 1) else Searched(th2, c)
  {
    hide Searched, Recorded, Less, Greater;
  }

  /** What Tracks says of a thread in its search. */
  predicate OnWay(l: SkipList, th: Thread, x: nat)
    requires IsNode(l, x)
  {
    && th.op in {Add(l.nodes[x].key), Remove(l.nodes[x].key)} && !th.isMarked && 0 < l.nodes[x].height
    && IsNode(l, th.pred) && Before(l, th.pred, x)
    && HitsAt(th.found, th.foundNode, th.layer + 1, l.nodes[x].height, x)
  }

  lemma SearcherParts(run: seq<State>, a: nat, b: nat, th: Thread, x: nat)
    requires b < |run| && IsNode(run[b].list, x) && Tracks(run, a, b, th, x) && th.pc == LoadSkip
    ensures OnWay(run[b].list, th, x) && Recent(run, a, b, th.pred, th.layer)
  {
    hide Recent, HitsAt;
  }

  lemma SearchesOn(run: seq<State>, a: nat, b: nat, th: Thread, x: nat)
    requires b < |run| && IsNode(run[b].list, x) && OnWay(run[b].list, th, x) && Recent(run, a, b, th.pred, th.layer)
    requires th.pc == LoadSkip
    ensures Tracks(run, a, b, th, x)
  {
    hide Recent, HitsAt;
  }

  lemma RecordsHit(l: SkipList, th: Thread, next: nat, x: nat)
    requires th.layer < |th.preds| == |th.succs| && IsNode(l, x) && HitsAt(th.found, th.foundNode, th.layer + 1, l.nodes[x].height, x)
    requires th.layer < l.nodes[x].height ==> !Less(l, th.op.k, next)
    requires !Less(l, th.op.k, next) ==> next == x && th.layer < l.nodes[x].height
    ensures var th2 := Recorded(l, th, next);
            && HitsAt(th2.found, th2.foundNode, th.layer, l.nodes[x].height, x)
            && th2.op == th.op && th2.pc == th.pc && th2.pred == th.pred && th2.isMarked == th.isMarked
  {
  }

  lemma EndsSearch(run: seq<State>, a: nat, b: nat, th: Thread, c: Choice, x: nat)
    requires b < |run| && IsNode(run[b].list, x) && !th.isMarked
    requires var node := run[b].list.nodes[x];
             0 < node.height && th.op in {Add(node.key), Remove(node.key)} && HitsAt(th.found, th.foundNode, 0, node.height, x)
    ensures Tracks(run, a, b, Searched(th, c), x)
  {
  }

  /** The thread's own access, which leaves x where it is. */
  lemma TrackerGetsThere(maxHeight: nat, ids: set<ThreadId>, run: seq<State>, a: nat, b: nat, t: ThreadId, c: Choice, x: nat)
    requires IsRun(maxHeight, ids, run) && a <= b && b + 1 < |run| && Stays(run, a, b + 1, x) && IsNode(run[b].list, x)
    requires CanStep(run[b], t) && run[b + 1] == Step(maxHeight, run[b], t, c) && Tracks(run, a, b, run[b].threads[t], x)
    ensures var th, th' := run[b].threads[t], run[b + 1].threads[t];
            Tracks(run, a, b, th', x) || (th.op.Add? && th' == th.Answers(Present(x)))
  {
    hide IsRun, Inv, In, Recent, Stays, Tracks, SearchStep;
    var th := run[b].threads[t];
    RunKeepsInv(maxHeight, ids, run, b);
    ShorterStay(run, a, b, b + 1, x);
    PresentNow(run, a, b, x);
    PresentNow(run, a, b + 1, x);
    TrackerStepIs(maxHeight, run, a, b, t, c, x);
    if th.pc == LoadSkip {
      SearchMeets(maxHeight, ids, run, a, b, th, c, x);
    } else if Searching(th.pc) {
      BelowHead(maxHeight, run[b], t, x);
      SearchStartsAt(run, a, b, th, c, x);
    } else {
      TrackerChecks(maxHeight, run, a, b, t, c, x);
    }
  }

  lemma TrackerStepIs(maxHeight: nat, run: seq<State>, a: nat, b: nat, t: ThreadId, c: Choice, x: nat)
    requires b < |run| && IsNode(run[b].list, x) && CanStep(run[b], t) && Tracks(run, a, b, run[b].threads[t], x)
    ensures var th, s' := run[b].threads[t], Step(maxHeight, run[b], t, c);
            && InRange(run[b].list, th)
            && (Searching(th.pc) || th.pc in {CheckFound, WaitLinked, CheckLinked, CheckVictim, LockVictim, RecheckVictim, LoadMark, StoreMark})
            && (Searching(th.pc) ==> s'.threads[t] == SearchStep(run[b].list, th, c))
  {
    hide Recent, SearchStep, AddStep, RemoveStep, InRange;
  }

  /** The head has all layers of x. */
  lemma BelowHead(maxHeight: nat, s: State, t: ThreadId, x: nat)
    requires Inv(maxHeight, s) && IsPresent(s.list, x) && t in s.threads
    ensures IsNode(s.list, s.list.head) && s.list.nodes[x].height <= s.list.nodes[s.list.head].height
    ensures s.threads[t].pc == LoadHead ==> In(s.list, s.list.head, s.threads[t].maxLayer)
    ensures s.list.nodes[s.list.head].isHead && 0 < s.list.nodes[x].height
  {
    hide Inv;
    HeadIsPublished(maxHeight, s);
    InvParts(maxHeight, s, t);
    IsLinked(maxHeight, s, x, 0);
    IsLinked(maxHeight, s, x, s.list.nodes[x].height - 1);
    LayerParts(maxHeight, s, 0);
  }

  lemma SearchStartsAt(run: seq<State>, a: nat, b: nat, th: Thread, c: Choice, x: nat)
    requires a <= b < |run| && IsNode(run[b].list, x) && InRange(run[b].list, th)
    requires Tracks(run, a, b, th, x) && th.pc in {LoadMaxLayer, LoadHead}
    requires var l := run[b].list;
             && l.nodes[x].height <= l.nodes[l.head].height && l.nodes[l.head].isHead
             && (th.pc == LoadHead ==> In(l, l.head, th.maxLayer))
    ensures Tracks(run, a, b, SearchStep(run[b].list, th, c), x)
  {
    hide In;
    if th.pc == LoadHead {
      assert Recent(run, a, b, run[b].list.head, th.maxLayer);
    }
  }

  /** After the search: the node is unmarked and linked, so nothing turns the operation away. */
  lemma TrackerChecks(maxHeight: nat, run: seq<State>, a: nat, b: nat, t: ThreadId, c: Choice, x: nat)
    requires b < |run| && IsNode(run[b].list, x) && CanStep(run[b], t) && Tracks(run, a, b, run[b].threads[t], x)
    requires !Searching(run[b].threads[t].pc) && IsPresent(run[b].list, x)
    requires IsPresent(Step(maxHeight, run[b], t, c).list, x)
    ensures var th, th' := run[b].threads[t], Step(maxHeight, run[b], t, c).threads[t];
            Tracks(run, a, b, th', x) || (th.op.Add? && th' == th.Answers(Present(x)))
  {
    hide Recent, SearchStep, LockStep, ReleaseStep, GrowStep, FindStep, AddStep, RemoveStep, Tracks;
    var th := run[b].threads[t];
    TrackerStepIs(maxHeight, run, a, b, t, c, x);
    if th.pc in {CheckFound, WaitLinked} {
      AddChecks(run, a, b, t, th, x);
    } else {
      RemoveChecks(run, a, b, t, th, x);
    }
  }

  lemma AddChecks(run: seq<State>, a: nat, b: nat, t: ThreadId, th: Thread, x: nat)
    requires b < |run| && IsPresent(run[b].list, x) && Tracks(run, a, b, th, x) && th.pc in {CheckFound, WaitLinked}
    ensures th.op.Add? && th.foundNode == x
    ensures var th' := AddStep(run[b].list, t, th).th; Tracks(run, a, b, th', x) || th' == th.Answers(Present(x))
  {
    hide Recent;
  }

  lemma RemoveChecks(run: seq<State>, a: nat, b: nat, t: ThreadId, th: Thread, x: nat)
    requires b < |run| && IsPresent(run[b].list, x) && Tracks(run, a, b, th, x)
    requires th.pc in {CheckLinked, CheckVictim, LockVictim, RecheckVictim, LoadMark, StoreMark}
    ensures th.pc in {CheckLinked, CheckVictim} ==> IsNode(run[b].list, th.foundNode)
    ensures !(th.pc in {CheckLinked, CheckVictim}) ==> IsNode(run[b].list, th.node)
    ensures var e := RemoveStep(run[b].list, t, th); IsPresent(e.list, x) ==> Tracks(run, a, b, e.th, x)
  {
    hide Recent;
  }

  /** In any interleaving, while the key's node stays linked and unmarked, an add of that key answers with that node,
      and a remove of it is never turned away: it goes on until it marks the node itself. */
  lemma {:induction false} PresentKeysAreMet(
      maxHeight: nat, ids: set<ThreadId>, run: seq<State>, a: nat, b: nat, t: ThreadId, x: nat)
    requires IsRun(maxHeight, ids, run) && a <= b < |run| && Stays(run, a, b, x) && IsNode(run[a].list, x)
    requires t in run[a].threads && run[a].threads[t].pc == LoadMaxLayer && !run[a].threads[t].isMarked
    requires run[a].threads[t].op in {Add(run[a].list.nodes[x].key), Remove(run[a].list.nodes[x].key)}
    requires forall i: nat | a <= i < b :: t in run[i].threads && run[i].threads[t].pc != Idle
    ensures IsNode(run[b].list, x) && t in run[b].threads
    ensures var th := run[b].threads[t];
            Tracks(run, a, b, th, x) || (th.op.Add? && th.pc == Idle && th.answer == Present(x))
  {
    hide IsRun, Inv, In, Step, CanStep, Recent, Stays, Tracks;
    if a == b {
      TracksFromStart(maxHeight, ids, run, a, t, x);
    } else {
      ShorterStay(run, a, b - 1, b, x);
      PresentKeysAreMet(maxHeight, ids, run, a, b - 1, t, x);
      assert run[b - 1].threads[t].pc != Idle;
      TracksOn(maxHeight, ids, run, a, b - 1, t, x);
    }
  }

  lemma TracksOn(maxHeight: nat, ids: set<ThreadId>, run: seq<State>, a: nat, b: nat, t: ThreadId, x: nat)
    requires IsRun(maxHeight, ids, run) && a <= b && b + 1 < |run| && Stays(run, a, b + 1, x)
    requires IsNode(run[b].list, x) && t in run[b].threads && Tracks(run, a, b, run[b].threads[t], x)
    ensures IsNode(run[b + 1].list, x) && t in run[b + 1].threads
    ensures var th := run[b + 1].threads[t];
            Tracks(run, a, b + 1, th, x) || (th.op.Add? && th.pc == Idle && th.answer == Present(x))
  {
    hide IsRun, Inv, In, Step, CanStep, Recent, Stays, Tracks;
    var u, c := NextStep(maxHeight, ids, run, b);
    OnlyOneMoves(maxHeight, run[b], u, c);
    RunKeepsNode(maxHeight, ids, run, b, b + 1, x);
    if u == t {
      TrackerGetsThere(maxHeight, ids, run, a, b, t, c, x);
    }
    if Tracks(run, a, b, run[b + 1].threads[t], x) {
      TracksStay(maxHeight, ids, run, a, b + 1, run[b + 1].threads[t], x);
    }
  }

  lemma TracksFromStart(maxHeight: nat, ids: set<ThreadId>, run: seq<State>, a: nat, t: ThreadId, x: nat)
    requires IsRun(maxHeight, ids, run) && a < |run| && Stays(run, a, a, x) && IsNode(run[a].list, x) && t in run[a].threads
    requires run[a].threads[t].pc == LoadMaxLayer && !run[a].threads[t].isMarked
    requires run[a].threads[t].op in {Add(run[a].list.nodes[x].key), Remove(run[a].list.nodes[x].key)}
    ensures Tracks(run, a, a, run[a].threads[t], x)
  {
    hide IsRun, Inv;
    RunKeepsInv(maxHeight, ids, run, a);
    NodeParts(maxHeight, run[a], x);
  }

  lemma TracksStay(maxHeight: nat, ids: set<ThreadId>, run: seq<State>, a: nat, b: nat, th: Thread, x: nat)
    requires IsRun(maxHeight, ids, run) && a < b < |run| && IsNode(run[b - 1].list, x) && Tracks(run, a, b - 1, th, x)
    ensures IsNode(run[b].list, x) && Tracks(run, a, b, th, x)
  {
    hide IsRun, Recent;
    RunKeepsNode(maxHeight, ids, run, b - 1, b, x);
    if th.pc == LoadSkip {
      RunKeepsNode(maxHeight, ids, run, b - 1, b, th.pred);
      RecentLater(run, a, b - 1, b, th.pred, th.layer);
    }
  }

  // ----- Answers are true -----

  /** In the lowest layer, with that key and not marked. */
  predicate IsThere(l: SkipList, n: nat, k: Key) {
    In(l, n, 0) && !l.nodes[n].isHead && l.nodes[n].key == k && !l.nodes[n].marked
  }

  /** A node that was found is in the list as long as it is not marked. */
  lemma FoundIsThere(maxHeight: nat, s: State, t: ThreadId)
    requires Inv(maxHeight, s) && t in s.threads && s.threads[t].pc in {FindMarked, CheckFound}
    ensures var th := s.threads[t];
            IsNode(s.list, th.foundNode) && (!s.list.nodes[th.foundNode].marked ==> IsThere(s.list, th.foundNode, th.op.k))
  {
    hide Inv, TargetOk;
    InvParts(maxHeight, s, t);
    FoundHasTop(maxHeight, s.list, t, s.threads[t]);
    NodeParts(maxHeight, s, s.threads[t].foundNode);
  }

  lemma FoundHasTop(maxHeight: nat, l: SkipList, t: ThreadId, th: Thread)
    requires ThreadOk(maxHeight, l, t, th) && th.pc in {FindMarked, CheckFound}
    ensures IsNode(l, th.foundNode) && !l.nodes[th.foundNode].isHead && 0 < l.nodes[th.foundNode].top
    ensures l.nodes[th.foundNode].key == th.op.k
  {
  }

  /** At some moment between a and b, node n was there. */
  ghost predicate WasThere(run: seq<State>, a: nat, b: nat, n: nat, k: Key) {
    exists i: nat :: a <= i <= b && i < |run| && IsThere(run[i].list, n, k)
  }

  /** What an operation in its last steps has answered is not Present. */
  predicate Ended(th: Thread) {
    Growing(th.pc) || th.pc == ReleaseVictim || (th.pc == Release && th.done) ==> !th.answer.Present?
  }

  /** A thread with its answer, or about to give it, saw the node. */
  ghost predicate Saw(run: seq<State>, a: nat, b: nat, th: Thread) {
    && Ended(th)
    && (th.pc == WaitLinked ==> WasThere(run, a, b, th.foundNode, th.op.k))
    && (b > a && th.pc == Idle && th.answer.Present? ==> WasThere(run, a, b, th.answer.n, th.op.k))
  }

  /** In any interleaving, a find or an add that answers with a node saw it in the list and unmarked during the call. */
  lemma {:induction false} PresentWasThere(maxHeight: nat, ids: set<ThreadId>, run: seq<State>, a: nat, b: nat, t: ThreadId)
    requires IsRun(maxHeight, ids, run) && a <= b < |run|
    requires t in run[a].threads && run[a].threads[t].pc in {LoadMaxLayer, FindHead}
    requires forall i: nat | a <= i < b :: t in run[i].threads && run[i].threads[t].pc != Idle
    ensures t in run[b].threads && run[b].threads[t].op == run[a].threads[t].op && Saw(run, a, b, run[b].threads[t])
  {
    hide IsRun, Inv, Step, CanStep, IsThere, WasThere;
    if a < b {
      PresentWasThere(maxHeight, ids, run, a, b - 1, t);
      var u, c := NextStep(maxHeight, ids, run, b - 1);
      OnlyOneMoves(maxHeight, run[b - 1], u, c);
      var th := run[b - 1].threads[t];
      assert th.pc != Idle;
      WasThereLater(run, a, b - 1, b, th.foundNode, th.op.k);
      if u == t {
        AnswerStep(maxHeight, run[b - 1], t, c);
        NowThere(run, a, b - 1, b, th.foundNode, th.op.k);
      }
    }
  }

  lemma WasThereLater(run: seq<State>, a: nat, b: nat, b': nat, n: nat, k: Key)
    requires b <= b'
    ensures WasThere(run, a, b, n, k) ==> WasThere(run, a, b', n, k)
  {
    hide IsThere;
  }

  lemma NowThere(run: seq<State>, a: nat, i: nat, b: nat, n: nat, k: Key)
    requires a <= i <= b < |run|
    ensures IsThere(run[i].list, n, k) ==> WasThere(run, a, b, n, k)
  {
    hide IsThere;
  }

  /** How one access of the thread leads to its answer. */
  lemma AnswerStep(maxHeight: nat, s: State, t: ThreadId, c: Choice)
    requires Inv(maxHeight, s) && CanStep(s, t) && s.threads[t].pc != Idle && Ended(s.threads[t])
    ensures var th, th' := s.threads[t], Step(maxHeight, s, t, c).threads[t];
            && th'.op == th.op && Ended(th')
            && (th'.pc == WaitLinked ==>
                  && th'.foundNode == th.foundNode
                  && (th.pc == WaitLinked || (th.pc == CheckFound && IsThere(s.list, th.foundNode, th.op.k))))
            && (th'.pc == Idle && th'.answer.Present? ==>
                  && th'.answer.n == th.foundNode
                  && (th.pc == WaitLinked || (th.pc == FindMarked && IsThere(s.list, th.foundNode, th.op.k))))
  {
    hide Inv, Step, CanStep, IsThere, InRange, ThreadStep;
    CanStepIsLive(s, t);
    var th := s.threads[t];
    if th.pc in {FindMarked, CheckFound} {
      FoundIsThere(maxHeight, s, t);
    }
    StepIs(maxHeight, s, t, c);
    AnswerOf(maxHeight, s.list, t, th, c);
  }

  /** One access of the thread, in terms of what it found. */
  predicate Tells(l: SkipList, th: Thread, th': Thread)
    requires th.pc in {FindMarked, CheckFound} ==> IsNode(l, th.foundNode)
  {
    && th'.op == th.op && Ended(th')
    && (th'.pc == WaitLinked ==>
          && th'.foundNode == th.foundNode
          && (th.pc == WaitLinked || (th.pc == CheckFound && !l.nodes[th.foundNode].marked)))
    && (th'.pc == Idle && th'.answer.Present? ==>
          && th'.answer.n == th.foundNode
          && (th.pc == WaitLinked || (th.pc == FindMarked && !l.nodes[th.foundNode].marked)))
  }

  lemma AnswerOf(maxHeight: nat, l: SkipList, t: ThreadId, th: Thread, c: Choice)
    requires InRange(l, th) && th.pc != Idle && Ended(th)
    ensures th.pc in {FindMarked, CheckFound} ==> IsNode(l, th.foundNode)
    ensures Tells(l, th, ThreadStep(maxHeight, l, t, th, c).th)
  {
    hide LockStep, ReleaseStep, AddStep, RemoveStep, GrowStep, SearchStep, FindStep, Tells, Ended;
    if Searching(th.pc) {
      SearchTells(l, th, c);
    } else if Locking(th.pc) {
      LockTells(l, t, th);
    } else if th.pc == Release {
      ReleaseTells(l, th, c);
    } else if Adding(th.pc) {
      AddTells(l, t, th);
    } else if Removing(th.pc) {
      RemoveTells(l, t, th);
    } else if Growing(th.pc) {
      GrowTells(maxHeight, l, t, th, c);
    } else {
      FindTells(l, th);
    }
  }

  /** Most accesses give no answer of that kind. */
  lemma TellsNothing(l: SkipList, th: Thread, th': Thread)
    requires th.pc in {FindMarked, CheckFound} ==> IsNode(l, th.foundNode)
    requires th'.op == th.op && Ended(th') && th'.pc != WaitLinked && (th'.pc == Idle ==> !th'.answer.Present?)
    ensures Tells(l, th, th')
  {
  }

  lemma SearchTells(l: SkipList, th: Thread, c: Choice)
    requires InRange(l, th) && Searching(th.pc)
    ensures Tells(l, th, SearchStep(l, th, c))
  {
    hide Tells, Less, Greater, Recorded, Searched;
    var th' := SearchStep(l, th, c);
    if th.pc == LoadSkip {
      var th2 := Recorded(l, th, l.nodes[th.pred].skip[th.layer]);
      RecordedOp(l, th);
      SearchedTells(l, th, th2, c);
      if th' != Searched(th2, c) {
        TellsNothing(l, th, th');
      }
    } else {
      TellsNothing(l, th, th');
    }
  }

  lemma RecordedOp(l: SkipList, th: Thread)
    requires InRange(l, th) && th.pc == LoadSkip
    ensures var th2 := Recorded(l, th, l.nodes[th.pred].skip[th.layer]); th2.op == th.op && th2.pc == th.pc
  {
  }

  lemma SearchedTells(l: SkipList, th: Thread, th2: Thread, c: Choice)
    requires th.pc == LoadSkip && th2.op == th.op
    ensures Tells(l, th, Searched(th2, c))
  {
  }

  lemma LockTells(l: SkipList, t: ThreadId, th: Thread)
    requires InRange(l, th) && Locking(th.pc)
    ensures Tells(l, th, LockStep(l, t, th).th)
  {
    hide Tells, Fails, LayerIsValid;
    var th' := LockStep(l, t, th).th;
    LockEnds(l, th);
    if th' != Fails(th) && th' != LayerIsValid(th) {
      assert th'.pc in {LockPred, CheckPred, CheckSkip, CheckSucc};
      TellsNothing(l, th, th');
    }
  }

  lemma LockEnds(l: SkipList, th: Thread)
    requires Locking(th.pc)
    ensures Tells(l, th, Fails(th)) && Tells(l, th, LayerIsValid(th))
  {
  }

  lemma ReleaseTells(l: SkipList, th: Thread, c: Choice)
    requires InRange(l, th) && th.pc == Release && Ended(th)
    ensures Tells(l, th, ReleaseStep(l, th, c).th)
  {
    hide Tells;
    TellsNothing(l, th, ReleaseStep(l, th, c).th);
  }

  lemma AddTells(l: SkipList, t: ThreadId, th: Thread)
    requires InRange(l, th) && Adding(th.pc)
    ensures Tells(l, th, AddStep(l, t, th).th)
  {
    hide AddStep, Tells;
    if th.pc in {CheckFound, WaitLinked} {
      WaiterTells(l, t, th);
    } else {
      LinkerTells(l, t, th);
      TellsNothing(l, th, AddStep(l, t, th).th);
    }
  }

  lemma WaiterTells(l: SkipList, t: ThreadId, th: Thread)
    requires InRange(l, th) && th.pc in {CheckFound, WaitLinked}
    ensures Tells(l, th, AddStep(l, t, th).th)
  {
  }

  lemma LinkerTells(l: SkipList, t: ThreadId, th: Thread)
    requires InRange(l, th) && Adding(th.pc) && !(th.pc in {CheckFound, WaitLinked})
    ensures var th' := AddStep(l, t, th).th;
            th'.op == th.op && Ended(th') && th'.pc in {SetNew, Link, LoadLinked, StoreLinked, IncSize, Release}
  {
  }

  lemma RemoveTells(l: SkipList, t: ThreadId, th: Thread)
    requires InRange(l, th) && Removing(th.pc) && Ended(th)
    ensures Tells(l, th, RemoveStep(l, t, th).th)
  {
    hide RemoveStep, Tells, Ended;
    if th.pc in {CheckLinked, CheckVictim, LockVictim, RecheckVictim} {
      VictimTells(l, t, th);
    } else {
      RemoverTells(l, t, th);
    }
    TellsNothing(l, th, RemoveStep(l, t, th).th);
  }

  lemma VictimTells(l: SkipList, t: ThreadId, th: Thread)
    requires InRange(l, th) && th.pc in {CheckLinked, CheckVictim, LockVictim, RecheckVictim}
    ensures var th' := RemoveStep(l, t, th).th;
            th'.op == th.op && Ended(th') && th'.pc != WaitLinked && (th'.pc == Idle ==> !th'.answer.Present?)
  {
  }

  lemma RemoverTells(l: SkipList, t: ThreadId, th: Thread)
    requires InRange(l, th) && th.pc in {LoadMark, StoreMark, LoadVictim, Unlink, DecSize, ReleaseVictim} && Ended(th)
    ensures var th' := RemoveStep(l, t, th).th;
            th'.op == th.op && Ended(th') && th'.pc != WaitLinked && (th'.pc == Idle ==> !th'.answer.Present?)
  {
  }

  lemma GrowTells(maxHeight: nat, l: SkipList, t: ThreadId, th: Thread, c: Choice)
    requires InRange(l, th) && Growing(th.pc) && Ended(th)
    ensures Tells(l, th, GrowStep(maxHeight, l, t, th, c).th)
  {
    hide Tells;
    TellsNothing(l, th, GrowStep(maxHeight, l, t, th, c).th);
  }

  lemma FindTells(l: SkipList, th: Thread)
    requires InRange(l, th) && Finding(th.pc)
    ensures Tells(l, th, FindStep(l, th))
  {
    hide Less, Greater, Down, Right, Tells;
    if th.pc == FindMarked {
      EndTells(l, th);
    } else if th.pc == FindHead {
      DownTells(l, th, th.(pred := l.head), l.nodes[l.head].height);
    } else {
      var layer := if th.pc == FindDown then th.layer - 1 else th.layer;
      DownTells(l, th, th, layer);
      RightTells(l, th, th.(layer := layer), l.nodes[th.pred].skip[layer]);
    }
  }

  lemma EndTells(l: SkipList, th: Thread)
    requires InRange(l, th) && th.pc == FindMarked
    ensures Tells(l, th, FindStep(l, th))
  {
  }

  lemma DownTells(l: SkipList, th: Thread, th1: Thread, height: nat)
    requires th.pc in {FindHead, FindDown, FindRight} && th1.op == th.op
    ensures Tells(l, th, Down(th1, height))
  {
  }

  lemma RightTells(l: SkipList, th: Thread, th1: Thread, node: nat)
    requires th.pc in {FindDown, FindRight} && th1.op == th.op
    ensures Tells(l, th, Right(l, th1, node))
  {
  }

  // ----- size_ -----

  /** The nodes that size_ counts. */
  function Counted(l: SkipList): set<nat> {
    set n: nat | 0 < n < |l.nodes| && l.nodes[n].counted
  }

  predicate Linking(pc: Pc) { pc in {SetNew, Link, LoadLinked, StoreLinked, IncSize} }

  /** A node in the list is counted, unless its maker is still at work; a counted one is in it, unless its remover is. */
  predicate CountOk(s: State, n: nat)
    requires IsNode(s.list, n)
  {
    var node := s.list.nodes[n];
    && (node.counted ==> !node.isHead)
    && (!node.isHead && node.levels > 0 && !node.counted ==>
          node.creator in s.threads && var th := s.threads[node.creator]; Linking(th.pc) && th.node == n)
    && (node.counted && node.levels == 0 ==>
          node.lock.By? && node.lock.owner in s.threads && var th := s.threads[node.lock.owner]; th.pc == DecSize && th.node == n)
  }

  predicate WorkOk(l: SkipList, th: Thread) {
    && (Linking(th.pc) ==> IsNode(l, th.node) && !l.nodes[th.node].counted)
    && (th.pc == DecSize ==> IsNode(l, th.node) && l.nodes[th.node].counted)
  }

  ghost predicate SizeOk(s: State) {
    && s.list.size == |Counted(s.list)|
    && (forall n: nat | IsNode(s.list, n) :: CountOk(s, n))
    && (forall t | t in s.threads :: WorkOk(s.list, s.threads[t]))
  }

  /** How an access changes what is counted. */
  ghost predicate Recounts(l: SkipList, l': SkipList, th: Thread) {
    && |l.nodes| <= |l'.nodes|
    && (forall n: nat | IsNode(l, n) && !(th.pc in {IncSize, DecSize} && n == th.node) :: l'.nodes[n].counted == l.nodes[n].counted)
    && (forall n: nat | |l.nodes| <= n < |l'.nodes| :: !l'.nodes[n].counted && l'.nodes[n].levels == 0)
    && (th.pc == IncSize ==> IsNode(l, th.node) && l'.nodes[th.node].counted && l'.size == l.size + 1)
    && (th.pc == DecSize ==> IsNode(l, th.node) && !l'.nodes[th.node].counted && l'.size == l.size - 1)
    && (!(th.pc in {IncSize, DecSize}) ==> l'.size == l.size)
  }

  lemma StepRecounts(maxHeight: nat, s: State, t: ThreadId, c: Choice)
    requires CanStep(s, t)
    ensures Recounts(s.list, Step(maxHeight, s, t, c).list, s.threads[t])
  {
    hide LockStep, ReleaseStep, AddStep, RemoveStep, GrowStep, SearchStep, FindStep, Recounts;
    var l, th := s.list, s.threads[t];
    if Locking(th.pc) || th.pc == Release {
      LockRecounts(l, t, th, c);
    } else if Adding(th.pc) {
      AddRecounts(l, t, th);
    } else if Removing(th.pc) {
      RemoveRecounts(l, t, th);
    } else if Growing(th.pc) {
      GrowRecounts(maxHeight, l, t, th, c);
    } else {
      SameRecounts(l, th);
    }
  }

  lemma SameRecounts(l: SkipList, th: Thread)
    requires !(th.pc in {IncSize, DecSize})
    ensures Recounts(l, l, th)
  {
  }

  lemma LockRecounts(l: SkipList, t: ThreadId, th: Thread, c: Choice)
    requires InRange(l, th) && (Locking(th.pc) || th.pc == Release)
    ensures Recounts(l, if th.pc == Release then ReleaseStep(l, th, c).list else LockStep(l, t, th).list, th)
  {
  }

  lemma AddRecounts(l: SkipList, t: ThreadId, th: Thread)
    requires InRange(l, th) && Adding(th.pc)
    ensures Recounts(l, AddStep(l, t, th).list, th)
  {
  }

  lemma RemoveRecounts(l: SkipList, t: ThreadId, th: Thread)
    requires InRange(l, th) && Removing(th.pc)
    ensures Recounts(l, RemoveStep(l, t, th).list, th)
  {
  }

  lemma GrowRecounts(maxHeight: nat, l: SkipList, t: ThreadId, th: Thread, c: Choice)
    requires InRange(l, th) && Growing(th.pc)
    ensures Recounts(l, GrowStep(maxHeight, l, t, th, c).list, th)
  {
  }

  lemma IsCounted(l: SkipList, n: nat)
    ensures n in Counted(l) <==> IsNode(l, n) && l.nodes[n].counted
  {
  }

  lemma RecountedNode(l: SkipList, l': SkipList, th: Thread, n: nat)
    requires Recounts(l, l', th) && WorkOk(l, th) && |l.nodes| > 0
    ensures n in Counted(l') <==> (n in Counted(l) && !(th.pc == DecSize && n == th.node)) || (th.pc == IncSize && n == th.node)
  {
    hide Counted;
    IsCounted(l, n);
    IsCounted(l', n);
  }

  /** size_ moves with the counted nodes. */
  lemma SizeMoves(l: SkipList, l': SkipList, th: Thread)
    requires Recounts(l, l', th) && WorkOk(l, th) && l.size == |Counted(l)| && |l.nodes| > 0
    ensures l'.size == |Counted(l')|
  {
    hide Counted;
    var was, now := Counted(l), Counted(l');
    forall n: nat
      ensures n in now <==> (n in was && !(th.pc == DecSize && n == th.node)) || (th.pc == IncSize && n == th.node)
    {
      RecountedNode(l, l', th, n);
    }
    IsCounted(l, th.node);
    if th.pc == IncSize {
      assert now == was + {th.node};
    } else if th.pc == DecSize {
      assert now == was - {th.node};
    } else {
      assert now == was;
    }
  }

  /** Only a link adds to a node's levels, and only an unlink takes from them. */
  lemma LevelsMove(maxHeight: nat, s: State, t: ThreadId, c: Choice, n: nat)
    requires Inv(maxHeight, s) && CanStep(s, t) && IsNode(s.list, n) && !s.list.nodes[n].isHead
    ensures var l, l', th := s.list, Step(maxHeight, s, t, c).list, s.threads[t];
            && IsNode(l', n)
            && (l'.nodes[n].levels != l.nodes[n].levels ==> th.pc in {Link, Unlink} && n == th.node)
            && (th.pc == Link && n == th.node ==> l'.nodes[n].levels == th.k + 1)
            && (th.pc == Unlink && n == th.node ==> l.nodes[n].levels == th.k + 1 && l'.nodes[n].levels == th.k)
  {
    hide Inv, Step, CanStep;
    CanStepIsLive(s, t);
    var th, l, l' := s.threads[t], s.list, Step(maxHeight, s, t, c).list;
    if th.pc == Link {
      LinkInserts(maxHeight, s, t, c);
    } else if th.pc == Unlink {
      UnlinkDeletes(maxHeight, s, t, c);
    } else if th.pc == GrowCas && l.head == th.oldHead {
      CasRegrows(maxHeight, s, t, c);
    } else {
      StepIsQuiet(maxHeight, s, t, c);
    }
  }

  /** While its maker has not counted it, a node cannot be taken out of the lowest layer: the maker still holds the
      lock of its predecessor. */
  lemma VictimIsCounted(maxHeight: nat, s: State, t: ThreadId)
    requires Inv(maxHeight, s) && SizeOk(s) && CanStep(s, t) && s.threads[t].pc == Unlink && s.threads[t].k == 0
    ensures IsNode(s.list, s.threads[t].node) && s.list.nodes[s.threads[t].node].counted
  {
    hide Inv, LayerOk, MembersOk, HeadOk, NodeOk, FoundOk, HeldOk, In;
    var th, l := s.threads[t], s.list;
    InvParts(maxHeight, s, t);
    VictimIsNext(maxHeight, s, t, 0);
    ValidAt(l, t, th, 0, 1, 0);
    assert CountOk(s, th.node);
    if !l.nodes[th.node].counted {
      var u := l.nodes[th.node].creator;
      MakerHoldsPredecessor(maxHeight, s, u, th.node);
      LayerParts(maxHeight, s, 0);
      PointsToVictim(maxHeight, s, th.preds[0]);
      PointsToVictim(maxHeight, s, s.threads[u].preds[0]);
      OnePredecessor(l, 0, s.threads[u].preds[0], th.preds[0], th.node);
    }
  }

  lemma PointsToVictim(maxHeight: nat, s: State, p: nat)
    requires Inv(maxHeight, s) && HasLayer(s.list, p, 0)
    ensures TargetOk(s.list, p, 0, s.list.nodes[p].skip[0])
  {
    hide Inv, NodeOk, TargetOk;
    NodeParts(maxHeight, s, p);
    PointsAhead(maxHeight, s.list, p, 0);
  }

  lemma MakerHoldsPredecessor(maxHeight: nat, s: State, u: ThreadId, n: nat)
    requires Inv(maxHeight, s) && u in s.threads && Linking(s.threads[u].pc) && s.threads[u].node == n
    requires IsNode(s.list, n) && s.list.nodes[n].linked
    ensures |s.threads[u].preds| > 0
    ensures var p := s.threads[u].preds[0];
            In(s.list, p, 0) && HasLayer(s.list, p, 0) && s.list.nodes[p].skip[0] == n && s.list.nodes[p].lock == By(u)
  {
    hide Inv, LayerOk, MembersOk, HeadOk, NodeOk, FoundOk, HeldOk, ValidFrom, In;
    InvParts(maxHeight, s, u);
    ValidIsIn(maxHeight, s, u, s.threads[u].preds[0], 0, n);
  }

  /** Makers stay makers until they count, and unlinkers become uncounters. */
  predicate WorkMoves(l: SkipList, th: Thread, th': Thread) {
    && (Linking(th.pc) && th.pc != IncSize ==> Linking(th'.pc) && th'.node == th.node)
    && (Linking(th'.pc) ==> (Linking(th.pc) && th.pc != IncSize && th'.node == th.node) || (th.pc == Create && th'.node == |l.nodes|))
    && (th'.pc == DecSize ==> th.pc == Unlink && th.k == 0 && th'.node == th.node)
    && (th.pc == Unlink && th.k == 0 ==> th'.pc == DecSize && th'.node == th.node)
  }

  lemma AddWorks(l: SkipList, t: ThreadId, th: Thread)
    requires InRange(l, th) && Adding(th.pc)
    ensures WorkMoves(l, th, AddStep(l, t, th).th)
  {
  }

  lemma RemoveWorks(l: SkipList, t: ThreadId, th: Thread)
    requires InRange(l, th) && Removing(th.pc)
    ensures WorkMoves(l, th, RemoveStep(l, t, th).th)
  {
  }

  lemma SearchWorks(maxHeight: nat, l: SkipList, t: ThreadId, th: Thread, c: Choice)
    requires InRange(l, th) && Searching(th.pc)
    ensures WorkMoves(l, th, SearchStep(l, th, c))
  {
  }

  lemma LockWorks(maxHeight: nat, l: SkipList, t: ThreadId, th: Thread, c: Choice)
    requires InRange(l, th) && Locking(th.pc)
    ensures WorkMoves(l, th, LockStep(l, t, th).th)
  {
  }

  lemma ReleaseWorks(maxHeight: nat, l: SkipList, t: ThreadId, th: Thread, c: Choice)
    requires InRange(l, th) && th.pc == Release
    ensures WorkMoves(l, th, ReleaseStep(l, th, c).th)
  {
  }

  lemma GrowWorks(maxHeight: nat, l: SkipList, t: ThreadId, th: Thread, c: Choice)
    requires InRange(l, th) && Growing(th.pc)
    ensures WorkMoves(l, th, GrowStep(maxHeight, l, t, th, c).th)
  {
  }

  lemma FindWorks(maxHeight: nat, l: SkipList, t: ThreadId, th: Thread, c: Choice)
    requires InRange(l, th) && Finding(th.pc)
    ensures WorkMoves(l, th, FindStep(l, th))
  {
  }

  lemma IdleWorks(l: SkipList, th: Thread, th': Thread)
    requires th.pc == Idle && th'.pc in {FindHead, LoadMaxLayer}
    ensures WorkMoves(l, th, th')
  {
  }

  lemma WorkerMoves(maxHeight: nat, s: State, t: ThreadId, c: Choice)
    requires CanStep(s, t)
    ensures t in Step(maxHeight, s, t, c).threads && WorkMoves(s.list, s.threads[t], Step(maxHeight, s, t, c).threads[t])
  {
    hide LockStep, ReleaseStep, AddStep, RemoveStep, GrowStep, SearchStep, FindStep, WorkMoves;
    var th, l := s.threads[t], s.list;
    if Adding(th.pc) {
      AddWorks(l, t, th);
    } else if Removing(th.pc) {
      RemoveWorks(l, t, th);
    } else {
      if Searching(th.pc) {
        SearchWorks(maxHeight, l, t, th, c);
      } else if Locking(th.pc) {
        LockWorks(maxHeight, l, t, th, c);
      } else if th.pc == Release {
        ReleaseWorks(maxHeight, l, t, th, c);
      } else if Growing(th.pc) {
        GrowWorks(maxHeight, l, t, th, c);
      } else if Finding(th.pc) {
        FindWorks(maxHeight, l, t, th, c);
      } else {
        IdleWorks(l, th, ThreadStep(maxHeight, l, t, th, c).th);
      }
    }
  }

  /** A maker counts a node that is in the list; an uncounted one is not; and a remover keeps its victim's lock. */
  lemma WorkerKnows(maxHeight: nat, s: State, t: ThreadId)
    requires Inv(maxHeight, s) && CanStep(s, t)
    ensures var l, th := s.list, s.threads[t];
            && (th.pc == DecSize ==> IsNode(l, th.node) && l.nodes[th.node].levels == 0 && l.nodes[th.node].lock == By(t) && !l.nodes[th.node].isHead)
            && (th.pc == Unlink ==> IsNode(l, th.node) && l.nodes[th.node].lock == By(t))
            && (Linking(th.pc) ==> IsNode(l, th.node) && l.nodes[th.node].creator == t && !l.nodes[th.node].isHead)
            && (th.pc == IncSize ==> l.nodes[th.node].levels > 0)
  {
    hide Inv, LayerOk, MembersOk, HeadOk, NodeOk, FoundOk, HeldOk, ValidFrom, In, InRange;
    CanStepIsLive(s, t);
    var th, l := s.threads[t], s.list;
    InvParts(maxHeight, s, t);
    if th.pc == IncSize {
      ValidIsIn(maxHeight, s, t, th.preds[0], 0, th.node);
      NextComesAfter(maxHeight, s, 0, th.preds[0]);
      assert In(l, th.node, 0);
      MemberHasLevels(l, th.node);
    }
  }

  lemma MemberHasLevels(l: SkipList, n: nat)
    requires In(l, n, 0) && !l.nodes[n].isHead
    ensures l.nodes[n].levels > 0
  {
  }

  /** No thread's unlink takes the lock of its victim away. */
  lemma UnlinkKeepsLock(maxHeight: nat, s: State, t: ThreadId, c: Choice)
    requires Inv(maxHeight, s) && CanStep(s, t) && s.threads[t].pc == Unlink
    ensures var l, l', th := s.list, Step(maxHeight, s, t, c).list, s.threads[t];
            IsNode(l, th.node) && IsNode(l', th.node) && l'.nodes[th.node].lock == l.nodes[th.node].lock
  {
    hide Inv, Step, CanStep;
    CanStepIsLive(s, t);
    UnlinkDeletes(maxHeight, s, t, c);
  }

  lemma StepKeepsCount(maxHeight: nat, s: State, t: ThreadId, c: Choice, n: nat)
    requires Inv(maxHeight, s) && SizeOk(s) && CanStep(s, t) && IsNode(s.list, n)
    ensures IsNode(Step(maxHeight, s, t, c).list, n) && CountOk(Step(maxHeight, s, t, c), n)
  {
    hide Inv, Step, CanStep, Counted;
    CanStepIsLive(s, t);
    StepEvolves(maxHeight, s, t, c);
    StepRecounts(maxHeight, s, t, c);
    assert CountOk(s, n) && WorkOk(s.list, s.threads[t]);
    WorkerKnows(maxHeight, s, t);
    if !s.list.nodes[n].isHead {
      LevelsMove(maxHeight, s, t, c, n);
      OnlyOneMoves(maxHeight, s, t, c);
      WorkerMoves(maxHeight, s, t, c);
      if s.threads[t].pc == Unlink {
        UnlinkKeepsLock(maxHeight, s, t, c);
      }
    }
  }

  lemma StepKeepsWork(maxHeight: nat, s: State, t: ThreadId, c: Choice, u: ThreadId)
    requires Inv(maxHeight, s) && SizeOk(s) && CanStep(s, t) && u in s.threads
    ensures u in Step(maxHeight, s, t, c).threads && WorkOk(Step(maxHeight, s, t, c).list, Step(maxHeight, s, t, c).threads[u])
  {
    hide Inv, Step, CanStep, Counted;
    CanStepIsLive(s, t);
    StepRecounts(maxHeight, s, t, c);
    OnlyOneMoves(maxHeight, s, t, c);
    WorkerMoves(maxHeight, s, t, c);
    NobodyIsStuck(maxHeight, s, u);
    WorkerKnows(maxHeight, s, u);
    WorkerKnows(maxHeight, s, t);
    assert WorkOk(s.list, s.threads[u]) && WorkOk(s.list, s.threads[t]);
    CreatesFresh(maxHeight, s, t, c);
    if s.threads[t].pc == Unlink && s.threads[t].k == 0 {
      VictimIsCounted(maxHeight, s, t);
    }
  }

  lemma CreatesFresh(maxHeight: nat, s: State, t: ThreadId, c: Choice)
    requires CanStep(s, t)
    ensures s.threads[t].pc == Create ==> |Step(maxHeight, s, t, c).list.nodes| == |s.list.nodes| + 1 && |s.list.nodes| > 0
  {
  }

  /** Every access keeps size_ the number of counted nodes. */
  lemma StepKeepsSize(maxHeight: nat, s: State, t: ThreadId, c: Choice)
    requires Inv(maxHeight, s) && SizeOk(s) && CanStep(s, t)
    ensures SizeOk(Step(maxHeight, s, t, c))
  {
    hide Inv, Step, CanStep, Counted, CountOk, WorkOk;
    CanStepIsLive(s, t);
    HeadIsPublished(maxHeight, s);
    var s' := Step(maxHeight, s, t, c);
    StepRecounts(maxHeight, s, t, c);
    SizeMoves(s.list, s'.list, s.threads[t]);
    OnlyOneMoves(maxHeight, s, t, c);
    forall n: nat | IsNode(s'.list, n) ensures CountOk(s', n) {
      if IsNode(s.list, n) {
        StepKeepsCount(maxHeight, s, t, c, n);
      } else {
        FreshIsUncounted(s, s', s.threads[t], n);
      }
    }
    forall u | u in s'.threads ensures WorkOk(s'.list, s'.threads[u]) {
      StepKeepsWork(maxHeight, s, t, c, u);
    }
  }

  lemma FreshIsUncounted(s: State, s': State, th: Thread, n: nat)
    requires Recounts(s.list, s'.list, th) && !IsNode(s.list, n) && IsNode(s'.list, n) && |s.list.nodes| > 0
    ensures CountOk(s', n)
  {
  }

  lemma InitIsSized(maxHeight: nat, height: nat, ids: set<ThreadId>)
    ensures SizeOk(Init(maxHeight, height, ids))
  {
    assert Counted(Init(maxHeight, height, ids).list) == {};
  }

  lemma {:induction false} RunKeepsSize(maxHeight: nat, ids: set<ThreadId>, run: seq<State>, j: nat)
    requires IsRun(maxHeight, ids, run) && j < |run|
    ensures SizeOk(run[j])
  {
    hide Inv, Init, Step, CanStep, SizeOk;
    if j == 0 {
      var height: nat :| 1 <= height <= maxHeight && run[0] == Init(maxHeight, height, ids);
      InitIsSized(maxHeight, height, ids);
    } else {
      RunKeepsSize(maxHeight, ids, run, j - 1);
      var t, c := NextStep(maxHeight, ids, run, j - 1);
      StepKeepsSize(maxHeight, run[j - 1], t, c);
    }
  }

  /** In any interleaving size_ never goes below zero, so that the size an addition reports is positive; and with
      nobody at work it is the number of nodes in the list. */
  lemma SizeIsRight(maxHeight: nat, ids: set<ThreadId>, run: seq<State>, a: nat, t: ThreadId, c: Choice)
    requires IsRun(maxHeight, ids, run) && a < |run|
    ensures run[a].list.size >= 0
    ensures t in run[a].threads && run[a].threads[t].pc == IncSize && CanStep(run[a], t) ==>
      Step(maxHeight, run[a], t, c).list.size > 0
    ensures (forall u | u in run[a].threads :: run[a].threads[u].pc == Idle) ==>
      run[a].list.size == |Members(run[a].list)|
    ensures forall n: nat :: n in Members(run[a].list) <==> In(run[a].list, n, 0) && !run[a].list.nodes[n].isHead
  {
    hide IsRun, Inv, Step, CanStep;
    RunKeepsSize(maxHeight, ids, run, a);
    if t in run[a].threads && run[a].threads[t].pc == IncSize && CanStep(run[a], t) {
      StepRecounts(maxHeight, run[a], t, c);
    }
    if forall u | u in run[a].threads :: run[a].threads[u].pc == Idle {
      QuietCount(run[a]);
    }
  }

  /** The nodes of the lowest layer. */
  function Members(l: SkipList): set<nat> {
    set n: nat | 0 < n < |l.nodes| && l.nodes[n].levels > 0 && !l.nodes[n].isHead
  }

  lemma QuietCount(s: State)
    requires SizeOk(s) && forall u | u in s.threads :: s.threads[u].pc == Idle
    ensures Counted(s.list) == Members(s.list)
  {
    forall n: nat ensures n in Counted(s.list) <==> n in Members(s.list) {
      if IsNode(s.list, n) {
        assert CountOk(s, n);
      }
    }
  }
}
