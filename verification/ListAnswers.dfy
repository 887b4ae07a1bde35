/** What the answers of folly's ConcurrentSkipList mean, in every interleaving (ConcurrentSkipList.h). */
module ListAnswers {
  import opened SkipLists

  // ----- How an access changes the flags and layers of nodes -----

  /** The flags of a node change only when they are stored, and its layers only when it is linked or unlinked. */
  predicate FlagsStay(th: Thread, n: nat, was: Node, now: Node) {
    && now.isHead == was.isHead && now.key == was.key && now.creator == was.creator
    && (!was.isHead && !(th.pc in {StoreMark, StoreLinked} && n == th.node) ==> now.marked == was.marked && now.linked == was.linked)
    && (!(th.pc in {Link, Unlink} && n == th.node) ==> now.levels == was.levels)
  }

  ghost predicate FlagsMove(l: SkipList, l': SkipList, th: Thread) {
    && |l.nodes| <= |l'.nodes|
    && (forall n: nat | IsNode(l, n) :: FlagsStay(th, n, l.nodes[n], l'.nodes[n]))
    && (forall n: nat | |l.nodes| <= n < |l'.nodes| :: !l'.nodes[n].linked && l'.nodes[n].levels == 0)
  }

  lemma SameFlags(l: SkipList, th: Thread)
    ensures FlagsMove(l, l, th)
  {
  }

  lemma LockFlags(l: SkipList, t: ThreadId, th: Thread, c: Choice)
    requires InRange(l, th) && (Locking(th.pc) || th.pc == Release)
    ensures FlagsMove(l, if th.pc == Release then ReleaseStep(l, th, c).list else LockStep(l, t, th).list, th)
  {
  }

  lemma AddFlags(l: SkipList, t: ThreadId, th: Thread)
    requires InRange(l, th) && Adding(th.pc)
    ensures FlagsMove(l, AddStep(l, t, th).list, th)
  {
  }

  lemma RemoveFlags(l: SkipList, t: ThreadId, th: Thread)
    requires InRange(l, th) && Removing(th.pc)
    ensures FlagsMove(l, RemoveStep(l, t, th).list, th)
  {
  }

  lemma HeadFlags(maxHeight: nat, l: SkipList, t: ThreadId, th: Thread, c: Choice)
    requires InRange(l, th) && Growing(th.pc)
    requires th.pc in {GrowFlags, GrowCopy, GrowCas} ==> l.nodes[th.node].isHead
    requires th.pc in {GrowLock, GrowLoadMark, GrowStoreMark, GrowUnlock} ==> l.nodes[th.oldHead].isHead
    ensures FlagsMove(l, GrowStep(maxHeight, l, t, th, c).list, th)
  {
  }

  lemma StepMovesFlags(maxHeight: nat, s: State, t: ThreadId, c: Choice)
    requires Inv(maxHeight, s) && CanStep(s, t)
    ensures FlagsMove(s.list, Step(maxHeight, s, t, c).list, s.threads[t])
  {
    hide Inv, LockStep, ReleaseStep, AddStep, RemoveStep, GrowStep, SearchStep, FindStep, FlagsMove,
      AdderOk, RemoverOk, SearcherOk, LockerOk, ReleaserOk, FinderOk;
    var l, th := s.list, s.threads[t];
    InvParts(maxHeight, s, t);
    if Locking(th.pc) || th.pc == Release {
      LockFlags(l, t, th, c);
    } else if Adding(th.pc) {
      AddFlags(l, t, th);
    } else if Removing(th.pc) {
      RemoveFlags(l, t, th);
    } else if Growing(th.pc) {
      HeadFlags(maxHeight, l, t, th, c);
    } else {
      SameFlags(l, th);
    }
  }

  /** What the thread that stores a flag knows of the node. */
  lemma FlagIs(maxHeight: nat, s: State, t: ThreadId, c: Choice)
    requires Inv(maxHeight, s) && CanStep(s, t) && s.threads[t].pc in {StoreMark, StoreLinked}
    ensures var th, l' := s.threads[t], Step(maxHeight, s, t, c).list;
            && IsNode(s.list, th.node) && IsNode(l', th.node) && |l'.nodes| == |s.list.nodes|
            && !s.list.nodes[th.node].marked && !s.list.nodes[th.node].isHead && !l'.nodes[th.node].isHead
            && (th.pc == StoreMark ==>
                  && s.list.nodes[th.node].linked && s.list.nodes[th.node].key == th.op.k
                  && l'.nodes[th.node].linked && l'.nodes[th.node].marked && !l'.nodes[th.node].isHead)
            && (th.pc == StoreLinked ==> l'.nodes[th.node].linked && !l'.nodes[th.node].marked)
  {
    hide Inv, SearcherOk, LockerOk, ReleaserOk, GrowerOk, LinkedBelow, HeldOk, LockStep, ReleaseStep, GrowStep, SearchStep, FindStep;
    InvParts(maxHeight, s, t);
  }

  // ----- What happens between two moments of a run -----

  /** A fully linked, unmarked node with that key. */
  predicate Holds(l: SkipList, x: nat, k: Key) {
    IsPresent(l, x) && l.nodes[x].key == k
  }

  ghost predicate Nowhere(l: SkipList, k: Key) {
    forall x: nat :: !Holds(l, x, k)
  }

  /** Marked, and in no layer. */
  predicate Gone(l: SkipList, x: nat) {
    IsNode(l, x) && !l.nodes[x].isHead && l.nodes[x].marked && l.nodes[x].levels == 0
  }

  /** Access j is thread t's own. */
  predicate OwnStep(run: seq<State>, j: nat, t: ThreadId) {
    j + 1 < |run| && t in run[j].threads && t in run[j + 1].threads && run[j].threads[t] != run[j + 1].threads[t]
  }

  /** By that access x enters the lowest layer, or is marked. */
  predicate OwnLink(run: seq<State>, j: nat, t: ThreadId, x: nat) {
    OwnStep(run, j, t) && !In(run[j].list, x, 0) && In(run[j + 1].list, x, 0) && !run[j + 1].list.nodes[x].isHead
  }

  predicate OwnMark(run: seq<State>, j: nat, t: ThreadId, x: nat) {
    && OwnStep(run, j, t) && IsNode(run[j].list, x) && IsNode(run[j + 1].list, x)
    && !run[j].list.nodes[x].isHead && !run[j].list.nodes[x].marked && run[j + 1].list.nodes[x].marked
  }

  ghost predicate LinkedNothing(run: seq<State>, a: nat, b: nat, t: ThreadId) {
    forall j: nat, x: nat | a <= j < b :: !OwnLink(run, j, t, x)
  }

  ghost predicate MarkedNothing(run: seq<State>, a: nat, b: nat, t: ThreadId) {
    forall j: nat, x: nat | a <= j < b :: !OwnMark(run, j, t, x)
  }

  /** A node made by the thread, there with that key when the thread had linked it. */
  predicate IsNew(l: SkipList, t: ThreadId, x: nat, k: Key) {
    IsThere(l, x, k) && l.nodes[x].creator == t
  }

  ghost predicate LinkedKey(run: seq<State>, a: nat, b: nat, t: ThreadId, x: nat, k: Key) {
    exists j: nat :: a <= j < b && OwnLink(run, j, t, x) && IsNew(run[j + 1].list, t, x, k)
  }

  /** It was in the list, with that key and unmarked, when the thread marked it. */
  ghost predicate MarkedKey(run: seq<State>, a: nat, b: nat, t: ThreadId, x: nat, k: Key) {
    exists j: nat :: a <= j < b && OwnMark(run, j, t, x) && IsThere(run[j].list, x, k)
  }

  /** By that access size_ grew to n. */
  predicate OwnCount(run: seq<State>, j: nat, t: ThreadId, n: int) {
    OwnStep(run, j, t) && run[j].list.size == n - 1 && run[j + 1].list.size == n
  }

  ghost predicate Reported(run: seq<State>, a: nat, b: nat, t: ThreadId, n: int) {
    exists j: nat :: a <= j < b && OwnCount(run, j, t, n)
  }

  ghost predicate WasAbsent(run: seq<State>, a: nat, b: nat, k: Key) {
    exists j: nat :: a <= j <= b && j < |run| && Nowhere(run[j].list, k)
  }

  // ----- A key that is present all the time is in one node -----

  lemma KeepsNode(maxHeight: nat, s: State, t: ThreadId, c: Choice, x: nat)
    requires Inv(maxHeight, s) && CanStep(s, t) && IsNode(s.list, x)
    ensures IsNode(Step(maxHeight, s, t, c).list, x)
    ensures FlagsStay(s.threads[t], x, s.list.nodes[x], Step(maxHeight, s, t, c).list.nodes[x])
  {
    hide Inv, Step, CanStep, FlagsStay;
    StepMovesFlags(maxHeight, s, t, c);
  }

  /** One access does not move a key from one node to another. */
  lemma NoJump(maxHeight: nat, s: State, t: ThreadId, c: Choice, x: nat, x': nat, k: Key)
    requires Inv(maxHeight, s) && CanStep(s, t) && Inv(maxHeight, Step(maxHeight, s, t, c))
    requires Holds(s.list, x, k) && Holds(Step(maxHeight, s, t, c).list, x', k)
    ensures x == x'
  {
    hide Inv, Step, CanStep;
    if x != x' {
      CanStepIsLive(s, t);
      var l, l', th := s.list, Step(maxHeight, s, t, c).list, s.threads[t];
      if Holds(l, x', k) {
        KeysAreDistinct(maxHeight, s, x, x');
        assert false;
      } else {
        StepMovesFlags(maxHeight, s, t, c);
        assert FlagsStay(th, x, l.nodes[x], l'.nodes[x]);
        assert IsNode(l, x') ==> FlagsStay(th, x', l.nodes[x'], l'.nodes[x']);
        FlagIs(maxHeight, s, t, c);
        KeysAreDistinct(maxHeight, Step(maxHeight, s, t, c), x, x');
        assert false;
      }
    }
  }

  ghost predicate AlwaysPresent(run: seq<State>, a: nat, b: nat, k: Key) {
    forall j: nat | a <= j <= b && j < |run| :: !Nowhere(run[j].list, k)
  }

  lemma {:induction false} SameNode(maxHeight: nat, ids: set<ThreadId>, run: seq<State>, a: nat, b: nat, k: Key) returns (x: nat)
    requires IsRun(maxHeight, ids, run) && a <= b < |run| && AlwaysPresent(run, a, b, k)
    ensures forall j: nat | a <= j <= b :: Holds(run[j].list, x, k)
  {
    hide IsRun, Inv, CanStep, Step, Holds;
    assert !Nowhere(run[b].list, k);
    if a == b {
      x :| Holds(run[b].list, x, k);
    } else {
      x := SameNode(maxHeight, ids, run, a, b - 1, k);
      var t, c := NextStep(maxHeight, ids, run, b - 1);
      var x': nat :| Holds(run[b].list, x', k);
      NoJump(maxHeight, run[b - 1], t, c, x, x', k);
    }
  }

  /** A thread that has just begun an operation. */
  predicate BeginsOperation(s: State, t: ThreadId) {
    && t in s.threads
    && var th := s.threads[t];
    if th.op.Find? then th.pc == FindHead else th.pc == LoadMaxLayer && !th.isMarked
  }

  ghost predicate IsBusy(run: seq<State>, a: nat, b: nat, t: ThreadId) {
    forall j: nat | a <= j < b && j < |run| :: t in run[j].threads && run[j].threads[t].pc != Idle
  }

  /** A thread at work on a find does nothing else. */
  lemma FindsOnly(maxHeight: nat, s: State, t: ThreadId)
    requires Inv(maxHeight, s) && t in s.threads && s.threads[t].pc != Idle
    ensures s.threads[t].op.Find? <==> Finding(s.threads[t].pc)
  {
    hide Inv, FoundOk, ValidFrom, HeldOk, NewOk, VictimOk, LinkedBelow, NewHeadOk, OldOk;
    InvParts(maxHeight, s, t);
  }

  /** A find or a remove that does not find the key, or finds it marked, was right at some moment of the call. */
  lemma MissingWasAbsent(maxHeight: nat, ids: set<ThreadId>, run: seq<State>, a: nat, b: nat, t: ThreadId)
    requires IsRun(maxHeight, ids, run) && a <= b < |run| && BeginsOperation(run[a], t) && IsBusy(run, a, b, t)
    requires t in run[b].threads && run[b].threads[t].pc == Idle && run[b].threads[t].answer == Missing
    ensures WasAbsent(run, a, b, run[a].threads[t].op.k)
  {
    hide IsRun, Inv, Nowhere, Recent;
    var op := run[a].threads[t].op;
    if AlwaysPresent(run, a, b, op.k) {
      var x := SameNode(maxHeight, ids, run, a, b, op.k);
      assert Holds(run[a].list, x, op.k) && Stays(run, a, b, x);
      if op.Find? {
        forall i: nat | a <= i < b ensures t in run[i].threads && Finding(run[i].threads[t].pc) {
          assert run[i].threads[t].pc != Idle;
          RunKeepsInv(maxHeight, ids, run, i);
          PresentWasThere(maxHeight, ids, run, a, i, t);
          FindsOnly(maxHeight, run[i], t);
        }
        PresentKeysAreFound(maxHeight, ids, run, a, b, t, x);
      } else {
        PresentKeysAreMet(maxHeight, ids, run, a, b, t, x);
      }
      assert false;
    }
  }

  // ----- What a thread's own access changes -----

  /** The node that is being linked, or unlinked. */
  lemma LayersOf(maxHeight: nat, s: State, t: ThreadId)
    requires Inv(maxHeight, s) && t in s.threads && s.threads[t].pc in {Link, Unlink}
    ensures var th := s.threads[t];
            && IsNode(s.list, th.node) && !s.list.nodes[th.node].isHead && s.list.nodes[th.node].key == th.op.k
            && (th.pc == Link ==>
                  !s.list.nodes[th.node].marked && s.list.nodes[th.node].levels == th.k && s.list.nodes[th.node].creator == t)
            && (th.pc == Unlink ==> s.list.nodes[th.node].levels == th.k + 1)
  {
    hide Inv, SearcherOk, LockerOk, ReleaserOk, GrowerOk, FinderOk, FoundOk, ValidFrom, HeldOk, LinkedBelow;
    InvParts(maxHeight, s, t);
  }

  lemma LinkPutsIn(maxHeight: nat, s: State, t: ThreadId, c: Choice)
    requires Inv(maxHeight, s) && CanStep(s, t) && s.threads[t].pc == Link && s.threads[t].k == 0
    ensures var th, l' := s.threads[t], Step(maxHeight, s, t, c).list;
            !In(s.list, th.node, 0) && IsNew(l', t, th.node, th.op.k)
  {
    hide Inv, Step, CanStep, Inserted;
    CanStepIsLive(s, t);
    LayersOf(maxHeight, s, t);
    LinkInserts(maxHeight, s, t, c);
    var th, l' := s.threads[t], Step(maxHeight, s, t, c).list;
    InsertedMembers(s.list, l', th.preds[0], th.node, 0, th.node, 0);
    InsertedParts(s.list, l', th.preds[0], th.node, 0);
    KeepsNode(maxHeight, s, t, c, th.node);
  }

  lemma MarkTakesOut(maxHeight: nat, s: State, t: ThreadId, c: Choice)
    requires Inv(maxHeight, s) && CanStep(s, t) && s.threads[t].pc == StoreMark
    ensures var th, l' := s.threads[t], Step(maxHeight, s, t, c).list;
            IsThere(s.list, th.node, th.op.k) && IsNode(l', th.node) && !l'.nodes[th.node].isHead && l'.nodes[th.node].marked
  {
    hide Inv, Step, CanStep;
    CanStepIsLive(s, t);
    FlagIs(maxHeight, s, t, c);
    IsLinked(maxHeight, s, s.threads[t].node, 0);
  }

  /** A node enters the lowest layer only at Link. */
  lemma EntersAtLink(maxHeight: nat, s: State, t: ThreadId, c: Choice, x: nat)
    requires Inv(maxHeight, s) && CanStep(s, t)
    requires !In(s.list, x, 0) && In(Step(maxHeight, s, t, c).list, x, 0) && !Step(maxHeight, s, t, c).list.nodes[x].isHead
    ensures t in s.threads && s.threads[t].pc == Link && s.threads[t].k == 0 && s.threads[t].node == x
  {
    hide Inv, Step, CanStep, Inserted, Deleted;
    CanStepIsLive(s, t);
    var th, l, l' := s.threads[t], s.list, Step(maxHeight, s, t, c).list;
    StepMovesFlags(maxHeight, s, t, c);
    assert IsNode(l, x) ==> FlagsStay(th, x, l.nodes[x], l'.nodes[x]);
    if th.pc == Link {
      LinkInserts(maxHeight, s, t, c);
      InsertedMembers(l, l', th.preds[th.k], th.node, th.k, x, 0);
    } else if th.pc == Unlink {
      UnlinkDeletes(maxHeight, s, t, c);
      DeletedMembers(l, l', th.preds[th.k], th.node, th.k, x, 0);
    }
  }

  /** A node is marked only at StoreMark. */
  lemma MarksAtStore(maxHeight: nat, s: State, t: ThreadId, c: Choice, x: nat)
    requires Inv(maxHeight, s) && CanStep(s, t) && IsNode(s.list, x) && !s.list.nodes[x].isHead && !s.list.nodes[x].marked
    requires IsNode(Step(maxHeight, s, t, c).list, x) && Step(maxHeight, s, t, c).list.nodes[x].marked
    ensures t in s.threads && s.threads[t].pc == StoreMark && s.threads[t].node == x
  {
    hide Inv, Step, CanStep;
    CanStepIsLive(s, t);
    KeepsNode(maxHeight, s, t, c, x);
    if s.threads[t].pc == StoreLinked {
      FlagIs(maxHeight, s, t, c);
    }
  }

  /** A node that was unlinked from all its layers is in none again. */
  lemma GoneStays(maxHeight: nat, s: State, t: ThreadId, c: Choice, x: nat)
    requires Inv(maxHeight, s) && CanStep(s, t) && Gone(s.list, x)
    ensures Gone(Step(maxHeight, s, t, c).list, x)
  {
    hide Inv, Step, CanStep;
    CanStepIsLive(s, t);
    KeepsNode(maxHeight, s, t, c, x);
    if s.threads[t].pc in {StoreMark, StoreLinked} {
      FlagIs(maxHeight, s, t, c);
    } else if s.threads[t].pc in {Link, Unlink} {
      LayersOf(maxHeight, s, t);
    }
  }

  lemma OwnChanges(maxHeight: nat, ids: set<ThreadId>, run: seq<State>, b: nat, t: ThreadId, u: ThreadId, c: Choice)
    requires IsRun(maxHeight, ids, run) && b + 1 < |run| && t in run[b].threads
    requires CanStep(run[b], u) && run[b + 1] == Step(maxHeight, run[b], u, c)
    ensures t in run[b + 1].threads && (t != u ==> run[b + 1].threads[t] == run[b].threads[t])
    ensures var th := run[b].threads[t];
            && (forall x: nat :: OwnLink(run, b, t, x) ==> t == u && th.pc == Link && th.k == 0 && th.node == x)
            && (forall x: nat :: OwnMark(run, b, t, x) ==> t == u && th.pc == StoreMark && th.node == x)
  {
    hide IsRun, Inv, CanStep, Step, In;
    RunKeepsInv(maxHeight, ids, run, b);
    OnlyOneMoves(maxHeight, run[b], u, c);
    forall x: nat | OwnLink(run, b, t, x)
      ensures var th := run[b].threads[t]; t == u && th.pc == Link && th.k == 0 && th.node == x
    {
      EntersAtLink(maxHeight, run[b], u, c, x);
    }
    forall x: nat | OwnMark(run, b, t, x) ensures t == u && run[b].threads[t].pc == StoreMark && run[b].threads[t].node == x {
      MarksAtStore(maxHeight, run[b], u, c, x);
    }
  }

  // ----- What a thread has done so far -----

  /** The part of a thread that tells it. */
  datatype Progress = Progress(pc: Pc, op: Operation, k: nat, node: nat, isMarked: bool, done: bool, answer: Answer)
  {
    /** All is done but giving locks back, or growing the head. */
    predicate Finished() {
      (pc == Release && done) || Growing(pc) || pc == ReleaseVictim
    }

    /** The node that it has linked, or NIL. */
    function Linked(): nat {
      if (pc in {SetNew, Link} && k > 0) || pc in {LoadLinked, StoreLinked, IncSize} then node
      else if op.Add? && Finished() && answer.Added? then answer.n
      else NIL
    }

    /** The node that it has marked, or NIL. */
    function Marked(): nat {
      if op.Remove? && isMarked then node else NIL
    }
  }

  function Of(th: Thread): Progress {
    Progress(th.pc, th.op, th.k, th.node, th.isMarked, th.done, th.answer)
  }

  /** How one access of the thread goes on, or ends the operation. */
  predicate Goes(p: Progress, p': Progress) {
    && p'.op == p.op
    && (p'.pc != Idle ==>
          && p'.Linked() == (if p.pc == Link && p.k == 0 then p.node else p.Linked())
          && p'.Marked() == (if p.pc == StoreMark then p.node else p.Marked()))
    && (p.Finished() ==> p'.answer == p.answer && (p'.pc == Idle || (p'.Finished() && p'.isMarked == p.isMarked)))
    && (p'.Finished() && !p.Finished() ==>
          || (p.pc == IncSize && p.op.Add? && p'.answer.Added?)
          || (p.pc == DecSize && p.op.Remove? && p'.isMarked && p'.pc == Release && p'.answer == Removed)
          || (p.pc == RecheckVictim && p.op.Remove? && !p'.isMarked && p'.answer == Missing))
    && (p'.pc == Idle && !p.Finished() ==> Gives(p, p'.answer))
  }

  /** The answers of an operation that has changed nothing. */
  predicate Gives(p: Progress, answer: Answer) {
    && p.Linked() == NIL && p.Marked() == NIL && p.pc != Link && p.pc != StoreMark
    && match answer
       case Missing => !p.op.Add?
       case Present(_) => !p.op.Remove?
       case _ => false
  }

  lemma SearchGoes(l: SkipList, th: Thread, c: Choice)
    requires InRange(l, th) && Searching(th.pc) && !th.op.Find?
    ensures Goes(Of(th), Of(SearchStep(l, th, c)))
  {
    hide Less, Greater, Goes, Recorded, Searched;
    var th' := SearchStep(l, th, c);
    if th.pc == LoadSkip {
      var node := l.nodes[th.pred].skip[th.layer];
      RecordedIs(l, th, node);
      SearchedGoes(th, Recorded(l, th, node), c);
    }
    if th.pc != LoadSkip || th' != Searched(Recorded(l, th, l.nodes[th.pred].skip[th.layer]), c) {
      assert Of(th') == Of(th).(pc := th'.pc) && Searching(th'.pc);
      StillSearches(Of(th), th'.pc);
    }
  }

  lemma RecordedIs(l: SkipList, th: Thread, node: nat)
    requires th.layer < |th.preds| == |th.succs|
    ensures Of(Recorded(l, th, node)) == Of(th)
  {
  }

  lemma SearchedGoes(th: Thread, th2: Thread, c: Choice)
    requires Of(th2) == Of(th) && th.pc == LoadSkip && !th.op.Find?
    ensures Goes(Of(th), Of(Searched(th2, c)))
  {
  }

  lemma StillSearches(p: Progress, pc': Pc)
    requires Searching(p.pc) && Searching(pc')
    ensures Goes(p, p.(pc := pc'))
  {
  }

  lemma LockGoes(l: SkipList, t: ThreadId, th: Thread)
    requires InRange(l, th) && Locking(th.pc)
    ensures Goes(Of(th), Of(LockStep(l, t, th).th))
  {
    hide Goes, Fails, LayerIsValid;
    var th' := LockStep(l, t, th).th;
    FailsGoes(th);
    ValidGoes(th);
    if th' != Fails(th) && th' != LayerIsValid(th) {
      assert Of(th') == Of(th).(pc := th'.pc) && Locking(th'.pc);
      StillLocks(Of(th), th'.pc);
    }
  }

  lemma FailsGoes(th: Thread)
    requires Locking(th.pc)
    ensures Goes(Of(th), Of(Fails(th)))
  {
  }

  lemma ValidGoes(th: Thread)
    requires Locking(th.pc)
    ensures Goes(Of(th), Of(LayerIsValid(th)))
  {
  }

  lemma StillLocks(p: Progress, pc': Pc)
    requires Locking(p.pc) && Locking(pc')
    ensures Goes(p, p.(pc := pc'))
  {
  }

  lemma ReleaseGoes(l: SkipList, th: Thread, c: Choice)
    requires InRange(l, th) && th.pc == Release
    ensures Goes(Of(th), Of(ReleaseStep(l, th, c).th))
  {
  }

  lemma WaiterGoes(l: SkipList, t: ThreadId, th: Thread)
    requires InRange(l, th) && th.pc in {CheckFound, WaitLinked} && th.op.Add?
    ensures Goes(Of(th), Of(AddStep(l, t, th).th))
  {
  }

  lemma CreatorGoes(l: SkipList, t: ThreadId, th: Thread)
    requires InRange(l, th) && th.pc == Create && th.op.Add? && th.k == 0
    ensures Goes(Of(th), Of(AddStep(l, t, th).th))
  {
  }

  lemma LinkerGoes(l: SkipList, t: ThreadId, th: Thread)
    requires InRange(l, th) && th.pc in {SetNew, Link} && th.op.Add?
    ensures Goes(Of(th), Of(AddStep(l, t, th).th))
  {
  }

  lemma AdderGoes(l: SkipList, t: ThreadId, th: Thread)
    requires InRange(l, th) && th.pc in {LoadLinked, StoreLinked, IncSize} && th.op.Add?
    ensures Goes(Of(th), Of(AddStep(l, t, th).th))
  {
  }

  lemma CheckerGoes(l: SkipList, t: ThreadId, th: Thread)
    requires InRange(l, th) && th.pc in {CheckLinked, CheckVictim, LockVictim} && th.op.Remove? && !th.isMarked
    ensures Goes(Of(th), Of(RemoveStep(l, t, th).th))
  {
  }

  lemma MarkerGoes(l: SkipList, t: ThreadId, th: Thread)
    requires InRange(l, th) && th.pc in {RecheckVictim, LoadMark, StoreMark} && th.op.Remove? && !th.isMarked
    ensures Goes(Of(th), Of(RemoveStep(l, t, th).th))
  {
  }

  lemma UnlinkerGoes(l: SkipList, t: ThreadId, th: Thread)
    requires InRange(l, th) && th.pc in {LoadVictim, Unlink} && th.op.Remove?
    ensures Goes(Of(th), Of(RemoveStep(l, t, th).th))
  {
    hide Goes;
    var th' := RemoveStep(l, t, th).th;
    assert th'.pc in {LoadVictim, Unlink, DecSize} && Of(th') == Of(th).(pc := th'.pc, k := th'.k);
    StillUnlinks(Of(th), Of(th'));
  }

  lemma StillUnlinks(p: Progress, p': Progress)
    requires p.pc in {LoadVictim, Unlink} && p'.pc in {LoadVictim, Unlink, DecSize} && p.op.Remove?
    requires p' == p.(pc := p'.pc, k := p'.k)
    ensures Goes(p, p')
  {
  }

  lemma RemoverGoes(l: SkipList, t: ThreadId, th: Thread)
    requires InRange(l, th) && th.pc in {DecSize, ReleaseVictim} && th.op.Remove? && (th.pc == DecSize ==> th.isMarked)
    ensures Goes(Of(th), Of(RemoveStep(l, t, th).th))
  {
  }

  lemma GrowGoes(maxHeight: nat, l: SkipList, t: ThreadId, th: Thread, c: Choice)
    requires InRange(l, th) && Growing(th.pc) && th.op.Add?
    ensures Goes(Of(th), Of(GrowStep(maxHeight, l, t, th, c).th))
  {
    hide Goes;
    var th' := GrowStep(maxHeight, l, t, th, c).th;
    assert th'.pc == Idle || Growing(th'.pc);
    assert Of(th') == Of(th).(pc := th'.pc, k := th'.k, node := th'.node);
    StillGrows(Of(th), Of(th'));
  }

  lemma StillGrows(p: Progress, p': Progress)
    requires Growing(p.pc) && (p'.pc == Idle || Growing(p'.pc)) && p.op.Add?
    requires p' == p.(pc := p'.pc, k := p'.k, node := p'.node)
    ensures Goes(p, p')
  {
  }

  lemma FindGoes(l: SkipList, th: Thread)
    requires InRange(l, th) && Finding(th.pc) && th.op.Find?
    ensures Goes(Of(th), Of(FindStep(l, th)))
  {
    hide Goes, Less, Greater, Down, Right;
    if th.pc == FindHead {
      DownGoes(th, th.(pred := l.head), l.nodes[l.head].height);
    } else if th.pc == FindMarked {
      Answered(Of(th), FindStep(l, th).answer);
    } else {
      var layer := if th.pc == FindDown then th.layer - 1 else th.layer;
      DownGoes(th, th, layer);
      RightGoes(l, th, th.(layer := layer), l.nodes[th.pred].skip[layer]);
    }
  }

  lemma Answered(p: Progress, answer: Answer)
    requires p.op.Find? && Finding(p.pc) && (answer.Missing? || answer.Present?)
    ensures Goes(p, p.(pc := Idle, answer := answer))
  {
  }

  lemma DownGoes(th: Thread, th1: Thread, height: nat)
    requires th.op.Find? && Finding(th.pc) && Of(th1) == Of(th)
    ensures Goes(Of(th), Of(Down(th1, height)))
  {
  }

  lemma RightGoes(l: SkipList, th: Thread, th1: Thread, node: nat)
    requires th.op.Find? && Finding(th.pc) && Of(th1) == Of(th)
    ensures Goes(Of(th), Of(Right(l, th1, node)))
  {
    hide Greater;
  }

  /** The thread's own access. */
  lemma StepGoes(maxHeight: nat, s: State, t: ThreadId, c: Choice)
    requires Inv(maxHeight, s) && CanStep(s, t) && s.threads[t].pc != Idle
    ensures Goes(Of(s.threads[t]), Of(Step(maxHeight, s, t, c).threads[t]))
  {
    hide Inv, Step, CanStep, LockStep, ReleaseStep, AddStep, RemoveStep, GrowStep, SearchStep, FindStep, Goes, InRange;
    CanStepIsLive(s, t);
    StepIs(maxHeight, s, t, c);
    var l, th := s.list, s.threads[t];
    KnowsItsWork(maxHeight, s, t);
    if Searching(th.pc) {
      SearchGoes(l, th, c);
    } else if Locking(th.pc) {
      LockGoes(l, t, th);
    } else if th.pc == Release {
      ReleaseGoes(l, th, c);
    } else if th.pc in {CheckFound, WaitLinked} {
      WaiterGoes(l, t, th);
    } else if th.pc == Create {
      CreatorGoes(l, t, th);
    } else if th.pc in {SetNew, Link} {
      LinkerGoes(l, t, th);
    } else if Adding(th.pc) {
      AdderGoes(l, t, th);
    } else if th.pc in {CheckLinked, CheckVictim, LockVictim} {
      CheckerGoes(l, t, th);
    } else if th.pc in {RecheckVictim, LoadMark, StoreMark} {
      MarkerGoes(l, t, th);
    } else if th.pc in {LoadVictim, Unlink} {
      UnlinkerGoes(l, t, th);
    } else if th.pc in {DecSize, ReleaseVictim} {
      RemoverGoes(l, t, th);
    } else if Growing(th.pc) {
      GrowGoes(maxHeight, l, t, th, c);
    } else {
      FindGoes(l, th);
    }
  }

  /** What kind of operation a thread is at. */
  lemma KnowsItsWork(maxHeight: nat, s: State, t: ThreadId)
    requires Inv(maxHeight, s) && t in s.threads && s.threads[t].pc != Idle
    ensures var th := s.threads[t];
            && (Searching(th.pc) ==> !th.op.Find?)
            && (Adding(th.pc) || Growing(th.pc) ==> th.op.Add?)
            && (Removing(th.pc) ==> th.op.Remove?)
            && (Finding(th.pc) ==> th.op.Find?)
            && (th.pc == Create ==> th.k == 0)
            && (th.pc in {CheckLinked, CheckVictim, LockVictim, RecheckVictim, LoadMark, StoreMark} ==> !th.isMarked)
            && (th.pc == DecSize ==> th.isMarked)
            && (th.pc == Release && th.op.Remove? && th.done ==> Gone(s.list, th.node))
  {
    hide Inv, FoundOk, ValidFrom, HeldOk, NewOk, LinkedBelow, NewHeadOk, OldOk;
    InvParts(maxHeight, s, t);
  }

  // ----- Along a run -----

  lemma Longer(run: seq<State>, a: nat, b: nat, t: ThreadId, k: Key)
    requires a <= b && b + 1 < |run|
    ensures LinkedNothing(run, a, b, t) && (forall x: nat :: !OwnLink(run, b, t, x)) ==> LinkedNothing(run, a, b + 1, t)
    ensures MarkedNothing(run, a, b, t) && (forall x: nat :: !OwnMark(run, b, t, x)) ==> MarkedNothing(run, a, b + 1, t)
    ensures forall x: nat :: LinkedKey(run, a, b, t, x, k) ==> LinkedKey(run, a, b + 1, t, x, k)
    ensures forall x: nat :: MarkedKey(run, a, b, t, x, k) ==> MarkedKey(run, a, b + 1, t, x, k)
    ensures forall x: nat :: OwnLink(run, b, t, x) && IsNew(run[b + 1].list, t, x, k) ==> LinkedKey(run, a, b + 1, t, x, k)
    ensures forall x: nat :: OwnMark(run, b, t, x) && IsThere(run[b].list, x, k) ==> MarkedKey(run, a, b + 1, t, x, k)
    ensures forall n: int :: Reported(run, a, b, t, n) ==> Reported(run, a, b + 1, t, n)
    ensures forall n: int :: OwnCount(run, b, t, n) ==> Reported(run, a, b + 1, t, n)
  {
    hide OwnCount, OwnLink, OwnMark, IsThere, IsNew;
  }

  /** What an operation has changed. */
  ghost predicate Changed(run: seq<State>, a: nat, b: nat, t: ThreadId, linked: nat, marked: nat, k: Key) {
    && (if linked == NIL then LinkedNothing(run, a, b, t) else LinkedKey(run, a, b, t, linked, k))
    && (if marked == NIL then MarkedNothing(run, a, b, t) else MarkedKey(run, a, b, t, marked, k))
  }

  /** What the answer of an operation means that thread t began at a and ended before b, but for what a search saw. */
  ghost predicate Ended(run: seq<State>, a: nat, b: nat, t: ThreadId, op: Operation, answer: Answer)
    requires b < |run|
  {
    match answer
    case Added(x, n) => op.Add? && x != NIL && Changed(run, a, b, t, x, NIL, op.k) && Reported(run, a, b, t, n)
    case Removed => op.Remove? && exists x: nat :: x != NIL && Changed(run, a, b, t, NIL, x, op.k) && Gone(run[b].list, x)
    case Missing => !op.Add? && Changed(run, a, b, t, NIL, NIL, op.k)
    case Present(_) => !op.Remove? && Changed(run, a, b, t, NIL, NIL, op.k)
    case NoAnswer => false
  }

  ghost predicate Knows(run: seq<State>, a: nat, b: nat, t: ThreadId, op: Operation)
    requires b < |run| && t in run[b].threads
  {
    var p := Of(run[b].threads[t]);
    && p.op == op
    && (p.pc == Idle ==> Ended(run, a, b, t, op, p.answer))
    && (p.pc != Idle ==> Changed(run, a, b, t, p.Linked(), p.Marked(), op.k))
    && (p.Finished() ==> FinishedOk(run[b].list, p) && (p.op.Add? ==> Reported(run, a, b, t, p.answer.newSize)))
  }

  predicate FinishedOk(l: SkipList, p: Progress) {
    && (p.op.Add? ==> p.answer.Added? && p.answer.n != NIL)
    && (p.op.Remove? ==> if p.isMarked then p.answer == Removed && Gone(l, p.node) else p.answer == Missing)
    && !p.op.Find?
  }

  lemma ChangedOn(maxHeight: nat, ids: set<ThreadId>, run: seq<State>, a: nat, b: nat, t: ThreadId, u: ThreadId, c: Choice,
                  linked: nat, marked: nat, k: Key)
    requires IsRun(maxHeight, ids, run) && a <= b && b + 1 < |run| && t in run[b].threads
    requires CanStep(run[b], u) && run[b + 1] == Step(maxHeight, run[b], u, c) && Changed(run, a, b, t, linked, marked, k)
    requires u == t ==> var th := run[b].threads[t]; th.pc != StoreMark && !(th.pc == Link && th.k == 0)
    ensures Changed(run, a, b + 1, t, linked, marked, k)
  {
    hide IsRun, CanStep, Step, OwnLink, OwnMark, LinkedNothing, MarkedNothing, LinkedKey, MarkedKey;
    OwnChanges(maxHeight, ids, run, b, t, u, c);
    Longer(run, a, b, t, k);
  }

  /** The accesses that link, or mark. */
  lemma ChangesNow(maxHeight: nat, ids: set<ThreadId>, run: seq<State>, a: nat, b: nat, t: ThreadId, c: Choice, k: Key)
    requires IsRun(maxHeight, ids, run) && a <= b && b + 1 < |run| && t in run[b].threads
    requires CanStep(run[b], t) && run[b + 1] == Step(maxHeight, run[b], t, c) && Changed(run, a, b, t, NIL, NIL, k)
    requires var th := run[b].threads[t]; (th.pc == StoreMark || (th.pc == Link && th.k == 0)) && th.op.k == k
    ensures var th := run[b].threads[t];
            && th.node != NIL
            && Changed(run, a, b + 1, t, if th.pc == Link then th.node else NIL, if th.pc == StoreMark then th.node else NIL, k)
  {
    hide IsRun, Inv, CanStep, Step, LinkedNothing, MarkedNothing, LinkedKey, MarkedKey;
    RunKeepsInv(maxHeight, ids, run, b);
    OwnChanges(maxHeight, ids, run, b, t, t, c);
    Longer(run, a, b, t, k);
    OnlyOneMoves(maxHeight, run[b], t, c);
    var th := run[b].threads[t];
    MovesOn(maxHeight, run[b], t, c);
    if th.pc == Link {
      LinkPutsIn(maxHeight, run[b], t, c);
      assert OwnLink(run, b, t, th.node);
    } else {
      MarkTakesOut(maxHeight, run[b], t, c);
      assert OwnMark(run, b, t, th.node);
    }
  }

  /** The access that counts the new node. */
  lemma CountTells(maxHeight: nat, s: State, t: ThreadId, c: Choice)
    requires CanStep(s, t) && s.threads[t].pc == IncSize
    ensures var th, s' := s.threads[t], Step(maxHeight, s, t, c);
            && s'.threads[t] != th && s'.list.size == s.list.size + 1
            && s'.threads[t].answer == Added(th.node, s'.list.size)
  {
    hide LockStep, ReleaseStep, RemoveStep, GrowStep, SearchStep, FindStep;
  }

  lemma MovesOn(maxHeight: nat, s: State, t: ThreadId, c: Choice)
    requires CanStep(s, t) && s.threads[t].pc in {Link, StoreMark}
    ensures Step(maxHeight, s, t, c).threads[t].pc != s.threads[t].pc
  {
    hide LockStep, ReleaseStep, GrowStep, SearchStep, FindStep;
  }

  lemma OthersTell(maxHeight: nat, ids: set<ThreadId>, run: seq<State>, a: nat, b: nat, t: ThreadId, u: ThreadId, c: Choice, op: Operation)
    requires IsRun(maxHeight, ids, run) && a <= b && b + 1 < |run| && t in run[b].threads && u != t
    requires CanStep(run[b], u) && run[b + 1] == Step(maxHeight, run[b], u, c)
    requires Knows(run, a, b, t, op) && run[b].threads[t].pc != Idle
    ensures t in run[b + 1].threads && Knows(run, a, b + 1, t, op)
  {
    hide IsRun, Inv, CanStep, Step, Changed, Gone, Reported;
    var p := Of(run[b].threads[t]);
    RunKeepsInv(maxHeight, ids, run, b);
    OwnChanges(maxHeight, ids, run, b, t, u, c);
    ChangedOn(maxHeight, ids, run, a, b, t, u, c, p.Linked(), p.Marked(), op.k);
    Longer(run, a, b, t, op.k);
    if Gone(run[b].list, p.node) {
      GoneStays(maxHeight, run[b], u, c, p.node);
    }
  }

  lemma OwnTells(maxHeight: nat, ids: set<ThreadId>, run: seq<State>, a: nat, b: nat, t: ThreadId, c: Choice, op: Operation)
    requires IsRun(maxHeight, ids, run) && a <= b && b + 1 < |run| && t in run[b].threads
    requires CanStep(run[b], t) && run[b + 1] == Step(maxHeight, run[b], t, c)
    requires Knows(run, a, b, t, op) && run[b].threads[t].pc != Idle
    ensures t in run[b + 1].threads && Knows(run, a, b + 1, t, op)
  {
    hide IsRun, Inv, CanStep, Step, Changed, Gone, Goes, Reported;
    var th := run[b].threads[t];
    RunKeepsInv(maxHeight, ids, run, b);
    RunKeepsInv(maxHeight, ids, run, b + 1);
    OwnChanges(maxHeight, ids, run, b, t, t, c);
    StepGoes(maxHeight, run[b], t, c);
    var th' := run[b + 1].threads[t];
    KnowsItsWork(maxHeight, run[b], t);
    if th'.pc != Idle {
      KnowsItsWork(maxHeight, run[b + 1], t);
    }
    if Gone(run[b].list, th.node) {
      GoneStays(maxHeight, run[b], t, c, th.node);
    }
    if th.pc in {IncSize, DecSize, ReleaseVictim} {
      IsAtNode(maxHeight, run[b], t);
    }
    if th.pc == StoreMark || (th.pc == Link && th.k == 0) {
      ChangesNow(maxHeight, ids, run, a, b, t, c, op.k);
    } else {
      ChangedOn(maxHeight, ids, run, a, b, t, t, c, Of(th).Linked(), Of(th).Marked(), op.k);
    }
    Longer(run, a, b, t, op.k);
    if th.pc == IncSize {
      CountTells(maxHeight, run[b], t, c);
      assert OwnCount(run, b, t, run[b + 1].list.size);
    }
    Concludes(run, a, b, t, op);
  }

  /** A thread that links, marks or counts is at a node. */
  lemma IsAtNode(maxHeight: nat, s: State, t: ThreadId)
    requires Inv(maxHeight, s) && t in s.threads && s.threads[t].pc in {IncSize, DecSize, ReleaseVictim}
    ensures s.threads[t].node != NIL
  {
    hide Inv, FoundOk, ValidFrom, HeldOk, NewOk, NewHeadOk, OldOk;
    InvParts(maxHeight, s, t);
  }

  /** What is known after an access of the thread itself. */
  lemma Concludes(run: seq<State>, a: nat, b: nat, t: ThreadId, op: Operation)
    requires b + 1 < |run| && t in run[b].threads && t in run[b + 1].threads
    requires Knows(run, a, b, t, op) && run[b].threads[t].pc != Idle
    requires Goes(Of(run[b].threads[t]), Of(run[b + 1].threads[t]))
    requires var p := Of(run[b].threads[t]);
             && (p.pc == Link && p.k == 0 ==> op.Add? && Changed(run, a, b + 1, t, p.node, NIL, op.k))
             && (p.pc == StoreMark ==> op.Remove? && Changed(run, a, b + 1, t, NIL, p.node, op.k))
             && (p.pc != StoreMark && !(p.pc == Link && p.k == 0) ==> Changed(run, a, b + 1, t, p.Linked(), p.Marked(), op.k))
             && (Gone(run[b].list, p.node) ==> Gone(run[b + 1].list, p.node))
             && (p.pc in {IncSize, DecSize, ReleaseVictim} ==> p.node != NIL)
    requires forall n: int :: Reported(run, a, b, t, n) ==> Reported(run, a, b + 1, t, n)
    requires var p, p' := Of(run[b].threads[t]), Of(run[b + 1].threads[t]);
             p.pc == IncSize && p'.answer.Added? ==> Reported(run, a, b + 1, t, p'.answer.newSize)
    requires var p' := Of(run[b + 1].threads[t]);
             p'.pc == Release && p'.op.Remove? && p'.done ==> Gone(run[b + 1].list, p'.node)
    ensures Knows(run, a, b + 1, t, op)
  {
    hide Changed, Reported;
  }

  /** What the answer of an operation means that thread t began at a and ended before b. */
  ghost predicate IsTrue(run: seq<State>, a: nat, b: nat, t: ThreadId, op: Operation, answer: Answer)
    requires b < |run|
  {
    && Ended(run, a, b, t, op, answer)
    && (answer.Present? ==> WasThere(run, a, b, answer.n, op.k))
    && (answer.Missing? ==> WasAbsent(run, a, b, op.k))
  }

  /** In any interleaving, every answer is true. An add that answers Added has itself linked that node, made by it, with the
      key; a remove that answers Removed has itself marked a node that was in the list with the key, and at the end that
      node is in no layer; every other operation has linked, or marked, nothing. A find or an add that answers with a node
      saw it in the list with the key; and a find or a remove that answers Missing was right at some moment of the call. */
  lemma AnswersAreTrue(maxHeight: nat, ids: set<ThreadId>, run: seq<State>, a: nat, b: nat, t: ThreadId)
    requires IsRun(maxHeight, ids, run) && a <= b < |run| && BeginsOperation(run[a], t) && IsBusy(run, a, b, t)
    ensures t in run[b].threads
    ensures run[b].threads[t].pc == Idle ==> IsTrue(run, a, b, t, run[a].threads[t].op, run[b].threads[t].answer)
  {
    hide IsRun, WasThere, WasAbsent, Ended;
    ChangesAreKnown(maxHeight, ids, run, a, b, t);
    if run[b].threads[t].pc == Idle {
      BusyAlways(run, a, b, t);
      PresentWasThere(maxHeight, ids, run, a, b, t);
      if run[b].threads[t].answer == Missing {
        MissingWasAbsent(maxHeight, ids, run, a, b, t);
      }
    }
  }

  lemma BusyAlways(run: seq<State>, a: nat, b: nat, t: ThreadId)
    requires a <= b < |run| && IsBusy(run, a, b, t)
    ensures forall i: nat | a <= i < b :: t in run[i].threads && run[i].threads[t].pc != Idle
  {
  }

  lemma {:induction false} ChangesAreKnown(maxHeight: nat, ids: set<ThreadId>, run: seq<State>, a: nat, b: nat, t: ThreadId)
    requires IsRun(maxHeight, ids, run) && a <= b < |run| && BeginsOperation(run[a], t) && IsBusy(run, a, b, t)
    ensures t in run[b].threads && Knows(run, a, b, t, run[a].threads[t].op)
  {
    hide IsRun, Inv, CanStep, Step, Knows;
    var op := run[a].threads[t].op;
    if a == b {
      KnowsAtFirst(run, a, t);
    } else {
      ChangesAreKnown(maxHeight, ids, run, a, b - 1, t);
      assert run[b - 1].threads[t].pc != Idle;
      var u, c := NextStep(maxHeight, ids, run, b - 1);
      if u == t {
        OwnTells(maxHeight, ids, run, a, b - 1, t, c, op);
      } else {
        OthersTell(maxHeight, ids, run, a, b - 1, t, u, c, op);
      }
    }
  }

  lemma KnowsAtFirst(run: seq<State>, a: nat, t: ThreadId)
    requires a < |run| && BeginsOperation(run[a], t)
    ensures Knows(run, a, a, t, run[a].threads[t].op)
  {
  }
}
