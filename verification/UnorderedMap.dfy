/** folly's AtomicUnorderedInsertMap as a step system: any number of threads find, and find or construct,
    by prepending to chains whose head shares a word with a slot's state (AtomicUnorderedMap.h). */
module UnorderedMaps {

  const EMPTY: nat := 0
  const CONSTRUCTING: nat := 1
  const LINKED: nat := 2

  const MAX_ALLOCATION_TRIES: nat := 1000
  /** The words are 32 bits wide, and a slot's index has to fit beside the two state bits. */
  const WORD: nat := 0x1_0000_0000
  const MAX_SLOTS: nat := 0x4000_0000

  type Key = int
  type ThreadId = nat

  /** Every constructor names the access the thread makes next. */
  datatype Pc =
    | Idle
    | LoadPrev
    | LoadHead | CompareKey | LoadNext
    | AllocLoad | AllocCas
    | Construct | SetNext | CasHead | MarkLinked | Release

  /** Why a thread searches: for find, for findOrConstruct, or again after its CAS has failed. */
  datatype Purpose = Lookup | First | Again

  datatype Answer = NoAnswer | Found(slot: nat) | Inserted(slot: nat) | NotFound | Threw

  /** A thread's locals; seen and place only record how long the chain was when prev was loaded (for a
      Lookup, when the head was), and where in the chain cur is. */
  datatype Thread = Thread(
    pc: Pc, purpose: Purpose, key: Key, prev: nat, cur: nat, idx: nat, word: nat, tries: nat,
    seen: nat, place: nat, answer: Answer)
  {
    function Answers(a: Answer): Thread { this.(pc := Idle, answer := a) }
  }

  /** The slots; chains lists what was linked to each bucket, oldest first, and owners who allocated a slot
      last. No step reads either. */
  datatype Slots = Slots(words: seq<nat>, next: seq<nat>, keys: seq<Key>, chains: seq<seq<nat>>, owners: seq<ThreadId>)

  datatype State = State(slots: Slots, threads: map<ThreadId, Thread>)

  /** What a step leaves open: the operation to start, whether a constructor throws, a random slot. */
  datatype Choice = Choice(flag: bool, key: Key, slot: nat)

  datatype Effect = Effect(slots: Slots, th: Thread)

  /** The number of slots and keyToSlotIdx, whatever they are. */
  datatype Params = Params(n: nat, bucket: Key -> nat)
  {
    ghost predicate Valid() {
      0 < n <= MAX_SLOTS && forall k: Key :: bucket(k) < n
    }
  }

  function StateOf(word: nat): nat { word % 4 }
  function HeadOf(word: nat): nat { word / 4 }

  /** stateUpdate: an atomic addition to the whole word. */
  function FetchAdd(word: nat, before: nat, after: nat): nat {
    (word + after - before) % WORD
  }

  predicate Sized(p: Params, sl: Slots) {
    |sl.words| == |sl.next| == |sl.keys| == |sl.chains| == |sl.owners| == p.n
  }

  /** The slots of the constructor: the zero-th is in use for good, its index being the nil value. */
  function Init(p: Params, ids: set<ThreadId>): State
    requires p.n > 0
  {
    State(Slots(seq(p.n, j => if j == 0 then FetchAdd(0, EMPTY, CONSTRUCTING) else 0), seq(p.n, j => 0), seq(p.n, j => 0),
                seq(p.n, j => []), seq(p.n, j => 0)),
          map t | t in ids :: Thread(Idle, Lookup, 0, 0, 0, 0, 0, 0, 0, 0, NoAnswer))
  }

  /** allocationAttempt: near the bucket at first, then anywhere. */
  function Candidate(p: Params, start: nat, tries: nat, c: Choice): (r: nat)
    requires start < p.n
    ensures r < p.n
  {
    if tries < 8 && start + tries < p.n then start + tries else c.slot % p.n
  }

  predicate Searching(pc: Pc) { pc in {LoadHead, CompareKey, LoadNext} }

  /** The search has come to the end of the chain. */
  function NotThere(th: Thread): Thread {
    match th.purpose
    case Lookup => th.Answers(NotFound)
    case First => th.(pc := AllocLoad, tries := 0)
    case Again => th.(pc := SetNext)
  }

  function GoTo(th: Thread, cur: nat, place: nat): Thread {
    if cur == 0 then NotThere(th.(cur := 0, place := place)) else th.(pc := CompareKey, cur := cur, place := place)
  }

  function SearchStep(p: Params, sl: Slots, th: Thread): Thread
    requires Sized(p, sl) && p.bucket(th.key) < p.n && (th.pc != LoadHead ==> th.cur < p.n)
  {
    var b := p.bucket(th.key);
    match th.pc
    case LoadHead =>
      GoTo(if th.purpose == Lookup then th.(seen := |sl.chains[b]|) else th, HeadOf(sl.words[b]), |sl.chains[b]|)
    case CompareKey =>
      if sl.keys[th.cur] != th.key then th.(pc := LoadNext)
      else if th.purpose == Again then th.(pc := Release, answer := Found(th.cur))
      else th.Answers(Found(th.cur))
    case _ => GoTo(th, sl.next[th.cur], if th.place > 0 then th.place - 1 else 0)
  }

  function NextTry(th: Thread): Thread {
    if th.tries + 1 < MAX_ALLOCATION_TRIES then th.(pc := AllocLoad, tries := th.tries + 1) else th.Answers(Threw)
  }

  function AllocStep(p: Params, sl: Slots, t: ThreadId, th: Thread, c: Choice): Effect
    requires Sized(p, sl) && p.bucket(th.key) < p.n && (th.pc != AllocLoad ==> th.idx < p.n)
  {
    match th.pc
    case AllocLoad =>
      var slot := Candidate(p, p.bucket(th.key), th.tries, c);
      var word := sl.words[slot];
      Effect(sl, if StateOf(word) == EMPTY then th.(pc := AllocCas, idx := slot, word := word) else NextTry(th))
    case _ =>
      if sl.words[th.idx] == th.word then
        Effect(sl.(words := sl.words[th.idx := th.word + CONSTRUCTING - EMPTY], owners := sl.owners[th.idx := t]),
               th.(pc := Construct))
      else Effect(sl, NextTry(th))
  }

  /** The word that findOrConstruct writes: the new head, and LINKED if the slot is its own bucket. */
  function After(th: Thread, b: nat): nat {
    th.idx * 4 + if b == th.idx then LINKED else StateOf(th.prev)
  }

  function LinkStep(p: Params, sl: Slots, th: Thread, c: Choice): Effect
    requires Sized(p, sl) && p.bucket(th.key) < p.n && th.idx < p.n
  {
    var b := p.bucket(th.key);
    match th.pc
    case Construct =>
      Effect(sl.(keys := sl.keys[th.idx := th.key]), if c.flag then th.(pc := Release, answer := Threw) else th.(pc := SetNext))
    case SetNext => Effect(sl.(next := sl.next[th.idx := HeadOf(th.prev)]), th.(pc := CasHead))
    case CasHead =>
      if sl.words[b] == th.prev then
        Effect(sl.(words := sl.words[b := After(th, b)], chains := sl.chains[b := sl.chains[b] + [th.idx]]),
               if th.idx != b then th.(pc := MarkLinked) else th.Answers(Inserted(th.idx)))
      else Effect(sl, th.(pc := LoadHead, purpose := Again, prev := sl.words[b], seen := |sl.chains[b]|))
    case MarkLinked =>
      Effect(sl.(words := sl.words[th.idx := FetchAdd(sl.words[th.idx], CONSTRUCTING, LINKED)]), th.Answers(Inserted(th.idx)))
    case Release =>
      Effect(sl.(words := sl.words[th.idx := FetchAdd(sl.words[th.idx], CONSTRUCTING, EMPTY)]), th.(pc := Idle))
    case _ => Effect(sl, th)
  }

  predicate Owning(th: Thread) {
    th.pc in {Construct, SetNext, CasHead, MarkLinked, Release} || (Searching(th.pc) && th.purpose == Again)
  }

  /** What a thread needs for its next access. */
  predicate InRange(p: Params, th: Thread) {
    && p.bucket(th.key) < p.n
    && (th.pc in {CompareKey, LoadNext} ==> th.cur < p.n)
    && (th.pc == AllocCas || Owning(th) ==> th.idx < p.n)
  }

  function ThreadStep(p: Params, sl: Slots, t: ThreadId, th: Thread, c: Choice): Effect
    requires Sized(p, sl) && InRange(p, th)
  {
    match th.pc
    case Idle => Effect(sl, if c.flag then th.(pc := LoadPrev, key := c.key) else th.(pc := LoadHead, key := c.key, purpose := Lookup))
    case LoadPrev =>
      var b := p.bucket(th.key);
      Effect(sl, th.(pc := LoadHead, purpose := First, prev := sl.words[b], seen := |sl.chains[b]|))
    case LoadHead | CompareKey | LoadNext => Effect(sl, SearchStep(p, sl, th))
    case AllocLoad | AllocCas => AllocStep(p, sl, t, th, c)
    case _ => LinkStep(p, sl, th, c)
  }

  predicate CanStep(p: Params, s: State, t: ThreadId) {
    t in s.threads && Sized(p, s.slots) && InRange(p, s.threads[t])
  }

  /** The next access of thread t. */
  function Step(p: Params, s: State, t: ThreadId, c: Choice): State
    requires CanStep(p, s, t)
  {
    var e := ThreadStep(p, s.slots, t, s.threads[t], c);
    State(e.slots, s.threads[t := e.th])
  }

  // ----- The invariant -----

  /** The r-th oldest slot of a chain; none of them is the nil value. */
  function At(chain: seq<nat>, r: nat): nat {
    if 0 < r <= |chain| then chain[r - 1] else 0
  }

  /** The word's head is the newest slot of the chain, and its state one of the three. */
  predicate WordOk(p: Params, sl: Slots, x: nat)
    requires Sized(p, sl) && x < p.n
  {
    && HeadOf(sl.words[x]) == At(sl.chains[x], |sl.chains[x]|)
    && StateOf(sl.words[x]) <= LINKED
    && (x == 0 ==> StateOf(sl.words[x]) == CONSTRUCTING)
  }

  /** A slot's next_ is the one linked before it; it belongs to the bucket of its key, and is not empty. */
  ghost predicate LinkOk(p: Params, sl: Slots, b: nat, j: nat)
    requires Sized(p, sl) && b < p.n && j < |sl.chains[b]|
  {
    var x := sl.chains[b][j];
    && 0 < x < p.n
    && sl.next[x] == At(sl.chains[b], j)
    && p.bucket(sl.keys[x]) == b
    && StateOf(sl.words[x]) != EMPTY
    && forall i: nat | i < j :: sl.chains[b][i] != x && sl.chains[b][i] < p.n && sl.keys[sl.chains[b][i]] != sl.keys[x]
  }

  /** A slot under construction has an owner; a linked one is in its bucket's chain. */
  ghost predicate StateOk(p: Params, s: State, x: nat)
    requires Sized(p, s.slots) && x < p.n
  {
    && (StateOf(s.slots.words[x]) == CONSTRUCTING && x > 0 ==>
          var t := s.slots.owners[x]; t in s.threads && Owning(s.threads[t]) && s.threads[t].idx == x)
    && (StateOf(s.slots.words[x]) == LINKED ==>
          var b := p.bucket(s.slots.keys[x]); b < p.n && x in s.slots.chains[b])
  }

  /** None of the first seen slots of the bucket, from place on, holds the key. */
  ghost predicate Absent(p: Params, sl: Slots, k: Key, place: nat, seen: nat)
    requires Sized(p, sl)
  {
    var b := p.bucket(k);
    && b < p.n
    && forall j: nat | place <= j < seen && j < |sl.chains[b]| :: sl.chains[b][j] < p.n && sl.keys[sl.chains[b][j]] != k
  }

  ghost predicate Unlinked(p: Params, sl: Slots, x: nat)
    requires Sized(p, sl)
  {
    forall b: nat | b < p.n :: x !in sl.chains[b]
  }

  /** What a thread knows at each of its accesses. */
  ghost predicate ThreadOk(p: Params, sl: Slots, t: ThreadId, th: Thread)
    requires Sized(p, sl)
  {
    var b := p.bucket(th.key);
    && b < p.n
    && (Owning(th) ==> 0 < th.idx < p.n && sl.owners[th.idx] == t && StateOf(sl.words[th.idx]) == CONSTRUCTING)
    && (Owning(th) && th.pc != MarkLinked ==> Unlinked(p, sl, th.idx))
    && (th.pc == MarkLinked ==> th.idx != b && sl.keys[th.idx] == th.key && th.idx in sl.chains[b])
    && (th.pc in {SetNext, CasHead} || (Searching(th.pc) && th.purpose == Again) ==> sl.keys[th.idx] == th.key)
    && (th.pc == CasHead ==> sl.next[th.idx] == HeadOf(th.prev))
    && (th.pc in {AllocLoad, AllocCas, Construct, SetNext, CasHead} || (Searching(th.pc) && (th.purpose != Lookup || th.pc != LoadHead)) ==>
          th.seen <= |sl.chains[b]|)
    && (th.pc in {AllocLoad, AllocCas, Construct, SetNext, CasHead} || (Searching(th.pc) && th.purpose != Lookup) ==>
          HeadOf(th.prev) == At(sl.chains[b], th.seen))
    && (th.pc in {AllocLoad, AllocCas, Construct, SetNext, CasHead} ==> Absent(p, sl, th.key, 0, th.seen))
    && (th.pc in {CompareKey, LoadNext} ==>
          && 0 < th.place <= |sl.chains[b]| && th.cur == At(sl.chains[b], th.place)
          && Absent(p, sl, th.key, th.place, th.seen))
    && (th.pc == LoadNext ==> th.cur < p.n && sl.keys[th.cur] != th.key)
    && (th.pc == AllocCas ==> th.idx < p.n && StateOf(th.word) == EMPTY)
  }

  ghost predicate ChainOk(p: Params, sl: Slots, b: nat)
    requires Sized(p, sl) && b < p.n
  {
    forall j: nat | j < |sl.chains[b]| :: LinkOk(p, sl, b, j)
  }

  ghost predicate Inv(p: Params, s: State) {
    && p.Valid() && Sized(p, s.slots)
    && (forall b: nat | b < p.n :: WordOk(p, s.slots, b))
    && (forall b: nat | b < p.n :: ChainOk(p, s.slots, b))
    && (forall x: nat | x < p.n :: StateOk(p, s, x))
    && (forall t | t in s.threads :: ThreadOk(p, s.slots, t, s.threads[t]))
  }

  // ----- What every access keeps -----

  lemma InvParts(p: Params, s: State, t: ThreadId)
    requires Inv(p, s)
    ensures p.Valid() && Sized(p, s.slots)
    ensures t in s.threads ==> ThreadOk(p, s.slots, t, s.threads[t])
  {
  }

  /** Adding to the state bits of a word in the given state leaves its head alone, however long the word. */
  lemma FetchAddKeepsHead(p: Params, word: nat, before: nat, after: nat)
    requires p.Valid() && HeadOf(word) < p.n && StateOf(word) == before && after <= LINKED
    ensures HeadOf(FetchAdd(word, before, after)) == HeadOf(word) && StateOf(FetchAdd(word, before, after)) == after
  {
  }

  /** What t's access may do to the slots: chains only grow, and only what t owns, or takes, changes. */
  ghost predicate Evolves(p: Params, t: ThreadId, th: Thread, was: Slots, now: Slots)
    requires Sized(p, was)
  {
    && Sized(p, now)
    && (forall b: nat | b < p.n :: was.chains[b] <= now.chains[b])
    && (forall b: nat | b < p.n :: now.chains[b] == was.chains[b] || (Owning(th) && th.pc != MarkLinked && now.chains[b] == was.chains[b] + [th.idx]))
    && (forall x: nat | x < p.n && !(Owning(th) && th.idx == x) ::
          && now.keys[x] == was.keys[x] && now.next[x] == was.next[x]
          && (StateOf(was.words[x]) != EMPTY ==> now.owners[x] == was.owners[x] && StateOf(now.words[x]) == StateOf(was.words[x])))
    && (th.pc == MarkLinked && th.idx < p.n ==>
          now.keys[th.idx] == was.keys[th.idx] && now.next[th.idx] == was.next[th.idx] && StateOf(now.words[th.idx]) != EMPTY)
  }

  lemma StepEvolves(p: Params, s: State, t: ThreadId, c: Choice)
    requires Inv(p, s) && CanStep(p, s, t)
    ensures Evolves(p, t, s.threads[t], s.slots, Step(p, s, t, c).slots)
  {
    hide Inv, ThreadOk, AllocStep, LinkStep, SearchStep, Evolves;
    var th, sl := s.threads[t], s.slots;
    InvParts(p, s, t);
    SameEvolves(p, t, th, sl);
    if th.pc in {AllocLoad, AllocCas} {
      AllocEvolves(p, sl, t, th, c);
    } else if th.pc in {Construct, SetNext, CasHead} {
      LinkEvolves(p, sl, t, th, c);
    } else if th.pc in {MarkLinked, Release} {
      OwnsASlot(p, sl, t, th);
      HeadIsSmall(p, s, th.idx);
      UpdateEvolves(p, sl, t, th, c);
    }
  }

  lemma SameEvolves(p: Params, t: ThreadId, th: Thread, sl: Slots)
    requires Sized(p, sl) && (th.pc == MarkLinked ==> ThreadOk(p, sl, t, th))
    ensures Evolves(p, t, th, sl, sl)
  {
  }

  lemma OwnsASlot(p: Params, sl: Slots, t: ThreadId, th: Thread)
    requires Sized(p, sl) && ThreadOk(p, sl, t, th) && Owning(th)
    ensures 0 < th.idx < p.n && sl.owners[th.idx] == t && StateOf(sl.words[th.idx]) == CONSTRUCTING
  {
    hide Unlinked, Absent;
  }

  lemma AllocEvolves(p: Params, sl: Slots, t: ThreadId, th: Thread, c: Choice)
    requires Sized(p, sl) && InRange(p, th) && th.pc in {AllocLoad, AllocCas} && ThreadOk(p, sl, t, th)
    ensures Evolves(p, t, th, sl, AllocStep(p, sl, t, th, c).slots)
  {
    hide Unlinked, Absent;
  }

  lemma LinkEvolves(p: Params, sl: Slots, t: ThreadId, th: Thread, c: Choice)
    requires Sized(p, sl) && InRange(p, th) && th.pc in {Construct, SetNext, CasHead} && ThreadOk(p, sl, t, th)
    ensures Evolves(p, t, th, sl, LinkStep(p, sl, th, c).slots)
  {
    hide Unlinked, Absent;
  }

  lemma UpdateEvolves(p: Params, sl: Slots, t: ThreadId, th: Thread, c: Choice)
    requires p.Valid() && Sized(p, sl) && InRange(p, th) && th.pc in {MarkLinked, Release}
    requires HeadOf(sl.words[th.idx]) < p.n && StateOf(sl.words[th.idx]) == CONSTRUCTING
    ensures Evolves(p, t, th, sl, LinkStep(p, sl, th, c).slots)
  {
    FetchAddKeepsHead(p, sl.words[th.idx], CONSTRUCTING, if th.pc == Release then EMPTY else LINKED);
  }

  lemma HeadIsSmall(p: Params, s: State, x: nat)
    requires Inv(p, s) && x < p.n
    ensures HeadOf(s.slots.words[x]) < p.n
  {
    hide StateOk, ThreadOk;
    var b := |s.slots.chains[x]|;
    assert WordOk(p, s.slots, x) && ChainOk(p, s.slots, x);
    assert b > 0 ==> LinkOk(p, s.slots, x, b - 1);
  }

  lemma LinkedIs(p: Params, sl: Slots, b: nat, j: nat)
    requires Sized(p, sl) && b < p.n && j < |sl.chains[b]| && ChainOk(p, sl, b)
    ensures LinkOk(p, sl, b, j)
  {
  }

  /** A linked slot keeps its key, its place and its successor, whoever moves. */
  lemma LinkStays(p: Params, s: State, t: ThreadId, c: Choice, b: nat, j: nat)
    requires Inv(p, s) && CanStep(p, s, t) && b < p.n && j < |s.slots.chains[b]|
    ensures var s' := Step(p, s, t, c); Sized(p, s'.slots) && j < |s'.slots.chains[b]| && LinkOk(p, s'.slots, b, j)
    ensures var s' := Step(p, s, t, c);
            var x := s.slots.chains[b][j];
            s'.slots.chains[b][j] == x && x < p.n && s'.slots.keys[x] == s.slots.keys[x]
  {
    hide Step, CanStep, Inv, WordOk, StateOk, Absent;
    CanStepIsLive(p, s, t);
    InvParts(p, s, t);
    StepEvolves(p, s, t, c);
    var s', x := Step(p, s, t, c), s.slots.chains[b][j];
    assert ChainOk(p, s.slots, b) by { ChainsAreOk(p, s, b); }
    forall i: nat | i <= j
      ensures var y := s.slots.chains[b][i];
              y == s'.slots.chains[b][i] && y < p.n && s'.slots.keys[y] == s.slots.keys[y]
              && s'.slots.next[y] == s.slots.next[y] && StateOf(s'.slots.words[y]) != EMPTY
    {
      LinkedIs(p, s.slots, b, i);
      assert s.slots.chains[b][i] in s.slots.chains[b];
    }
    LinkedIs(p, s.slots, b, j);
  }

  lemma CanStepIsLive(p: Params, s: State, t: ThreadId)
    requires CanStep(p, s, t)
    ensures t in s.threads && Sized(p, s.slots)
  {
  }

  lemma ChainsAreOk(p: Params, s: State, b: nat)
    requires Inv(p, s) && b < p.n
    ensures ChainOk(p, s.slots, b) && WordOk(p, s.slots, b) && StateOk(p, s, b)
  {
  }

  lemma OnlyOneMoves(p: Params, s: State, t: ThreadId, c: Choice)
    requires CanStep(p, s, t)
    ensures var s' := Step(p, s, t, c);
            && t in s'.threads && s'.threads == s.threads[t := s'.threads[t]]
            && s'.threads[t] == ThreadStep(p, s.slots, t, s.threads[t], c).th
            && s'.slots == ThreadStep(p, s.slots, t, s.threads[t], c).slots
  {
  }

  lemma AbsentStays(p: Params, s: State, t: ThreadId, c: Choice, k: Key, place: nat, seen: nat)
    requires Inv(p, s) && CanStep(p, s, t) && Absent(p, s.slots, k, place, seen) && seen <= |s.slots.chains[p.bucket(k)]|
    ensures Sized(p, Step(p, s, t, c).slots) && Absent(p, Step(p, s, t, c).slots, k, place, seen)
  {
    hide Step, CanStep, Inv, ChainOk, LinkOk;
    CanStepIsLive(p, s, t);
    StepEvolves(p, s, t, c);
    var b := p.bucket(k);
    forall j: nat | place <= j < seen
      ensures var sl := Step(p, s, t, c).slots; sl.chains[b][j] < p.n && sl.keys[sl.chains[b][j]] != k
    {
      LinkStays(p, s, t, c, b, j);
    }
  }

  lemma OthersKeep(p: Params, s: State, t: ThreadId, c: Choice, u: ThreadId)
    requires Inv(p, s) && CanStep(p, s, t) && u in s.threads && u != t
    ensures var s' := Step(p, s, t, c);
            Sized(p, s'.slots) && u in s'.threads && s'.threads[u] == s.threads[u] && ThreadOk(p, s'.slots, u, s.threads[u])
  {
    hide Step, CanStep, Inv, WordOk, StateOk, ChainOk, Absent;
    CanStepIsLive(p, s, t);
    OnlyOneMoves(p, s, t, c);
    InvParts(p, s, t);
    InvParts(p, s, u);
    StepEvolves(p, s, t, c);
    var th, b := s.threads[u], p.bucket(s.threads[u].key);
    if Absent(p, s.slots, th.key, 0, th.seen) && th.seen <= |s.slots.chains[b]| {
      AbsentStays(p, s, t, c, th.key, 0, th.seen);
    }
    if Absent(p, s.slots, th.key, th.place, th.seen) && th.seen <= |s.slots.chains[b]| {
      AbsentStays(p, s, t, c, th.key, th.place, th.seen);
    }
    if th.pc in {CompareKey, LoadNext} {
      assert ChainOk(p, s.slots, b) by { ChainsAreOk(p, s, b); }
      LinkStays(p, s, t, c, b, th.place - 1);
    }
  }

  /** A head seen before is the same chain: no slot is linked twice. */
  lemma SameHeadSameChain(p: Params, s: State, b: nat, seen: nat)
    requires Inv(p, s) && b < p.n && seen <= |s.slots.chains[b]|
    requires At(s.slots.chains[b], seen) == At(s.slots.chains[b], |s.slots.chains[b]|)
    ensures seen == |s.slots.chains[b]|
  {
    hide WordOk, StateOk, ThreadOk;
    var n := |s.slots.chains[b]|;
    if seen < n {
      assert ChainOk(p, s.slots, b) && LinkOk(p, s.slots, b, n - 1);
    }
  }

  /** The CAS that links a slot: the key was looked for in exactly the chain it is added to. */
  lemma LinkerKnows(p: Params, s: State, t: ThreadId, c: Choice)
    requires Inv(p, s) && CanStep(p, s, t) && s.threads[t].pc == CasHead
    requires var th := s.threads[t]; s.slots.words[p.bucket(th.key)] == th.prev
    ensures var th := s.threads[t];
            var b := p.bucket(th.key);
            && th.seen == |s.slots.chains[b]| && LinkOk(p, Step(p, s, t, c).slots, b, th.seen)
            && WordOk(p, Step(p, s, t, c).slots, b)
  {
    hide Inv, StateOk, ChainOk, ThreadOk;
    var th := s.threads[t];
    var b := p.bucket(th.key);
    InvParts(p, s, t);
    assert b < p.n && th.seen <= |s.slots.chains[b]| && 0 < th.idx < p.n by {
      hide Unlinked, Absent;
      assert ThreadOk(p, s.slots, t, th);
    }
    assert WordOk(p, s.slots, b) by { ChainsAreOk(p, s, b); }
    assert HeadOf(th.prev) == At(s.slots.chains[b], th.seen) && s.slots.next[th.idx] == HeadOf(th.prev) && s.slots.keys[th.idx] == th.key
           && StateOf(s.slots.words[th.idx]) == CONSTRUCTING && Absent(p, s.slots, th.key, 0, th.seen) && Unlinked(p, s.slots, th.idx)
    by {
      hide Unlinked, Absent;
      assert ThreadOk(p, s.slots, t, th);
    }
    SameHeadSameChain(p, s, b, th.seen);
  }

  lemma ChainStays(p: Params, s: State, t: ThreadId, c: Choice, b: nat)
    requires Inv(p, s) && CanStep(p, s, t) && b < p.n
    ensures Sized(p, Step(p, s, t, c).slots) && ChainOk(p, Step(p, s, t, c).slots, b)
  {
    hide Step, CanStep, Inv, LinkOk, ThreadOk;
    CanStepIsLive(p, s, t);
    StepEvolves(p, s, t, c);
    var s' := Step(p, s, t, c);
    forall j: nat | j < |s'.slots.chains[b]| ensures LinkOk(p, s'.slots, b, j) {
      if j < |s.slots.chains[b]| {
        LinkStays(p, s, t, c, b, j);
      } else {
        OnlyTheCasLinks(p, s, t, c, b);
        LinkerKnows(p, s, t, c);
      }
    }
  }

  lemma OnlyTheCasLinks(p: Params, s: State, t: ThreadId, c: Choice, b: nat)
    requires CanStep(p, s, t) && b < p.n && Step(p, s, t, c).slots.chains[b] != s.slots.chains[b]
    ensures var th := s.threads[t];
            && th.pc == CasHead && b == p.bucket(th.key) && s.slots.words[b] == th.prev
            && |Step(p, s, t, c).slots.chains[b]| == |s.slots.chains[b]| + 1
  {
  }

  /** Every word's head stays the newest slot of its chain, through CASes and additions alike. */
  lemma WordStays(p: Params, s: State, t: ThreadId, c: Choice, x: nat)
    requires Inv(p, s) && CanStep(p, s, t) && x < p.n
    ensures Sized(p, Step(p, s, t, c).slots) && WordOk(p, Step(p, s, t, c).slots, x)
  {
    hide StateOk, ChainOk, Unlinked, Absent;
    var th, sl := s.threads[t], s.slots;
    assert WordOk(p, sl, x) && ThreadOk(p, sl, t, th);
    if th.pc in {MarkLinked, Release} {
      HeadIsSmall(p, s, th.idx);
      FetchAddKeepsHead(p, sl.words[th.idx], CONSTRUCTING, if th.pc == Release then EMPTY else LINKED);
    } else if th.pc == CasHead && sl.words[p.bucket(th.key)] == th.prev {
      LinkerKnows(p, s, t, c);
    }
  }

  /** An owner stays one until its slot is linked, or empty again. */
  lemma OwnerStays(p: Params, s: State, t: ThreadId, c: Choice)
    requires Inv(p, s) && CanStep(p, s, t) && Owning(s.threads[t])
    ensures var th, th' := s.threads[t], Step(p, s, t, c).threads[t];
            var word := Step(p, s, t, c).slots.words[th.idx];
            || (StateOf(word) == CONSTRUCTING && Owning(th') && th'.idx == th.idx && Step(p, s, t, c).slots.owners == s.slots.owners)
            || (StateOf(word) == EMPTY && th.pc == Release)
            || (StateOf(word) == LINKED && th.pc in {CasHead, MarkLinked} && th'.answer == Inserted(th.idx)
                && th.idx in Step(p, s, t, c).slots.chains[p.bucket(th.key)]
                && Step(p, s, t, c).slots.keys[th.idx] == th.key)
  {
    hide ChainOk, StateOk, Unlinked, Absent, WordOk;
    var th, sl := s.threads[t], s.slots;
    assert ThreadOk(p, sl, t, th);
    if th.pc in {MarkLinked, Release} {
      HeadIsSmall(p, s, th.idx);
      FetchAddKeepsHead(p, sl.words[th.idx], CONSTRUCTING, if th.pc == Release then EMPTY else LINKED);
    }
  }

  /** Only an empty slot is taken. */
  lemma TakerKnows(p: Params, s: State, t: ThreadId, c: Choice, x: nat)
    requires Inv(p, s) && CanStep(p, s, t) && x < p.n && !Owning(s.threads[t])
    ensures var s', th' := Step(p, s, t, c), Step(p, s, t, c).threads[t];
            || (s'.slots.words == s.slots.words && s'.slots.owners == s.slots.owners && s'.slots.keys == s.slots.keys)
            || (th'.pc == Construct && s.threads[t].pc == AllocCas && StateOf(s.slots.words[th'.idx]) == EMPTY
                && s'.slots.owners == s.slots.owners[th'.idx := t]
                && s'.slots.words == s.slots.words[th'.idx := s.slots.words[th'.idx] + 1] && s'.slots.keys == s.slots.keys)
  {
    hide ChainOk, StateOk, Unlinked, Absent, WordOk;
    assert ThreadOk(p, s.slots, t, s.threads[t]);
  }

  lemma StateStays(p: Params, s: State, t: ThreadId, c: Choice, x: nat)
    requires Inv(p, s) && CanStep(p, s, t) && x < p.n
    ensures Sized(p, Step(p, s, t, c).slots) && StateOk(p, Step(p, s, t, c), x)
  {
    hide Step, CanStep, Inv, ChainOk, Unlinked, Absent, WordOk, ThreadStep;
    CanStepIsLive(p, s, t);
    InvParts(p, s, t);
    assert StateOk(p, s, x) by { ChainsAreOk(p, s, x); }
    var th := s.threads[t];
    assert ThreadOk(p, s.slots, t, th);
    OnlyOneMoves(p, s, t, c);
    StepEvolves(p, s, t, c);
    if Owning(th) {
      OwnerStays(p, s, t, c);
      ChainsAreOk(p, s, x);
      if th.idx != x {
        EmptyStays(p, s, t, c, x);
      }
    } else {
      TakerKnows(p, s, t, c, x);
    }
    if StateOf(s.slots.words[x]) == LINKED {
      assert x != th.idx || !Owning(th);
      MemberStays(s.slots.chains[p.bucket(s.slots.keys[x])], Step(p, s, t, c).slots.chains[p.bucket(s.slots.keys[x])], x);
    }
  }

  lemma MemberStays(was: seq<nat>, now: seq<nat>, x: nat)
    requires was <= now && x in was
    ensures x in now
  {
    var i :| 0 <= i < |was| && was[i] == x;
    assert now[i] == x;
  }

  lemma EmptyStays(p: Params, s: State, t: ThreadId, c: Choice, x: nat)
    requires Inv(p, s) && CanStep(p, s, t) && x < p.n && Owning(s.threads[t]) && x != s.threads[t].idx
    ensures StateOf(Step(p, s, t, c).slots.words[x]) == StateOf(s.slots.words[x])
  {
    hide ChainOk, StateOk, Unlinked, Absent, WordOk;
    assert ThreadOk(p, s.slots, t, s.threads[t]);
  }

  lemma InitIsInv(p: Params, ids: set<ThreadId>)
    requires p.Valid()
    ensures Inv(p, Init(p, ids))
  {
  }

  lemma NobodyIsStuck(p: Params, s: State, t: ThreadId)
    requires Inv(p, s) && t in s.threads
    ensures CanStep(p, s, t)
  {
    hide ChainOk, StateOk, Unlinked, Absent, WordOk;
    assert ThreadOk(p, s.slots, t, s.threads[t]);
    var th := s.threads[t];
    if th.pc in {CompareKey, LoadNext} {
      PlaceIsASlot(p, s, p.bucket(th.key), th.place);
    }
  }

  lemma PlaceIsASlot(p: Params, s: State, b: nat, r: nat)
    requires Inv(p, s) && b < p.n && 0 < r <= |s.slots.chains[b]|
    ensures var x := At(s.slots.chains[b], r);
            0 < x < p.n && s.slots.next[x] == At(s.slots.chains[b], r - 1) && (r == 1 || At(s.slots.chains[b], r - 1) > 0)
  {
    hide StateOk, ThreadOk, WordOk;
    assert ChainOk(p, s.slots, b) && LinkOk(p, s.slots, b, r - 1);
    assert r > 1 ==> LinkOk(p, s.slots, b, r - 2);
  }

  /** A search goes down one slot at a time, and what it leaves behind does not hold the key. */
  lemma SearcherKnows(p: Params, s: State, t: ThreadId, c: Choice)
    requires Inv(p, s) && CanStep(p, s, t) && Searching(s.threads[t].pc)
    ensures Step(p, s, t, c).slots == s.slots && ThreadOk(p, s.slots, t, Step(p, s, t, c).threads[t])
  {
    hide Inv, ChainOk, StateOk, Unlinked, SearchStep, LinkStep, AllocStep, ThreadOk;
    var th, sl := s.threads[t], s.slots;
    var b := p.bucket(th.key);
    InvParts(p, s, t);
    KnowsItsBucket(p, s, t);
    ChainsAreOk(p, s, b);
    if |sl.chains[b]| > 0 {
      PlaceIsASlot(p, s, b, |sl.chains[b]|);
    }
    if th.pc == LoadHead {
      HeadLoaded(p, sl, t, th);
    } else {
      PlaceIsASlot(p, s, b, th.place);
      SlotSearched(p, sl, t, th);
    }
  }

  lemma KnowsItsBucket(p: Params, s: State, t: ThreadId)
    requires Inv(p, s) && t in s.threads && Searching(s.threads[t].pc)
    ensures var th := s.threads[t];
            p.bucket(th.key) < p.n && (th.pc != LoadHead ==> 0 < th.place <= |s.slots.chains[p.bucket(th.key)]|)
  {
    hide Inv, Unlinked, Absent;
    InvParts(p, s, t);
  }

  lemma HeadLoaded(p: Params, sl: Slots, t: ThreadId, th: Thread)
    requires Sized(p, sl) && th.pc == LoadHead && ThreadOk(p, sl, t, th)
    requires var b := p.bucket(th.key);
             var top := |sl.chains[b]|;
             b < p.n && WordOk(p, sl, b) && (top > 0 ==> 0 < At(sl.chains[b], top))
    ensures ThreadOk(p, sl, t, SearchStep(p, sl, th))
  {
    hide Unlinked;
  }

  lemma SlotSearched(p: Params, sl: Slots, t: ThreadId, th: Thread)
    requires Sized(p, sl) && th.pc in {CompareKey, LoadNext} && ThreadOk(p, sl, t, th) && th.cur < p.n
    requires var chain := sl.chains[p.bucket(th.key)];
             && 0 < th.place <= |chain| && sl.next[At(chain, th.place)] == At(chain, th.place - 1)
             && (th.place == 1 || At(chain, th.place - 1) > 0)
    ensures ThreadOk(p, sl, t, SearchStep(p, sl, th))
  {
    hide Unlinked;
  }

  lemma AllocatorKnows(p: Params, s: State, t: ThreadId, c: Choice)
    requires Inv(p, s) && CanStep(p, s, t) && s.threads[t].pc in {AllocLoad, AllocCas}
    ensures Sized(p, Step(p, s, t, c).slots) && ThreadOk(p, Step(p, s, t, c).slots, t, Step(p, s, t, c).threads[t])
  {
    hide Inv, ChainOk, StateOk, Unlinked, Absent, WordOk, SearchStep, LinkStep;
    var th, sl := s.threads[t], s.slots;
    InvParts(p, s, t);
    AbsentStays(p, s, t, c, th.key, 0, th.seen);
    if th.pc == AllocCas && StateOf(sl.words[th.idx]) == EMPTY {
      NilIsInUse(p, s);
      EmptyIsUnlinked(p, s, th.idx);
      UnlinkedInEqualChains(p, sl, Step(p, s, t, c).slots, th.idx);
    }
  }

  lemma NilIsInUse(p: Params, s: State)
    requires Inv(p, s)
    ensures StateOf(s.slots.words[0]) == CONSTRUCTING
  {
    hide ChainOk, StateOk, ThreadOk;
    assert WordOk(p, s.slots, 0);
  }

  lemma StarterKnows(p: Params, s: State, t: ThreadId, c: Choice)
    requires Inv(p, s) && CanStep(p, s, t) && s.threads[t].pc in {Idle, LoadPrev}
    ensures Sized(p, Step(p, s, t, c).slots) && ThreadOk(p, Step(p, s, t, c).slots, t, Step(p, s, t, c).threads[t])
  {
    hide Inv, ChainOk, StateOk, Unlinked, Absent, SearchStep, LinkStep, AllocStep;
    InvParts(p, s, t);
    ChainsAreOk(p, s, p.bucket(s.threads[t].key));
  }

  lemma UnlinkedInEqualChains(p: Params, sl: Slots, sl': Slots, x: nat)
    requires Sized(p, sl) && Sized(p, sl') && sl.chains == sl'.chains
    ensures Unlinked(p, sl, x) <==> Unlinked(p, sl', x)
  {
  }

  lemma EmptyIsUnlinked(p: Params, s: State, x: nat)
    requires Inv(p, s) && x < p.n && StateOf(s.slots.words[x]) == EMPTY
    ensures Unlinked(p, s.slots, x)
  {
    hide StateOk, ThreadOk;
    forall b: nat | b < p.n ensures x !in s.slots.chains[b] {
      forall j: nat | j < |s.slots.chains[b]| ensures s.slots.chains[b][j] != x {
        assert ChainOk(p, s.slots, b) && LinkOk(p, s.slots, b, j);
      }
    }
  }

  lemma LinkingKnows(p: Params, s: State, t: ThreadId, c: Choice)
    requires Inv(p, s) && CanStep(p, s, t) && s.threads[t].pc in {Construct, SetNext, CasHead, MarkLinked, Release}
    ensures Sized(p, Step(p, s, t, c).slots) && ThreadOk(p, Step(p, s, t, c).slots, t, Step(p, s, t, c).threads[t])
  {
    hide Inv, ChainOk, StateOk, Unlinked, Absent, Evolves;
    var th, sl, s' := s.threads[t], s.slots, Step(p, s, t, c);
    InvParts(p, s, t);
    ChainsAreOk(p, s, p.bucket(th.key));
    if th.pc in {Construct, SetNext, CasHead} {
      AbsentStays(p, s, t, c, th.key, 0, th.seen);
      if s'.slots.chains == sl.chains {
        UnlinkedInEqualChains(p, sl, s'.slots, th.idx);
      }
    }
  }

  /** Every access keeps the invariant. */
  lemma StepKeepsInv(p: Params, s: State, t: ThreadId, c: Choice)
    requires Inv(p, s) && CanStep(p, s, t)
    ensures Inv(p, Step(p, s, t, c))
  {
    hide Step, CanStep, WordOk, ChainOk, StateOk, ThreadOk, ThreadStep;
    var s' := Step(p, s, t, c);
    CanStepIsLive(p, s, t);
    OnlyOneMoves(p, s, t, c);
    StepEvolves(p, s, t, c);
    forall b: nat | b < p.n ensures WordOk(p, s'.slots, b) && ChainOk(p, s'.slots, b) && StateOk(p, s', b) {
      WordStays(p, s, t, c, b);
      ChainStays(p, s, t, c, b);
      StateStays(p, s, t, c, b);
    }
    forall u | u in s'.threads ensures ThreadOk(p, s'.slots, u, s'.threads[u]) {
      if u != t {
        OthersKeep(p, s, t, c, u);
      } else if Searching(s.threads[t].pc) {
        SearcherKnows(p, s, t, c);
      } else if s.threads[t].pc in {Idle, LoadPrev} {
        StarterKnows(p, s, t, c);
      } else if s.threads[t].pc in {AllocLoad, AllocCas} {
        AllocatorKnows(p, s, t, c);
      } else {
        LinkingKnows(p, s, t, c);
      }
    }
  }

  // ----- What holds in every reachable state -----

  /** Following next_ from slot x, m times. */
  function Walk(next: seq<nat>, x: nat, m: nat): nat
    decreases m
  {
    if m == 0 then x else if x < |next| then Walk(next, next[x], m - 1) else 0
  }

  /** From the head, the next_ links lead through exactly the linked slots, newest first, and end at slot 0. */
  lemma {:induction false} WalkIsChain(p: Params, s: State, b: nat, r: nat, m: nat)
    requires Inv(p, s) && b < p.n && m <= r <= |s.slots.chains[b]|
    ensures Walk(s.slots.next, At(s.slots.chains[b], r), m) == At(s.slots.chains[b], r - m)
    decreases m
  {
    hide Inv;
    if m > 0 {
      InvParts(p, s, 0);
      PlaceIsASlot(p, s, b, r);
      WalkIsChain(p, s, b, r - 1, m - 1);
    }
  }

  /** Every chain is acyclic and ends at slot 0: the walk from the head meets no slot twice before it gets there. */
  lemma ChainEndsAtNil(p: Params, s: State, b: nat, i: nat, j: nat)
    requires Inv(p, s) && b < p.n && i < j <= |s.slots.chains[b]|
    ensures var head := HeadOf(s.slots.words[b]);
            && Walk(s.slots.next, head, |s.slots.chains[b]|) == 0
            && Walk(s.slots.next, head, i) != 0
            && Walk(s.slots.next, head, i) != Walk(s.slots.next, head, j)
  {
    hide StateOk, ThreadOk;
    var n := |s.slots.chains[b]|;
    assert WordOk(p, s.slots, b) && ChainOk(p, s.slots, b);
    WalkIsChain(p, s, b, n, n);
    WalkIsChain(p, s, b, n, i);
    WalkIsChain(p, s, b, n, j);
    assert LinkOk(p, s.slots, b, n - i - 1);
  }

  /** In every reachable state a key is linked at most once. */
  lemma KeyIsLinkedOnce(p: Params, s: State, b: nat, i: nat, d: nat, j: nat)
    requires Inv(p, s) && b < p.n && d < p.n && i < |s.slots.chains[b]| && j < |s.slots.chains[d]|
    requires s.slots.chains[b][i] < p.n && s.slots.chains[d][j] < p.n
    requires s.slots.keys[s.slots.chains[b][i]] == s.slots.keys[s.slots.chains[d][j]]
    ensures b == d && i == j
  {
    hide WordOk, StateOk, ThreadOk;
    assert ChainOk(p, s.slots, b) && LinkOk(p, s.slots, b, i);
    assert ChainOk(p, s.slots, d) && LinkOk(p, s.slots, d, j);
  }

  /** With nobody at work a slot is LINKED exactly when it is in a chain, and all others are EMPTY: no losing
      insertion has leaked its slot. */
  lemma QuietSlots(p: Params, s: State, x: nat)
    requires Inv(p, s) && 0 < x < p.n
    requires forall t | t in s.threads :: !Owning(s.threads[t])
    ensures StateOf(s.slots.words[x]) == if Unlinked(p, s.slots, x) then EMPTY else LINKED
  {
    hide ThreadOk;
    assert WordOk(p, s.slots, x) && StateOk(p, s, x);
    if !Unlinked(p, s.slots, x) {
      var b: nat :| b < p.n && x in s.slots.chains[b];
      var j :| 0 <= j < |s.slots.chains[b]| && s.slots.chains[b][j] == x;
      assert ChainOk(p, s.slots, b) && LinkOk(p, s.slots, b, j);
    }
  }

  /** A thread that found its key linked by another gives its own slot back, empty and in no chain, and the head
      that shares the word stays. */
  lemma LoserReturnsItsSlot(p: Params, s: State, t: ThreadId, c: Choice)
    requires Inv(p, s) && CanStep(p, s, t) && s.threads[t].pc == Release
    ensures var x, s' := s.threads[t].idx, Step(p, s, t, c);
            && x < p.n && StateOf(s'.slots.words[x]) == EMPTY && HeadOf(s'.slots.words[x]) == HeadOf(s.slots.words[x])
            && Unlinked(p, s'.slots, x) && s'.slots.chains == s.slots.chains
  {
    hide ChainOk, StateOk;
    var th := s.threads[t];
    assert ThreadOk(p, s.slots, t, th);
    HeadIsSmall(p, s, th.idx);
    FetchAddKeepsHead(p, s.slots.words[th.idx], CONSTRUCTING, EMPTY);
  }

  // ----- Runs -----

  ghost predicate Steps(p: Params, s: State, s': State) {
    exists t, c :: CanStep(p, s, t) && s' == Step(p, s, t, c)
  }

  /** Any interleaving of any operations of the given threads. */
  ghost predicate IsRun(p: Params, ids: set<ThreadId>, run: seq<State>) {
    && p.Valid() && |run| > 0 && run[0] == Init(p, ids)
    && forall j: nat | j + 1 < |run| :: Steps(p, run[j], run[j + 1])
  }

  lemma {:induction false} RunKeepsInv(p: Params, ids: set<ThreadId>, run: seq<State>, j: nat)
    requires IsRun(p, ids, run) && j < |run|
    ensures Inv(p, run[j])
  {
    hide Inv, Step, CanStep;
    if j == 0 {
      InitIsInv(p, ids);
    } else {
      RunKeepsInv(p, ids, run, j - 1);
      assert Steps(p, run[j - 1], run[j - 1 + 1]);
      var t, c :| CanStep(p, run[j - 1], t) && run[j] == Step(p, run[j - 1], t, c);
      StepKeepsInv(p, run[j - 1], t, c);
    }
  }

  lemma LastStep(p: Params, ids: set<ThreadId>, run: seq<State>, b: nat) returns (t: ThreadId, c: Choice)
    requires IsRun(p, ids, run) && 0 < b < |run|
    ensures Inv(p, run[b - 1]) && CanStep(p, run[b - 1], t) && run[b] == Step(p, run[b - 1], t, c)
  {
    hide Inv, Step, CanStep;
    RunKeepsInv(p, ids, run, b - 1);
    assert Steps(p, run[b - 1], run[b - 1 + 1]);
    t, c :| CanStep(p, run[b - 1], t) && run[b] == Step(p, run[b - 1], t, c);
  }

  /** In any interleaving, a linked slot is never unlinked: its key, its successor and its place stay. */
  lemma {:induction false} LinkedForever(p: Params, ids: set<ThreadId>, run: seq<State>, a: nat, b: nat, k: nat, j: nat)
    requires IsRun(p, ids, run) && a <= b < |run| && k < p.n && Sized(p, run[a].slots) && j < |run[a].slots.chains[k]|
    ensures Sized(p, run[b].slots) && j < |run[b].slots.chains[k]|
    ensures var x := run[a].slots.chains[k][j];
            && x < p.n && run[b].slots.chains[k][j] == x
            && run[b].slots.keys[x] == run[a].slots.keys[x] && run[b].slots.next[x] == run[a].slots.next[x]
  {
    hide Inv, IsRun, Step, CanStep;
    RunKeepsInv(p, ids, run, a);
    RunKeepsInv(p, ids, run, b);
    assert LinkOk(p, run[a].slots, k, j) by { ChainsAreOk(p, run[a], k); LinkedIs(p, run[a].slots, k, j); }
    if a < b {
      LinkedForever(p, ids, run, a, b - 1, k, j);
      var t, c := LastStep(p, ids, run, b);
      assert LinkOk(p, run[b - 1].slots, k, j) by { ChainsAreOk(p, run[b - 1], k); LinkedIs(p, run[b - 1].slots, k, j); }
      LinkStays(p, run[b - 1], t, c, k, j);
      if j > 0 {
        LinkStays(p, run[b - 1], t, c, k, j - 1);
      }
    }
  }

  /** A search that has not passed the j-th slot of its chain. */
  predicate Ahead(th: Thread, j: nat) {
    th.pc == LoadHead || (th.pc == CompareKey && th.place > j) || (th.pc == LoadNext && th.place > j + 1)
  }

  lemma SearcherGetsThere(p: Params, s: State, t: ThreadId, c: Choice, j: nat)
    requires Inv(p, s) && CanStep(p, s, t) && Ahead(s.threads[t], j)
    requires var th := s.threads[t];
             var chain := s.slots.chains[p.bucket(th.key)];
             j < |chain| && chain[j] < p.n && s.slots.keys[chain[j]] == th.key
    ensures var th, th' := s.threads[t], Step(p, s, t, c).threads[t];
            var x := s.slots.chains[p.bucket(th.key)][j];
            th'.key == th.key && (Ahead(th', j) || (th'.answer == Found(x) && th'.pc in {Idle, Release}))
  {
    hide Inv, ChainOk, StateOk, Unlinked;
    var th, sl := s.threads[t], s.slots;
    var b := p.bucket(th.key);
    InvParts(p, s, t);
    ChainsAreOk(p, s, b);
    PlaceIsASlot(p, s, b, |sl.chains[b]|);
    if th.pc != LoadHead {
      PlaceIsASlot(p, s, b, th.place);
      if th.pc == CompareKey && sl.keys[th.cur] == th.key {
        KeyIsLinkedOnce(p, s, b, j, b, th.place - 1);
      }
    }
  }

  /** In any interleaving, a search for a key that was linked when it began finds it. */
  lemma {:induction false} LinkedKeysAreFound(p: Params, ids: set<ThreadId>, run: seq<State>, a: nat, b: nat, t: ThreadId, j: nat)
    requires IsRun(p, ids, run) && a <= b < |run| && t in run[a].threads && run[a].threads[t].pc == LoadHead
    requires Sized(p, run[a].slots)
    requires var th := run[a].threads[t];
             && p.bucket(th.key) < p.n
             && var chain := run[a].slots.chains[p.bucket(th.key)];
             && j < |chain| && chain[j] < p.n && run[a].slots.keys[chain[j]] == th.key
    requires forall i: nat | a <= i < b :: t in run[i].threads && Searching(run[i].threads[t].pc)
    ensures t in run[b].threads
    ensures var th, th' := run[a].threads[t], run[b].threads[t];
            var x := run[a].slots.chains[p.bucket(th.key)][j];
            th'.key == th.key && (Ahead(th', j) || (th'.answer == Found(x) && th'.pc in {Idle, Release}))
  {
    hide Inv, IsRun, Step, CanStep;
    if a < b {
      LinkedKeysAreFound(p, ids, run, a, b - 1, t, j);
      var u, c := LastStep(p, ids, run, b);
      OnlyOneMoves(p, run[b - 1], u, c);
      if u == t {
        LinkedForever(p, ids, run, a, b - 1, p.bucket(run[a].threads[t].key), j);
        SearcherGetsThere(p, run[b - 1], t, c, j);
      }
    }
  }

  // ----- Answers are true -----

  /** Slot x is in the chain of k's bucket and holds k. */
  predicate Holds(p: Params, sl: Slots, x: nat, k: Key)
    requires Sized(p, sl)
  {
    0 < x < p.n && p.bucket(k) < p.n && x in sl.chains[p.bucket(k)] && sl.keys[x] == k
  }

  /** No slot in the chain of k's bucket holds k. */
  ghost predicate NoneHolds(p: Params, sl: Slots, k: Key) {
    && Sized(p, sl) && p.bucket(k) < p.n
    && forall j: nat | j < |sl.chains[p.bucket(k)]| :: sl.chains[p.bucket(k)][j] < p.n && sl.keys[sl.chains[p.bucket(k)][j]] != k
  }

  /** Thread t's own access, after which a chain is longer. */
  predicate OwnLink(run: seq<State>, j: nat, t: ThreadId) {
    && j + 1 < |run| && t in run[j].threads && t in run[j + 1].threads
    && run[j].threads[t] != run[j + 1].threads[t] && run[j].slots.chains != run[j + 1].slots.chains
  }

  /** That access has put slot x, holding k, on top of the chain of k's bucket, in which no slot held k. */
  ghost predicate LinksKey(p: Params, run: seq<State>, j: nat, t: ThreadId, x: nat, k: Key) {
    && OwnLink(run, j, t) && NoneHolds(p, run[j].slots, k)
    && run[j + 1].slots.chains == run[j].slots.chains[p.bucket(k) := run[j].slots.chains[p.bucket(k)] + [x]]
    && Sized(p, run[j + 1].slots) && Holds(p, run[j + 1].slots, x, k)
  }

  ghost predicate LinkedKey(p: Params, run: seq<State>, a: nat, b: nat, t: ThreadId, x: nat, k: Key) {
    exists j: nat :: a <= j < b && LinksKey(p, run, j, t, x, k)
  }

  /** Thread t's own access j, in which it does not get the slot that it tries. */
  predicate FailedTry(run: seq<State>, j: nat, t: ThreadId) {
    && j + 1 < |run| && t in run[j].threads && t in run[j + 1].threads && run[j].threads[t] != run[j + 1].threads[t]
    && run[j].threads[t].pc in {AllocLoad, AllocCas} && !(run[j + 1].threads[t].pc in {AllocCas, Construct})
  }

  ghost function FailedTries(run: seq<State>, a: nat, b: nat, t: ThreadId): nat {
    if b <= a then 0 else FailedTries(run, a, b - 1, t) + if FailedTry(run, b - 1, t) then 1 else 0
  }

  /** Its own access j, in which a constructor throws. */
  predicate ConstructorThrows(run: seq<State>, j: nat, t: ThreadId) {
    && j + 1 < |run| && t in run[j].threads && t in run[j + 1].threads
    && run[j].threads[t].pc == Construct && run[j + 1].threads[t].pc == Release
  }

  ghost predicate ConstructorThrew(run: seq<State>, a: nat, b: nat, t: ThreadId) {
    exists j: nat :: a <= j < b && ConstructorThrows(run, j, t)
  }

  ghost predicate LinkedNothing(run: seq<State>, a: nat, b: nat, t: ThreadId) {
    forall j: nat | a <= j < b :: !OwnLink(run, j, t)
  }

  /** At some moment from a on, and before b, k was in no chain. */
  ghost predicate WasAbsent(p: Params, run: seq<State>, a: nat, b: nat, k: Key) {
    exists j: nat :: a <= j < b && j < |run| && NoneHolds(p, run[j].slots, k)
  }

  /** What the answer of an operation on k means, which thread t began at a (as a lookup or not) and ended before b. */
  ghost predicate IsTrue(p: Params, run: seq<State>, a: nat, b: nat, t: ThreadId, lookup: bool, k: Key, answer: Answer)
    requires b < |run| && Sized(p, run[b].slots)
  {
    match answer
    case Found(x) => Holds(p, run[b].slots, x, k) && LinkedNothing(run, a, b, t)
    case Inserted(x) => !lookup && Holds(p, run[b].slots, x, k) && LinkedKey(p, run, a, b, t, x, k)
    case NotFound => lookup && WasAbsent(p, run, a, b, k) && LinkedNothing(run, a, b, t)
    case Threw =>
      && !lookup && LinkedNothing(run, a, b, t)
      && (ConstructorThrew(run, a, b, t) || FailedTries(run, a, b, t) == MAX_ALLOCATION_TRIES)
    case NoAnswer => false
  }

  /** A thread in the middle of an operation, and at its end. */
  ghost predicate Knows(p: Params, run: seq<State>, a: nat, b: nat, t: ThreadId, lookup: bool, k: Key)
    requires b < |run| && Sized(p, run[b].slots) && t in run[b].threads
  {
    var th := run[b].threads[t];
    && th.key == k
    && (lookup ==> th.pc == Idle || (Searching(th.pc) && th.purpose == Lookup))
    && (!lookup ==> !(Searching(th.pc) && th.purpose == Lookup))
    && (lookup && th.pc in {CompareKey, LoadNext} ==> HeadSeen(p, run, a, b, k, th.seen))
    && (!(th.pc in {Idle, MarkLinked}) ==> LinkedNothing(run, a, b, t))
    && (th.pc == MarkLinked ==> LinkedKey(p, run, a, b, t, th.idx, k))
    && (th.pc == LoadPrev || (Searching(th.pc) && th.purpose != Again) ==> FailedTries(run, a, b, t) == 0)
    && (th.pc in {AllocLoad, AllocCas} ==> FailedTries(run, a, b, t) == th.tries < MAX_ALLOCATION_TRIES)
    && (th.pc == Release ==> th.answer.Threw? ==> ConstructorThrew(run, a, b, t))
    && (th.pc == Release ==>
          (th.answer.Found? || th.answer.Threw?) && IsTrue(p, run, a, b, t, lookup, k, th.answer))
    && (th.pc == Idle ==> IsTrue(p, run, a, b, t, lookup, k, th.answer))
  }

  /** The chain had this length at some moment of the call. */
  ghost predicate HeadSeen(p: Params, run: seq<State>, a: nat, b: nat, k: Key, seen: nat) {
    exists j: nat :: a <= j < b && j < |run| && Sized(p, run[j].slots) && p.bucket(k) < p.n && |run[j].slots.chains[p.bucket(k)]| == seen
  }

  /** How an access of the search ends it. */
  lemma SearchTells(p: Params, s: State, t: ThreadId, c: Choice)
    requires Inv(p, s) && CanStep(p, s, t) && Searching(s.threads[t].pc)
    ensures var th, s' := s.threads[t], Step(p, s, t, c);
            var th' := s'.threads[t];
            && s'.slots == s.slots && th'.key == th.key && th'.purpose == th.purpose && p.bucket(th.key) < p.n
            && (Searching(th'.pc) && th.purpose == Lookup ==>
                  th'.seen == if th.pc == LoadHead then |s.slots.chains[p.bucket(th.key)]| else th.seen)
            && match th'.pc
               case CompareKey | LoadNext => true
               case AllocLoad => th.purpose == First && th'.tries == 0
               case SetNext => th.purpose == Again
               case Release => th.purpose == Again && th'.answer.Found? && Holds(p, s.slots, th'.answer.slot, th.key)
               case Idle =>
                 if th.purpose == Lookup && th'.answer == NotFound then
                   if th.pc == LoadHead then NoneHolds(p, s.slots, th.key) else Absent(p, s.slots, th.key, 0, th.seen)
                 else th.purpose != Again && th'.answer.Found? && Holds(p, s.slots, th'.answer.slot, th.key)
               case _ => false
  {
    hide Inv, ChainOk, StateOk, Unlinked;
    var th, sl := s.threads[t], s.slots;
    var b := p.bucket(th.key);
    InvParts(p, s, t);
    KnowsItsBucket(p, s, t);
    ChainsAreOk(p, s, b);
    if |sl.chains[b]| > 0 {
      PlaceIsASlot(p, s, b, |sl.chains[b]|);
    }
    if th.pc != LoadHead {
      PlaceIsASlot(p, s, b, th.place);
      if th.pc == CompareKey && sl.keys[th.cur] == th.key {
        KeyIsThere(p, s, b, th.place, th.key);
      }
    }
  }

  lemma KeyIsThere(p: Params, s: State, b: nat, r: nat, k: Key)
    requires Inv(p, s) && b < p.n && 0 < r <= |s.slots.chains[b]| && p.bucket(k) == b
    requires var x := At(s.slots.chains[b], r); x < p.n && s.slots.keys[x] == k
    ensures Holds(p, s.slots, At(s.slots.chains[b], r), k)
  {
    hide Inv;
    PlaceIsASlot(p, s, b, r);
    InvParts(p, s, 0);
    assert s.slots.chains[b][r - 1] in s.slots.chains[b];
  }

  /** The accesses that neither search nor link. */
  lemma OtherTells(p: Params, s: State, t: ThreadId, c: Choice)
    requires Inv(p, s) && CanStep(p, s, t) && s.threads[t].pc in {LoadPrev, AllocLoad, AllocCas, Construct, SetNext, Release}
    ensures var th, s' := s.threads[t], Step(p, s, t, c);
            var th' := s'.threads[t];
            && s'.slots.chains == s.slots.chains && th'.key == th.key
            && match th.pc
               case LoadPrev => th'.pc == LoadHead && th'.purpose == First
               case AllocLoad | AllocCas =>
                 || (th'.pc in {AllocCas, Construct} && th'.tries == th.tries)
                 || (th'.tries == th.tries + 1 < MAX_ALLOCATION_TRIES && th'.pc == AllocLoad)
                 || (th.tries + 1 >= MAX_ALLOCATION_TRIES && th'.pc == Idle && th'.answer == Threw)
               case Construct => (th'.pc == Release && th'.answer == Threw) || th'.pc == SetNext
               case SetNext => th'.pc == CasHead
               case _ => th'.pc == Idle && th'.answer == th.answer
  {
    hide Inv, ThreadOk;
  }

  /** The accesses that link. */
  lemma LinkTells(p: Params, s: State, t: ThreadId, c: Choice)
    requires Inv(p, s) && CanStep(p, s, t) && s.threads[t].pc in {CasHead, MarkLinked}
    ensures var th, s' := s.threads[t], Step(p, s, t, c);
            var th', b := s'.threads[t], p.bucket(th.key);
            && th'.key == th.key && b < p.n && Sized(p, s'.slots)
            && (s'.slots.chains == s.slots.chains ==>
                  || (th.pc == MarkLinked && th'.pc == Idle && th'.answer == Inserted(th.idx) && Holds(p, s'.slots, th.idx, th.key))
                  || (th.pc == CasHead && th'.pc == LoadHead && th'.purpose == Again))
            && (s'.slots.chains != s.slots.chains ==>
                  && th.pc == CasHead && s'.slots.chains == s.slots.chains[b := s.slots.chains[b] + [th.idx]]
                  && NoneHolds(p, s.slots, th.key) && Holds(p, s'.slots, th.idx, th.key) && th'.idx == th.idx
                  && (th'.pc == MarkLinked || (th'.pc == Idle && th'.answer == Inserted(th.idx))))
  {
    hide Inv, ChainOk, StateOk, Unlinked, Absent, LinkOk;
    var th := s.threads[t];
    InvParts(p, s, t);
    CanStepIsLive(p, s, t);
    if th.pc == CasHead && s.slots.words[p.bucket(th.key)] == th.prev {
      LinkerKnows(p, s, t, c);
      AllAbsent(p, s.slots, th.key);
      assert th.idx in s.slots.chains[p.bucket(th.key)] + [th.idx];
    }
  }

  lemma AllAbsent(p: Params, sl: Slots, k: Key)
    requires Sized(p, sl) && p.bucket(k) < p.n && Absent(p, sl, k, 0, |sl.chains[p.bucket(k)]|)
    ensures NoneHolds(p, sl, k)
  {
  }

  lemma HoldsStays(p: Params, s: State, t: ThreadId, c: Choice, x: nat, k: Key)
    requires Inv(p, s) && CanStep(p, s, t) && Holds(p, s.slots, x, k)
    ensures Sized(p, Step(p, s, t, c).slots) && Holds(p, Step(p, s, t, c).slots, x, k)
  {
    hide Inv, Step, CanStep, LinkOk;
    CanStepIsLive(p, s, t);
    var b := p.bucket(k);
    var j :| 0 <= j < |s.slots.chains[b]| && s.slots.chains[b][j] == x;
    LinkStays(p, s, t, c, b, j);
    assert Step(p, s, t, c).slots.chains[b][j] == x;
  }

  /** What was in the chain when its head was loaded, and is known now not to hold k, did not then. */
  lemma AbsentThen(p: Params, ids: set<ThreadId>, run: seq<State>, a: nat, b: nat, k: Key, seen: nat)
    requires IsRun(p, ids, run) && a <= b < |run| && HeadSeen(p, run, a, b, k, seen)
    requires Sized(p, run[b].slots) && Absent(p, run[b].slots, k, 0, seen)
    ensures WasAbsent(p, run, a, b, k)
  {
    hide IsRun;
    var i: nat :| a <= i < b && i < |run| && Sized(p, run[i].slots) && p.bucket(k) < p.n && |run[i].slots.chains[p.bucket(k)]| == seen;
    forall j: nat | j < seen
      ensures var x := run[i].slots.chains[p.bucket(k)][j]; x < p.n && run[i].slots.keys[x] != k
    {
      LinkedForever(p, ids, run, i, b, p.bucket(k), j);
    }
    assert NoneHolds(p, run[i].slots, k);
  }

  lemma Longer(p: Params, run: seq<State>, a: nat, b: nat, t: ThreadId, k: Key)
    requires a <= b && b + 1 < |run|
    ensures LinkedNothing(run, a, b, t) && !OwnLink(run, b, t) ==> LinkedNothing(run, a, b + 1, t)
    ensures WasAbsent(p, run, a, b, k) ==> WasAbsent(p, run, a, b + 1, k)
    ensures NoneHolds(p, run[b].slots, k) ==> WasAbsent(p, run, a, b + 1, k)
    ensures forall seen: nat :: HeadSeen(p, run, a, b, k, seen) ==> HeadSeen(p, run, a, b + 1, k, seen)
    ensures forall x: nat :: LinkedKey(p, run, a, b, t, x, k) ==> LinkedKey(p, run, a, b + 1, t, x, k)
    ensures FailedTries(run, a, b + 1, t) == FailedTries(run, a, b, t) + if FailedTry(run, b, t) then 1 else 0
    ensures ConstructorThrew(run, a, b, t) || ConstructorThrows(run, b, t) ==> ConstructorThrew(run, a, b + 1, t)
    ensures forall x: nat :: LinksKey(p, run, b, t, x, k) ==> LinkedKey(p, run, a, b + 1, t, x, k)
    ensures Sized(p, run[b].slots) && p.bucket(k) < p.n ==> HeadSeen(p, run, a, b + 1, k, |run[b].slots.chains[p.bucket(k)]|)
  {
    hide NoneHolds, LinksKey, OwnLink, FailedTry, ConstructorThrows;
  }

  /** The thread's own access. */
  lemma OwnStepTells(p: Params, ids: set<ThreadId>, run: seq<State>, a: nat, b: nat, t: ThreadId, c: Choice, lookup: bool, k: Key)
    requires IsRun(p, ids, run) && a <= b && b + 1 < |run| && Sized(p, run[b].slots) && t in run[b].threads
    requires Knows(p, run, a, b, t, lookup, k) && run[b].threads[t].pc != Idle
    requires CanStep(p, run[b], t) && run[b + 1] == Step(p, run[b], t, c)
    ensures Sized(p, run[b + 1].slots) && t in run[b + 1].threads && Knows(p, run, a, b + 1, t, lookup, k)
  {
    hide IsRun, Inv, Step, CanStep, Absent, NoneHolds, Holds, LinkedKey, LinkedNothing, WasAbsent, HeadSeen, FailedTries, ConstructorThrew;
    RunKeepsInv(p, ids, run, b);
    RunKeepsInv(p, ids, run, b + 1);
    InvParts(p, run[b + 1], t);
    OnlyOneMoves(p, run[b], t, c);
    Longer(p, run, a, b, t, k);
    var th := run[b].threads[t];
    if Searching(th.pc) {
      SearchTells(p, run[b], t, c);
      if run[b + 1].threads[t].answer == NotFound && th.purpose == Lookup && th.pc != LoadHead && Absent(p, run[b].slots, k, 0, th.seen) {
        AbsentThen(p, ids, run, a, b, k, th.seen);
      }
    } else if th.pc in {CasHead, MarkLinked} {
      LinkTells(p, run[b], t, c);
      if run[b + 1].slots.chains != run[b].slots.chains {
        assert LinksKey(p, run, b, t, th.idx, k);
      }
    } else {
      OtherTells(p, run[b], t, c);
      if th.pc == Release && th.answer.Found? {
        HoldsStays(p, run[b], t, c, th.answer.slot, k);
      }
    }
  }

  lemma OthersTell(p: Params, ids: set<ThreadId>, run: seq<State>, a: nat, b: nat, t: ThreadId, u: ThreadId, c: Choice, lookup: bool, k: Key)
    requires IsRun(p, ids, run) && a <= b && b + 1 < |run| && Sized(p, run[b].slots) && t in run[b].threads && u != t
    requires Knows(p, run, a, b, t, lookup, k) && run[b].threads[t].pc != Idle
    requires CanStep(p, run[b], u) && run[b + 1] == Step(p, run[b], u, c)
    ensures Sized(p, run[b + 1].slots) && t in run[b + 1].threads && Knows(p, run, a, b + 1, t, lookup, k)
  {
    hide IsRun, Inv, Step, CanStep, Absent, NoneHolds, Holds, LinkedKey, LinkedNothing, WasAbsent, HeadSeen, FailedTries, ConstructorThrew;
    RunKeepsInv(p, ids, run, b);
    RunKeepsInv(p, ids, run, b + 1);
    InvParts(p, run[b + 1], t);
    OnlyOneMoves(p, run[b], u, c);
    Longer(p, run, a, b, t, k);
    var th := run[b].threads[t];
    if th.pc == Release && th.answer.Found? {
      HoldsStays(p, run[b], u, c, th.answer.slot, k);
    }
  }

  /** A thread that has just begun an operation: a find, or a findOrConstruct. */
  predicate Begins(th: Thread) {
    th.pc == LoadPrev || (th.pc == LoadHead && th.purpose == Lookup)
  }

  /** In any interleaving, every answer is true: a slot found, or inserted, is in the chain of the key's bucket and holds
      it; an insertion that answers so has itself put it there, where nothing held the key, and every other operation has
      put nothing anywhere; a find that finds nothing was right at some moment of the call; and an insertion throws only
      if a constructor threw, or after exactly as many slots as it may try. */
  lemma {:induction false} AnswersAreTrue(p: Params, ids: set<ThreadId>, run: seq<State>, a: nat, b: nat, t: ThreadId)
    requires IsRun(p, ids, run) && a <= b < |run| && t in run[a].threads && Begins(run[a].threads[t])
    requires forall i: nat | a <= i < b :: t in run[i].threads && run[i].threads[t].pc != Idle
    ensures Sized(p, run[b].slots) && t in run[b].threads
    ensures Knows(p, run, a, b, t, run[a].threads[t].pc == LoadHead, run[a].threads[t].key)
    ensures run[b].threads[t].pc == Idle ==>
              IsTrue(p, run, a, b, t, run[a].threads[t].pc == LoadHead, run[a].threads[t].key, run[b].threads[t].answer)
  {
    hide IsRun, Inv, Step, CanStep, IsTrue;
    if a == b {
      RunKeepsInv(p, ids, run, a);
      InvParts(p, run[a], t);
    } else {
      AnswersAreTrue(p, ids, run, a, b - 1, t);
      var u, c := LastStep(p, ids, run, b);
      assert run[b - 1].threads[t].pc != Idle;
      if u == t {
        OwnStepTells(p, ids, run, a, b - 1, t, c, run[a].threads[t].pc == LoadHead, run[a].threads[t].key);
      } else {
        OthersTell(p, ids, run, a, b - 1, t, u, c, run[a].threads[t].pc == LoadHead, run[a].threads[t].key);
      }
    }
  }
}
