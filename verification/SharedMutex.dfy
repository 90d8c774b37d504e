/**
 * The reader/writer lock as a step machine: any number of threads, one program counter each,
 * two binary locks and a reader count.  One action is one atomic access to a lock or to the count.
 */
module SharedMutexModel {
  import opened Threads

  /** Where a thread stands.  The names say what it is about to do, or what it holds. */
  datatype PC =
    | Idle
    | LockMain                                                      // lock
    | TryLockMain                                                   // try_lock
    | Writer                                                        // between lock and unlock
    | Enter | EnterCount | EnterTest | EnterMain | EnterLeave       // lock_shared
    | TryEnter | TryCount | TryTest | TryMain | TryUndo | TryLeave(got: bool)   // try_lock_shared
    | Reader                                                        // between lock_shared and unlock_shared
    | Exit | ExitCount | ExitTest | ExitMain | ExitLeave            // unlock_shared

  datatype Call = Lock | TryLock | LockShared | TryLockShared

  datatype Action = Begin(t: nat, call: Call) | Go(t: nat)

  /** main and read say whether m_mutex and m_read are taken; nothing records by whom. */
  datatype State = State(main: bool, read: bool, readers: int, pc: seq<PC>)

  datatype Outcome = Blocked | To(state: State)

  function Fresh(threads: nat): State {
    State(false, false, 0, seq(threads, _ => Idle))
  }

  function Entry(call: Call): PC {
    match call
    case Lock => LockMain
    case TryLock => TryLockMain
    case LockShared => Enter
    case TryLockShared => TryEnter
  }

  /** What one step of a thread makes of the two locks, the count and its own place. */
  datatype Local = Stuck | Moved(main: bool, read: bool, readers: int, p: PC)

  /** The next step of a thread that is inside a call, or that gives back what it holds. */
  function LocalStep(main: bool, read: bool, n: int, p: PC): Local {
    match p
    case Idle => Stuck
    case LockMain => if main then Stuck else Moved(true, read, n, Writer)
    case TryLockMain => if main then Moved(main, read, n, Idle) else Moved(true, read, n, Writer)
    case Writer => Moved(false, read, n, Idle)
    case Enter => if read then Stuck else Moved(main, true, n, EnterCount)
    case EnterCount => Moved(main, read, n + 1, EnterTest)
    case EnterTest => Moved(main, read, n, if n == 1 then EnterMain else EnterLeave)
    case EnterMain => if main then Stuck else Moved(true, read, n, EnterLeave)
    case EnterLeave => Moved(main, false, n, Reader)
    case TryEnter => if read then Stuck else Moved(main, true, n, TryCount)
    case TryCount => Moved(main, read, n + 1, TryTest)
    case TryTest => Moved(main, read, n, if n == 1 then TryMain else TryLeave(true))
    case TryMain => if main then Moved(main, read, n, TryUndo) else Moved(true, read, n, TryLeave(true))
    case TryUndo => Moved(main, read, n - 1, TryLeave(false))
    case TryLeave(got) => Moved(main, false, n, if got then Reader else Idle)
    case Reader => Moved(main, read, n, Exit)
    case Exit => if read then Stuck else Moved(main, true, n, ExitCount)
    case ExitCount => Moved(main, read, n - 1, ExitTest)
    case ExitTest => Moved(main, read, n, if n == 0 then ExitMain else ExitLeave)
    case ExitMain => Moved(false, read, n, ExitLeave)
    case ExitLeave => Moved(main, false, n, Idle)
  }

  function Advance(s: State, t: nat): Outcome
    requires t < |s.pc|
  {
    match LocalStep(s.main, s.read, s.readers, s.pc[t])
    case Stuck => Blocked
    case Moved(main, read, readers, p) => To(State(main, read, readers, s.pc[t := p]))
  }

  function Started(s: State, t: nat, call: Call): State
    requires t < |s.pc|
  {
    s.(pc := s.pc[t := Entry(call)])
  }

  function Apply(s: State, a: Action): Outcome {
    if a.t >= |s.pc| then Blocked
    else match a
      case Go(t) => Advance(s, t)
      case Begin(t, call) => if s.pc[t].Idle? then To(Started(s, t, call)) else Blocked
  }

  /** The state after a whole run. */
  function Run(s: State, acts: seq<Action>): Outcome
    decreases |acts|
  {
    if acts == [] then To(s)
    else match Apply(s, acts[0])
      case Blocked => Blocked
      case To(next) => Run(next, acts[1..])
  }

  predicate Reachable(s: State, threads: nat, acts: seq<Action>) {
    Run(Fresh(threads), acts) == To(s)
  }

  // ---- what the program counters say ----

  /** The thread holds m_read. */
  predicate HoldsRead(p: PC) {
    p.EnterCount? || p.EnterTest? || p.EnterMain? || p.EnterLeave?
    || p.TryCount? || p.TryTest? || p.TryMain? || p.TryUndo? || p.TryLeave?
    || p.ExitCount? || p.ExitTest? || p.ExitMain? || p.ExitLeave?
  }

  /** lock_shared has returned and unlock_shared has not yet given anything back. */
  predicate Shares(p: PC) {
    p.Reader? || p.Exit?
  }

  /** The thread is one of those the reader count counts. */
  predicate Counted(p: PC) {
    Shares(p) || p.EnterTest? || p.EnterMain? || p.EnterLeave? || p.ExitCount?
    || p.TryTest? || p.TryMain? || p.TryUndo? || p == TryLeave(true)
  }

  function IsCounted(p: PC): nat {
    if Counted(p) then 1 else 0
  }

  function IsSharer(p: PC): nat {
    if Shares(p) then 1 else 0
  }

  function Tally(pc: seq<PC>): nat {
    Sum(pc, IsCounted)
  }

  /** The number of shared holders. */
  function Sharers(pc: seq<PC>): nat {
    Sum(pc, IsSharer)
  }

  predicate HasWriter(s: State) {
    exists i | 0 <= i < |s.pc| :: s.pc[i].Writer?
  }

  /** m_mutex is taken, and by no writer: it is the readers who hold it. */
  predicate GroupHolds(s: State) {
    s.main && !HasWriter(s)
  }

  /** What a thread knows of the count and of the group at each point of the shared calls. */
  predicate Knows(n: int, group: bool, p: PC) {
    match p
    case EnterTest => group <==> n > 1
    case TryTest => group <==> n > 1
    case EnterMain => n == 1 && !group
    case TryMain => n == 1 && !group
    case TryUndo => n == 1 && !group
    case ExitTest => group
    case ExitMain => n == 0 && group
    case _ => HoldsRead(p) ==> (group <==> n > 0)
  }

  /** m_read is taken exactly when one thread is in its section. */
  predicate ReadOwned(s: State) {
    && (s.read ==> exists i :: 0 <= i < |s.pc| && HoldsRead(s.pc[i]))
    && (forall i :: 0 <= i < |s.pc| && HoldsRead(s.pc[i]) ==> s.read)
    && (forall i, j :: 0 <= i < j < |s.pc| && HoldsRead(s.pc[i]) ==> !HoldsRead(s.pc[j]))
  }

  /** There is at most one writer, and it has m_mutex. */
  predicate MainOwned(s: State) {
    && (forall i :: 0 <= i < |s.pc| && s.pc[i].Writer? ==> s.main)
    && (forall i, j :: 0 <= i < j < |s.pc| && s.pc[i].Writer? ==> !s.pc[j].Writer?)
  }

  /** The invariant. */
  predicate Inv(s: State) {
    && s.readers == Tally(s.pc)
    && ReadOwned(s)
    && MainOwned(s)
    && (forall i :: 0 <= i < |s.pc| ==> Knows(s.readers, GroupHolds(s), s.pc[i]))
    && (!s.read ==> (GroupHolds(s) <==> s.readers > 0))
  }

  // ---- counting ----

  lemma {:induction false} TallySees(pc: seq<PC>, t: nat)
    requires t < |pc| && Counted(pc[t])
    ensures Tally(pc) >= 1
    ensures Tally(pc) == 1 ==> forall i :: 0 <= i < |pc| && i != t ==> !Counted(pc[i])
  {
    if t == 0 {
      if i :| 1 <= i < |pc| && Counted(pc[i]) {
        TallySees(pc[1..], i - 1);
      }
    } else {
      TallySees(pc[1..], t - 1);
      forall i | 0 <= i < |pc| && i != t && Tally(pc) == 1 ensures !Counted(pc[i]) {
        assert i > 0 ==> pc[i] == pc[1..][i - 1];
      }
    }
  }

  lemma {:induction false} TallyFinds(pc: seq<PC>) returns (i: nat)
    requires Tally(pc) > 0
    ensures i < |pc| && Counted(pc[i])
  {
    if Counted(pc[0]) {
      i := 0;
    } else {
      i := TallyFinds(pc[1..]);
      i := i + 1;
    }
  }

  /** When nobody is inside the m_read section, the counted threads are exactly the shared holders. */
  lemma {:induction false} TallyIsSharers(pc: seq<PC>)
    requires forall i :: 0 <= i < |pc| ==> !HoldsRead(pc[i])
    ensures Tally(pc) == Sharers(pc)
  {
    if pc != [] {
      assert !HoldsRead(pc[0]);
      forall i | 0 <= i < |pc[1..]| ensures !HoldsRead(pc[1..][i]) {
        assert pc[1..][i] == pc[i + 1];
      }
      TallyIsSharers(pc[1..]);
    }
  }

  // ---- the invariant holds in every run ----

  lemma {:induction false} IdleCountsNothing(threads: nat)
    ensures Tally(Fresh(threads).pc) == 0
  {
    if threads > 0 {
      assert Fresh(threads).pc[1..] == Fresh(threads - 1).pc;
      IdleCountsNothing(threads - 1);
    }
  }

  lemma FreshInv(threads: nat)
    ensures Inv(Fresh(threads))
  {
    IdleCountsNothing(threads);
  }

  /** A step that touches no writer's place leaves the writers as they were. */
  lemma WritersStay(s: State, s': State, t: nat, p: PC)
    requires t < |s.pc| && s'.pc == s.pc[t := p]
    requires !s.pc[t].Writer? && !p.Writer?
    ensures HasWriter(s') <==> HasWriter(s)
  {
    if i :| 0 <= i < |s.pc| && s.pc[i].Writer? { assert s'.pc[i].Writer?; }
    if i :| 0 <= i < |s.pc| && s'.pc[i].Writer? { assert s.pc[i].Writer?; }
  }

  lemma ReadStaysOwned(s: State, s': State, t: nat, p: PC)
    requires ReadOwned(s) && t < |s.pc| && s'.pc == s.pc[t := p]
    requires HoldsRead(p) == HoldsRead(s.pc[t]) ==> s'.read == s.read
    requires HoldsRead(p) && !HoldsRead(s.pc[t]) ==> !s.read && s'.read
    requires !HoldsRead(p) && HoldsRead(s.pc[t]) ==> !s'.read
    ensures ReadOwned(s')
  {
    if s'.read {
      if HoldsRead(p) {
        assert HoldsRead(s'.pc[t]);
      } else {
        var i :| 0 <= i < |s.pc| && HoldsRead(s.pc[i]);
        assert HoldsRead(s'.pc[i]);
      }
    }
  }

  lemma MainStaysOwned(s: State, s': State, t: nat, p: PC)
    requires MainOwned(s) && t < |s.pc| && s'.pc == s.pc[t := p]
    requires p.Writer? && !s.pc[t].Writer? ==> !s.main && s'.main
    requires s.main && !s'.main ==> s.pc[t].Writer? || GroupHolds(s)
    requires p.Writer? ==> !s.pc[t].Writer?
    ensures MainOwned(s')
  {
  }

  /** m_mutex is the group's after a step if it is taken, not by the thread that moved, and was not a writer's. */
  function GroupNow(main: bool, group: bool, l: Local): bool
    requires l.Moved?
  {
    l.main && !l.p.Writer? && (main ==> group)
  }

  /** One step seen from inside: the moved thread's knowledge stays right, and nothing changes outside m_read. */
  lemma LocalKnowledge(main: bool, read: bool, n: int, group: bool, p: PC)
    requires LocalStep(main, read, n, p).Moved?
    requires Knows(n, group, p)
    requires group ==> main
    requires p.Writer? ==> main && !group
    requires n >= 0 && (Counted(p) ==> n >= 1)
    requires HoldsRead(p) ==> read
    requires !read ==> (group <==> n > 0)
    ensures var l := LocalStep(main, read, n, p); var g := GroupNow(main, group, l);
      && Knows(l.readers, g, l.p)
      && (!l.read ==> (g <==> l.readers > 0))
      && (!HoldsRead(p) ==> l.readers == n && (g <==> group))
      && (HoldsRead(l.p) == HoldsRead(p) ==> l.read == read)
      && (HoldsRead(l.p) && !HoldsRead(p) ==> !read && l.read)
      && (HoldsRead(p) && !HoldsRead(l.p) ==> !l.read)
      && (l.p.Writer? ==> !main && l.main && !p.Writer?)
      && (main && !l.main ==> p.Writer? || group)
      && l.readers - n == (if Counted(l.p) then 1 else 0) - (if Counted(p) then 1 else 0)
  {
  }

  lemma GroupAfter(s: State, t: nat)
    requires Inv(s) && t < |s.pc| && Advance(s, t).To?
    ensures var l := LocalStep(s.main, s.read, s.readers, s.pc[t]);
      GroupHolds(Advance(s, t).state) <==> GroupNow(s.main, GroupHolds(s), l)
  {
    var s' := Advance(s, t).state;
    var p := s'.pc[t];
    assert s'.pc == s.pc[t := p];
    if s.pc[t].Writer? {
      assert HasWriter(s);
      assert !p.Writer?;
    } else if p.Writer? {
      assert HasWriter(s') by { assert s'.pc[t].Writer?; }
    } else {
      WritersStay(s, s', t, p);
      if HasWriter(s) { var i :| 0 <= i < |s.pc| && s.pc[i].Writer?; }
    }
  }

  lemma GoKeepsInv(s: State, t: nat)
    requires Inv(s) && t < |s.pc| && Advance(s, t).To?
    ensures Inv(Advance(s, t).state)
  {
    var s' := Advance(s, t).state;
    var p, p' := s.pc[t], s'.pc[t];
    assert s'.pc == s.pc[t := p'];
    SumMove(s.pc, IsCounted, t, p');
    if Counted(p) { TallySees(s.pc, t); }
    if p.Writer? { assert HasWriter(s); }
    GroupAfter(s, t);
    LocalKnowledge(s.main, s.read, s.readers, GroupHolds(s), p);
    hide LocalStep, Knows, Tally, HasWriter, Counted;
    ReadStaysOwned(s, s', t, p');
    MainStaysOwned(s, s', t, p');
    forall i | 0 <= i < |s'.pc| ensures Knows(s'.readers, GroupHolds(s'), s'.pc[i]) {
      if i != t {
        OthersUntouched(s, t, i);
      }
    }
  }

  /** What a bystander knows is not spoiled by a step of t. */
  lemma OthersUntouched(s: State, t: nat, i: nat)
    requires Inv(s) && t < |s.pc| && i < |s.pc| && i != t && Advance(s, t).To?
    ensures var s' := Advance(s, t).state; Knows(s'.readers, GroupHolds(s'), s.pc[i])
  {
    var s' := Advance(s, t).state;
    var p := s.pc[t];
    assert Knows(s.readers, GroupHolds(s), s.pc[i]);
    if HoldsRead(s.pc[i]) {
      if Counted(p) { TallySees(s.pc, t); }
      if p.Writer? { assert HasWriter(s); }
      GroupAfter(s, t);
      LocalKnowledge(s.main, s.read, s.readers, GroupHolds(s), p);
      hide LocalStep, Knows, Tally, HasWriter, Counted;
      assert !HoldsRead(p);
      assert s'.readers == s.readers && (GroupHolds(s') <==> GroupHolds(s));
    }
  }

  lemma BeginKeepsInv(s: State, t: nat, call: Call)
    requires Inv(s) && t < |s.pc| && s.pc[t].Idle?
    ensures Inv(Started(s, t, call))
  {
    var p := Entry(call);
    var s' := Started(s, t, call);
    SumMove(s.pc, IsCounted, t, p);
    WritersStay(s, s', t, p);
    ReadStaysOwned(s, s', t, p);
    MainStaysOwned(s, s', t, p);
    hide Tally, HasWriter, ReadOwned, MainOwned;
    forall i | 0 <= i < |s'.pc| ensures Knows(s'.readers, GroupHolds(s'), s'.pc[i]) {
      if i != t {
        assert Knows(s.readers, GroupHolds(s), s.pc[i]) && s'.pc[i] == s.pc[i];
      }
    }
  }

  lemma StepKeepsInv(s: State, a: Action)
    requires Inv(s) && Apply(s, a).To?
    ensures Inv(Apply(s, a).state)
  {
    match a
    case Go(t) => GoKeepsInv(s, t);
    case Begin(t, call) => BeginKeepsInv(s, t, call);
  }

  lemma {:induction false} RunKeepsInv(s: State, acts: seq<Action>)
    requires Inv(s) && Run(s, acts).To?
    ensures Inv(Run(s, acts).state)
    decreases |acts|
  {
    if acts != [] {
      StepKeepsInv(s, acts[0]);
      RunKeepsInv(Apply(s, acts[0]).state, acts[1..]);
    }
  }

  // ---- safety ----

  /** Whoever shares the lock does so on behalf of the group. */
  lemma SharersHaveGroup(s: State, j: nat)
    requires Inv(s) && j < |s.pc| && Shares(s.pc[j])
    ensures GroupHolds(s)
  {
    TallySees(s.pc, j);
    if s.read {
      var k :| 0 <= k < |s.pc| && HoldsRead(s.pc[k]);
      assert Knows(s.readers, GroupHolds(s), s.pc[k]);
    }
  }

  lemma WriterIsAlone(s: State, i: nat, j: nat)
    requires Inv(s) && i < |s.pc| && j < |s.pc| && i != j && s.pc[i].Writer?
    ensures !s.pc[j].Writer? && !Shares(s.pc[j])
  {
    assert HasWriter(s);
    if Shares(s.pc[j]) { SharersHaveGroup(s, j); }
  }

  /** No writer together with a reader, and no two writers, in any run of any number of threads. */
  lemma Exclusion(threads: nat, acts: seq<Action>, s: State, i: nat, j: nat)
    requires Reachable(s, threads, acts)
    requires i < |s.pc| && j < |s.pc| && i != j && s.pc[i].Writer?
    ensures !s.pc[j].Writer? && !Shares(s.pc[j])
  {
    FreshInv(threads);
    RunKeepsInv(Fresh(threads), acts);
    WriterIsAlone(s, i, j);
  }

  /** With m_read free the count is exact, and the readers hold m_mutex exactly when there are some. */
  lemma CountIsExact(threads: nat, acts: seq<Action>, s: State)
    requires Reachable(s, threads, acts)
    requires !s.read
    ensures s.readers == Sharers(s.pc)
    ensures GroupHolds(s) <==> s.readers > 0
    ensures s.main <==> HasWriter(s) || s.readers > 0
  {
    FreshInv(threads);
    RunKeepsInv(Fresh(threads), acts);
    TallyIsSharers(s.pc);
    if HasWriter(s) { var i :| 0 <= i < |s.pc| && s.pc[i].Writer?; }
  }

  /**
   * The places in which a thread has its share of the group's hold on m_mutex, or has just got or not yet given it
   * back.
   */
  predicate KeepsGroup(p: PC) {
    Shares(p) || p.EnterLeave? || p == TryLeave(true) || p.ExitCount? || p.ExitTest? || p.ExitMain?
  }

  /** The readers hold m_mutex exactly when some thread is in one of those places. */
  lemma GroupIsSomeone(s: State)
    requires Inv(s)
    ensures GroupHolds(s) <==> exists i :: 0 <= i < |s.pc| && KeepsGroup(s.pc[i])
  {
    if i :| 0 <= i < |s.pc| && KeepsGroup(s.pc[i]) {
      if Shares(s.pc[i]) { SharersHaveGroup(s, i); } else { assert Knows(s.readers, GroupHolds(s), s.pc[i]); }
      if Counted(s.pc[i]) { TallySees(s.pc, i); }
    }
    if GroupHolds(s) { var i := GroupMember(s); }
  }

  lemma GroupMember(s: State) returns (i: nat)
    requires Inv(s) && GroupHolds(s)
    ensures i < |s.pc| && KeepsGroup(s.pc[i])
  {
    if s.read {
      i :| 0 <= i < |s.pc| && HoldsRead(s.pc[i]);
      assert Knows(s.readers, GroupHolds(s), s.pc[i]);
      if !KeepsGroup(s.pc[i]) { i := OtherCounted(s, i); }
    } else {
      i := TallyFinds(s.pc);
    }
  }

  /** Whoever is counted besides the thread in the m_read section has its share. */
  lemma OtherCounted(s: State, t: nat) returns (i: nat)
    requires Inv(s) && t < |s.pc| && HoldsRead(s.pc[t])
    requires s.readers > if Counted(s.pc[t]) then 1 else 0
    ensures i < |s.pc| && Shares(s.pc[i])
  {
    SumMove(s.pc, IsCounted, t, Idle);
    i := TallyFinds(s.pc[t := Idle]);
    assert i != t && !HoldsRead(s.pc[i]);
  }

  /** try_lock gets the lock exactly when no thread writes and none has a share of the readers' hold. */
  lemma TryLockJudges(threads: nat, acts: seq<Action>, s: State, t: nat)
    requires Reachable(s, threads, acts)
    requires t < |s.pc| && s.pc[t].TryLockMain?
    ensures Advance(s, t).To?
    ensures Advance(s, t).state.pc[t].Writer?
        <==> forall i :: 0 <= i < |s.pc| ==> !s.pc[i].Writer? && !KeepsGroup(s.pc[i])
  {
    FreshInv(threads);
    RunKeepsInv(Fresh(threads), acts);
    GroupIsSomeone(s);
    if HasWriter(s) { var i :| 0 <= i < |s.pc| && s.pc[i].Writer?; }
    hide Tally, ReadOwned;
  }

  /** The first reader of a try_lock_shared gives up exactly when some other thread writes. */
  lemma TryFailsAgainstWriter(threads: nat, acts: seq<Action>, s: State, t: nat)
    requires Reachable(s, threads, acts)
    requires t < |s.pc| && s.pc[t].TryMain?
    ensures Advance(s, t).To?
    ensures Advance(s, t).state.pc[t].TryUndo? <==> HasWriter(s)
  {
    FreshInv(threads);
    RunKeepsInv(Fresh(threads), acts);
    assert Knows(s.readers, GroupHolds(s), s.pc[t]);
    if HasWriter(s) { var i :| 0 <= i < |s.pc| && s.pc[i].Writer?; }
  }

  /** What the count is, at each point of one try_lock_shared, if it was n on entering m_read. */
  predicate TrySince(s: State, t: nat, n: int)
    requires t < |s.pc|
  {
    match s.pc[t]
    case TryCount => s.readers == n
    case TryTest => s.readers == n + 1
    case TryMain => s.readers == n + 1
    case TryUndo => s.readers == n + 1
    case TryLeave(got) => s.readers == if got then n + 1 else n
    case _ => !s.pc[t].TryEnter?
  }

  /** While t is in the m_read section nobody else touches the count. */
  lemma CountIsMine(s: State, t: nat, u: nat)
    requires Inv(s) && t < |s.pc| && u < |s.pc| && u != t && HoldsRead(s.pc[t])
    requires Advance(s, u).To?
    ensures Advance(s, u).state.readers == s.readers
  {
    assert !HoldsRead(s.pc[u]);
  }

  lemma TrySinceStep(s: State, t: nat, n: int, a: Action)
    requires Inv(s) && t < |s.pc| && TrySince(s, t, n) && Apply(s, a).To?
    requires a.Begin? ==> a.t != t
    ensures t < |Apply(s, a).state.pc| && TrySince(Apply(s, a).state, t, n)
  {
    hide Inv;
    if a.Go? && a.t != t {
      if HoldsRead(s.pc[t]) { CountIsMine(s, t, a.t); }
      hide LocalStep;
    }
  }

  /** A failed try_lock_shared leaves the count as it found it, whatever the other threads did meanwhile. */
  lemma {:induction false} FailedTryRestoresCount(s: State, acts: seq<Action>, t: nat, n: int)
    requires Inv(s) && t < |s.pc| && TrySince(s, t, n)
    requires Run(s, acts).To?
    requires forall a :: a in acts && a.Begin? ==> a.t != t
    ensures var s' := Run(s, acts).state;
      t < |s'.pc| && (s'.pc[t] == TryLeave(false) ==> s'.readers == n)
                  && (s'.pc[t] == TryLeave(true) ==> s'.readers == n + 1)
    decreases |acts|
  {
    if acts != [] {
      TrySinceStep(s, t, n, acts[0]);
      StepKeepsInv(s, acts[0]);
      FailedTryRestoresCount(Apply(s, acts[0]).state, acts[1..], t, n);
    }
  }

  // ---- liveness ----

  predicate AllIdle(s: State) {
    forall i :: 0 <= i < |s.pc| ==> s.pc[i].Idle?
  }

  predicate CanMove(s: State, t: nat) {
    t < |s.pc| && Advance(s, t).To?
  }

  /** A reader that waits for m_mutex inside m_read is alone in the count, so it keeps no shared holder from leaving. */
  lemma FirstReaderIsAlone(s: State, t: nat, i: nat)
    requires Inv(s) && t < |s.pc| && i < |s.pc| && i != t && s.pc[t].EnterMain?
    ensures !Counted(s.pc[i])
  {
    assert Knows(s.readers, GroupHolds(s), s.pc[t]);
    TallySees(s.pc, t);
  }

  lemma HolderOfReadMoves(s: State, t: nat) returns (u: nat)
    requires Inv(s) && t < |s.pc| && HoldsRead(s.pc[t])
    ensures CanMove(s, u)
  {
    u := t;
    assert Knows(s.readers, GroupHolds(s), s.pc[t]);
    if s.pc[t].EnterMain? && s.main {
      var w :| 0 <= w < |s.pc| && s.pc[w].Writer?;
      u := w;
    }
  }

  /**
   * No deadlock: unless every thread is idle, some thread can step inside its call or begin to give back what it
   * holds.
   */
  lemma NoDeadlock(s: State) returns (t: nat)
    requires Inv(s) && !AllIdle(s)
    ensures CanMove(s, t)
  {
    var i :| 0 <= i < |s.pc| && !s.pc[i].Idle?;
    t := i;
    if s.read {
      var h :| 0 <= h < |s.pc| && HoldsRead(s.pc[h]);
      t := HolderOfReadMoves(s, h);
    } else if s.pc[i].LockMain? && s.main {
      if w :| 0 <= w < |s.pc| && s.pc[w].Writer? {
        t := w;
      } else {
        assert !HasWriter(s);
        t := TallyFinds(s.pc);
        assert !HoldsRead(s.pc[t]);
      }
    }
  }

  /** How many steps a thread still has to take, at most, until it is idle. */
  function Distance(p: PC): nat {
    match p
    case Idle => 0
    case Writer => 1
    case LockMain => 2
    case TryLockMain => 2
    case ExitLeave => 1
    case ExitMain => 2
    case ExitTest => 3
    case ExitCount => 4
    case Exit => 5
    case Reader => 6
    case EnterLeave => 7
    case EnterMain => 8
    case EnterTest => 9
    case EnterCount => 10
    case Enter => 11
    case TryLeave(_) => 7
    case TryUndo => 8
    case TryMain => 9
    case TryTest => 10
    case TryCount => 11
    case TryEnter => 12
  }

  function Remaining(pc: seq<PC>): nat {
    Sum(pc, Distance)
  }

  predicate Quiet(acts: seq<Action>) {
    forall a :: a in acts ==> a.Go?
  }

  lemma StepShortens(main: bool, read: bool, n: int, p: PC)
    requires LocalStep(main, read, n, p).Moved?
    ensures Distance(LocalStep(main, read, n, p).p) < Distance(p)
  {
  }

  lemma GoShrinks(s: State, t: nat)
    requires CanMove(s, t)
    ensures Remaining(Advance(s, t).state.pc) < Remaining(s.pc)
  {
    var l := LocalStep(s.main, s.read, s.readers, s.pc[t]);
    SumMove(s.pc, Distance, t, l.p);
    StepShortens(s.main, s.read, s.readers, s.pc[t]);
    hide LocalStep, Distance, Remaining;
  }

  /** Once no new call begins, every run is finite, however it is scheduled. */
  lemma {:induction false} QuietRunsEnd(s: State, acts: seq<Action>)
    requires Run(s, acts).To? && Quiet(acts)
    ensures |acts| <= Remaining(s.pc) - Remaining(Run(s, acts).state.pc)
    decreases |acts|
  {
    if acts != [] {
      assert acts[0] in acts;
      GoShrinks(s, acts[0].t);
      assert Quiet(acts[1..]) by {
        forall a | a in acts[1..] ensures a.Go? { assert a in acts; }
      }
      QuietRunsEnd(Apply(s, acts[0]).state, acts[1..]);
    }
  }

  /** ... and when it can go no further every thread is out, with both locks free and the count at zero. */
  lemma QuietRunsEndFree(threads: nat, acts: seq<Action>, s: State)
    requires Reachable(s, threads, acts)
    requires forall t: nat :: !CanMove(s, t)
    ensures AllIdle(s) && !s.main && !s.read && s.readers == 0
  {
    FreshInv(threads);
    RunKeepsInv(Fresh(threads), acts);
    if !AllIdle(s) {
      var t := NoDeadlock(s);
    } else {
      assert !s.read;
      if s.readers > 0 { var i := TallyFinds(s.pc); }
      assert !HasWriter(s);
    }
  }

  /** Every reachable state can be emptied without a new call. */
  lemma {:induction false} CanDrain(s: State) returns (acts: seq<Action>)
    requires Inv(s)
    ensures Quiet(acts) && Run(s, acts).To? && AllIdle(Run(s, acts).state)
    decreases Remaining(s.pc)
  {
    acts := [];
    if !AllIdle(s) {
      var t := NoDeadlock(s);
      GoShrinks(s, t);
      GoKeepsInv(s, t);
      var rest := CanDrain(Advance(s, t).state);
      acts := [Go(t)] + rest;
      assert acts[1..] == rest;
    }
  }

  // ---- the calls, from beginning to end ----

  predicate NobodyHolds(s: State) {
    forall i :: 0 <= i < |s.pc| ==> !s.pc[i].Writer? && !KeepsGroup(s.pc[i])
  }

  /** try_lock, with nobody in between: it takes the lock if nobody writes and none has a share, and else changes
      nothing. */
  lemma TryLockRun(threads: nat, acts: seq<Action>, s: State, t: nat)
    requires Reachable(s, threads, acts)
    requires t < |s.pc| && s.pc[t].Idle?
    ensures var r := Run(s, [Begin(t, TryLock), Go(t)]);
      r == To(if NobodyHolds(s) then s.(main := true, pc := s.pc[t := Writer]) else s)
  {
    FreshInv(threads);
    RunKeepsInv(Fresh(threads), acts);
    GroupIsSomeone(s);
    assert s.main <==> !NobodyHolds(s) by {
      if HasWriter(s) { var i :| 0 <= i < |s.pc| && s.pc[i].Writer?; }
    }
    var s1 := Started(s, t, TryLock);
    assert [Begin(t, TryLock), Go(t)][1..] == [Go(t)] && [Go(t)][1..] == [];
    assert Run(s1, [Go(t)]) == Advance(s1, t);
    assert s.pc[t := TryLockMain][t := Idle] == s.pc && s.pc[t := TryLockMain][t := Writer] == s.pc[t := Writer];
  }

  /** The places between the beginning of a call and its return. */
  predicate During(call: Call, p: PC) {
    match call
    case Lock => p.LockMain?
    case TryLock => p.TryLockMain?
    case LockShared => p.Enter? || p.EnterCount? || p.EnterTest? || p.EnterMain? || p.EnterLeave?
    case TryLockShared => p.TryEnter? || p.TryCount? || p.TryTest? || p.TryMain? || p.TryUndo? || p.TryLeave?
  }

  /** The places in which a call may return: with the lock in the mode asked for, or without it if it is a try. */
  predicate Returned(call: Call, p: PC) {
    match call
    case Lock => p.Writer?
    case TryLock => p.Writer? || p.Idle?
    case LockShared => p.Reader?
    case TryLockShared => p.Reader? || p.Idle?
  }

  /** A run in which t only goes on with the call that it is in; the others do what they like. */
  predicate OnlyGoesOn(s: State, acts: seq<Action>, t: nat)
    requires t < |s.pc|
    decreases |acts|
  {
    acts == [] || (
      && (acts[0].t == t ==> acts[0].Go? && !s.pc[t].Writer? && !s.pc[t].Reader?)
      && Apply(s, acts[0]).To?
      && t < |Apply(s, acts[0]).state.pc| && OnlyGoesOn(Apply(s, acts[0]).state, acts[1..], t))
  }

  lemma {:induction false} CallGoesOn(s: State, acts: seq<Action>, t: nat, call: Call)
    requires t < |s.pc| && Run(s, acts).To? && OnlyGoesOn(s, acts, t)
    requires During(call, s.pc[t]) || Returned(call, s.pc[t])
    ensures var s' := Run(s, acts).state; t < |s'.pc| && (During(call, s'.pc[t]) || Returned(call, s'.pc[t]))
    decreases |acts|
  {
    if acts != [] {
      CallGoesOn(Apply(s, acts[0]).state, acts[1..], t, call);
    }
  }

  /** Every call goes through its own places and returns with the lock in the mode that was asked for, or, if it is
      a try, without it. */
  lemma CallReturns(s: State, acts: seq<Action>, t: nat, call: Call)
    requires Apply(s, Begin(t, call)).To? && OnlyGoesOn(Apply(s, Begin(t, call)).state, acts, t)
    requires Run(Apply(s, Begin(t, call)).state, acts).To?
    ensures var s' := Run(Apply(s, Begin(t, call)).state, acts).state;
      t < |s'.pc| && (During(call, s'.pc[t]) || Returned(call, s'.pc[t]))
  {
    CallGoesOn(Apply(s, Begin(t, call)).state, acts, t, call);
  }

  /** Before round k of the run some thread wrote. */
  predicate WroteAt(s: State, acts: seq<Action>, k: nat) {
    k <= |acts| && Run(s, acts[..k]).To? && HasWriter(Run(s, acts[..k]).state)
  }

  lemma WroteLater(s: State, acts: seq<Action>, k: nat)
    requires acts != [] && Apply(s, acts[0]).To? && WroteAt(Apply(s, acts[0]).state, acts[1..], k)
    ensures WroteAt(s, acts, k + 1)
  {
    assert acts[..k + 1][1..] == acts[1..][..k];
  }

  lemma {:induction false} TryWithoutWriterSucceeds(s: State, acts: seq<Action>, t: nat)
    requires Inv(s) && t < |s.pc| && Run(s, acts).To? && OnlyGoesOn(s, acts, t)
    requires During(TryLockShared, s.pc[t]) || s.pc[t].Reader?
    requires !s.pc[t].TryUndo? && s.pc[t] != TryLeave(false)
    ensures var s' := Run(s, acts).state;
      t < |s'.pc| && (s'.pc[t].Idle? ==> exists k: nat :: WroteAt(s, acts, k))
    decreases |acts|
  {
    if acts != [] {
      var s1 := Apply(s, acts[0]).state;
      StepKeepsInv(s, acts[0]);
      if acts[0].t == t && s.pc[t].TryMain? && s.main {
        assert Knows(s.readers, GroupHolds(s), s.pc[t]);
        assert Run(s, acts[..0]) == To(s);
        assert WroteAt(s, acts, 0);
        CallGoesOn(s1, acts[1..], t, TryLockShared);
      } else {
        hide Inv;
        TryWithoutWriterSucceeds(s1, acts[1..], t);
        if k: nat :| WroteAt(s1, acts[1..], k) { WroteLater(s, acts, k); }
      }
    }
  }

  /** try_lock_shared, whatever the others do meanwhile: it comes back without the lock only if some thread wrote. */
  lemma TrySharedFailsOnlyAgainstWriter(threads: nat, before: seq<Action>, s: State, acts: seq<Action>, t: nat)
    requires Reachable(s, threads, before) && t < |s.pc| && s.pc[t].Idle?
    requires var s1 := Started(s, t, TryLockShared); Run(s1, acts).To? && OnlyGoesOn(s1, acts, t)
    ensures var s1 := Started(s, t, TryLockShared); var s' := Run(s1, acts).state;
      t < |s'.pc| && (s'.pc[t].Idle? ==> exists k: nat :: WroteAt(s1, acts, k))
  {
    FreshInv(threads);
    RunKeepsInv(Fresh(threads), before);
    BeginKeepsInv(s, t, TryLockShared);
    TryWithoutWriterSucceeds(Started(s, t, TryLockShared), acts, t);
  }

  /** What a thread waits for: nothing to begin a call, in lock for a writer or the readers, on entering the m_read
      section for whoever is in it, and inside, as the first reader, for a writer.  Nowhere else does a call wait. */
  lemma WaitsOnlyFor(threads: nat, acts: seq<Action>, s: State, t: nat)
    requires Reachable(s, threads, acts) && t < |s.pc|
    ensures Advance(s, t).Blocked? <==>
      match s.pc[t]
      case Idle => true
      case LockMain => !NobodyHolds(s)
      case Enter => exists i :: 0 <= i < |s.pc| && HoldsRead(s.pc[i])
      case TryEnter => exists i :: 0 <= i < |s.pc| && HoldsRead(s.pc[i])
      case Exit => exists i :: 0 <= i < |s.pc| && HoldsRead(s.pc[i])
      case EnterMain => HasWriter(s)
      case _ => false
    ensures forall call :: Apply(s, Begin(t, call)).To? <==> s.pc[t].Idle?
  {
    FreshInv(threads);
    RunKeepsInv(Fresh(threads), acts);
    GroupIsSomeone(s);
    assert Knows(s.readers, GroupHolds(s), s.pc[t]);
    assert s.main <==> !NobodyHolds(s) by {
      if HasWriter(s) { var i :| 0 <= i < |s.pc| && s.pc[i].Writer?; }
    }
    if HasWriter(s) { var i :| 0 <= i < |s.pc| && s.pc[i].Writer?; }
    hide Tally, KeepsGroup;
  }
}
