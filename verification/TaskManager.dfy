/**
 * The single-flight job manager as a step machine: any number of threads call performJob for any keys, again and
 * again.  A generation is one installed future; its function is run by the first thread that waits for it.
 */
module TaskManagerModel {

  import opened OrderedKeys
  import opened Threads

  /** A deferred future.  A result is a value or the exception that the function threw. */
  datatype Status<+R> = Deferred | Running(runner: nat) | Ready(result: R)

  /** runs counts the executions of the function. */
  datatype Gen<+R> = Gen(key: int, adder: nat, status: Status<R>, runs: nat)

  /** Where a thread is in performJob. */
  datatype PC =
    | Idle
    | Entering(key: int)                    // before taking m_mutex
    | Looking(key: int)                     // holds it, before the find
    | Leaving(gen: nat, added: bool)        // holds it, before unlock
    | Waiting(gen: nat, added: bool)        // before or in fut.wait()
    | Executing(gen: nat, added: bool)      // in fut.wait(), running the function
    | Returning(gen: nat)                   // the adder, before taking m_mutex again
    | Erasing(gen: nat)                     // holds it, before the erase
    | Erased(gen: nat)                      // holds it, before unlock
    | Getting(gen: nat)                     // before fut.get()

  /** One finished call. */
  datatype Answer<+R> = Answer(t: nat, gen: nat, result: R)

  datatype State<+R> = State(mutex: Option<nat>, futures: map<int, nat>, gens: seq<Gen<R>>, pc: seq<PC>,
                             answers: seq<Answer<R>>)

  /** Go carries what the function gives, for the step in which it ends. */
  datatype Action<+R> = Call(t: nat, key: int) | Go(t: nat, outcome: R)

  datatype Outcome<+R> = Blocked | To(state: State<R>)

  function Fresh<R>(threads: nat): State<R> {
    State(None, map[], [], seq(threads, _ => Idle), [])
  }

  function Put<R>(s: State<R>, t: nat, p: PC): State<R>
    requires t < |s.pc|
  {
    s.(pc := s.pc[t := p])
  }

  function WithStatus<R>(s: State<R>, g: nat, status: Status<R>, runs: nat): State<R>
    requires g < |s.gens|
  {
    s.(gens := s.gens[g := s.gens[g].(status := status, runs := runs)])
  }

  /** After the wait the adder goes to erase, everyone else to get. */
  function Woken(g: nat, added: bool): PC {
    if added then Returning(g) else Getting(g)
  }

  function Advance<R>(s: State<R>, t: nat, outcome: R): Outcome<R>
    requires t < |s.pc|
  {
    match s.pc[t]
    case Idle => Blocked
    case Entering(key) =>
      if s.mutex.Some? then Blocked else To(Put(s, t, Looking(key)).(mutex := Some(t)))
    case Looking(key) =>
      if key in s.futures then To(Put(s, t, Leaving(s.futures[key], false)))
      else To(Put(s, t, Leaving(|s.gens|, true)).(
                futures := s.futures[key := |s.gens|], gens := s.gens + [Gen(key, t, Deferred, 0)]))
    case Leaving(g, added) => To(Put(s, t, Waiting(g, added)).(mutex := None))
    case Waiting(g, added) =>
      if g >= |s.gens| then Blocked
      else (match s.gens[g].status
            case Deferred => To(WithStatus(Put(s, t, Executing(g, added)), g, Running(t), s.gens[g].runs + 1))
            case Running(_) => Blocked
            case Ready(_) => To(Put(s, t, Woken(g, added))))
    case Executing(g, added) =>
      if g >= |s.gens| then Blocked
      else To(WithStatus(Put(s, t, Woken(g, added)), g, Ready(outcome), s.gens[g].runs))
    case Returning(g) =>
      if s.mutex.Some? then Blocked else To(Put(s, t, Erasing(g)).(mutex := Some(t)))
    case Erasing(g) =>
      if g >= |s.gens| then Blocked
      else To(Put(s, t, Erased(g)).(futures := s.futures - {s.gens[g].key}))
    case Erased(g) => To(Put(s, t, Getting(g)).(mutex := None))
    case Getting(g) =>
      if g >= |s.gens| || !s.gens[g].status.Ready? then Blocked
      else To(Put(s, t, Idle).(answers := s.answers + [Answer(t, g, s.gens[g].status.result)]))
  }

  function Apply<R>(s: State<R>, a: Action<R>): Outcome<R> {
    if a.t >= |s.pc| then Blocked
    else match a
      case Call(t, key) => if s.pc[t].Idle? then To(Put(s, t, Entering(key))) else Blocked
      case Go(t, outcome) => Advance(s, t, outcome)
  }

  function Run<R>(s: State<R>, acts: seq<Action<R>>): Outcome<R>
    decreases |acts|
  {
    if acts == [] then To(s)
    else match Apply(s, acts[0])
      case Blocked => Blocked
      case To(next) => Run(next, acts[1..])
  }

  ghost predicate Reachable<R>(s: State<R>, threads: nat, acts: seq<Action<R>>) {
    Run(Fresh(threads), acts) == To(s)
  }

  // ---- the invariant ----

  predicate HoldsMutex(p: PC) {
    p.Looking? || p.Leaving? || p.Erasing? || p.Erased?
  }

  /** The thread installed generation g and has not yet erased it. */
  predicate Owns(p: PC, g: nat) {
    ((p.Leaving? || p.Waiting? || p.Executing?) && p.added && p.gen == g)
    || ((p.Returning? || p.Erasing?) && p.gen == g)
  }

  /** What a thread's place says about the generation it deals with. */
  ghost predicate Fits<R>(gens: seq<Gen<R>>, t: nat, p: PC) {
    match p
    case Leaving(g, added) => g < |gens| && (added ==> gens[g].adder == t)
    case Waiting(g, added) => g < |gens| && (added ==> gens[g].adder == t)
    case Executing(g, added) => g < |gens| && (added ==> gens[g].adder == t) && gens[g].status == Running(t)
    case Returning(g) => g < |gens| && gens[g].adder == t && gens[g].status.Ready?
    case Erasing(g) => g < |gens| && gens[g].adder == t && gens[g].status.Ready?
    case Erased(g) => g < |gens| && gens[g].status.Ready?
    case Getting(g) => g < |gens| && gens[g].status.Ready?
    case _ => true
  }

  /** What holds of one generation. */
  ghost predicate Sound<R>(s: State<R>, g: nat)
    requires g < |s.gens|
  {
    var gen := s.gens[g];
    && gen.adder < |s.pc|
    && (Owns(s.pc[gen.adder], g) <==> gen.key in s.futures && s.futures[gen.key] == g)
    && (!gen.status.Ready? ==> Owns(s.pc[gen.adder], g))
    && gen.runs == (if gen.status.Deferred? then 0 else 1)
    && (gen.status.Running? ==>
          var u := gen.status.runner; u < |s.pc| && s.pc[u].Executing? && s.pc[u].gen == g)
  }

  ghost predicate Inv<R>(s: State<R>) {
    && (s.mutex.Some? ==> s.mutex.value < |s.pc|)
    && (forall t :: 0 <= t < |s.pc| ==> (HoldsMutex(s.pc[t]) <==> s.mutex == Some(t)))
    && (forall t :: 0 <= t < |s.pc| ==> Fits(s.gens, t, s.pc[t]))
    && (forall k :: k in s.futures ==> s.futures[k] < |s.gens| && s.gens[s.futures[k]].key == k)
    && (forall g :: 0 <= g < |s.gens| ==> Sound(s, g))
    && (forall i :: 0 <= i < |s.answers| ==>
          s.answers[i].gen < |s.gens| && s.gens[s.answers[i].gen].status == Ready(s.answers[i].result))
  }

  /** A step that only moves t, from a place that owned the same generations, leaves every generation sound. */
  lemma MoveKeepsSound<R>(s: State<R>, s': State<R>, t: nat, g: nat)
    requires t < |s.pc| && g < |s.gens| && Sound(s, g)
    requires s'.gens == s.gens && s'.futures == s.futures && |s'.pc| == |s.pc| && s'.pc == s.pc[t := s'.pc[t]]
    requires Owns(s'.pc[t], g) == Owns(s.pc[t], g)
    requires !s.pc[t].Executing?
    ensures Sound(s', g)
  {
  }

  /** One generation through a step of t. */
  lemma AdvanceKeepsSound<R>(s: State<R>, t: nat, outcome: R, g: nat)
    requires Inv(s) && t < |s.pc| && Advance(s, t, outcome).To? && g < |s.gens|
    ensures Sound(Advance(s, t, outcome).state, g)
  {
    var s' := Advance(s, t, outcome).state;
    var p := s.pc[t];
    assert Fits(s.gens, t, p);
    assert Sound(s, g);
    hide Inv;
    if p.Erasing? {
      ErasingKeepsSound(s, t, outcome, g);
    } else if p.Executing? {
      assert s'.pc == s.pc[t := Woken(p.gen, p.added)];
    } else if p.Waiting? && s.gens[p.gen].status.Deferred? {
      assert s'.pc == s.pc[t := Executing(p.gen, p.added)];
    } else if p.Looking? {
      assert s'.pc == s.pc[t := s'.pc[t]];
    } else {
      MoveKeepsSound(s, s', t, g);
    }
  }

  lemma ErasingKeepsSound<R>(s: State<R>, t: nat, outcome: R, g: nat)
    requires Inv(s) && t < |s.pc| && s.pc[t].Erasing? && g < |s.gens| && Advance(s, t, outcome).To?
    ensures Sound(Advance(s, t, outcome).state, g)
  {
    var s' := Advance(s, t, outcome).state;
    assert Fits(s.gens, t, s.pc[t]);
    assert Sound(s, g) && Sound(s, s.pc[t].gen);
    hide Inv;
    assert s'.pc == s.pc[t := Erased(s.pc[t].gen)];
  }

  lemma InstalledIsSound<R>(s: State<R>, t: nat, outcome: R)
    requires Inv(s) && t < |s.pc| && s.pc[t].Looking? && s.pc[t].key !in s.futures
    ensures Sound(Advance(s, t, outcome).state, |s.gens|)
  {
  }

  /** Everything but the generations. */
  lemma AdvanceKeepsPlaces<R>(s: State<R>, t: nat, outcome: R)
    requires Inv(s) && t < |s.pc| && Advance(s, t, outcome).To?
    ensures var s' := Advance(s, t, outcome).state;
      && (s'.mutex.Some? ==> s'.mutex.value < |s'.pc|)
      && (forall u :: 0 <= u < |s'.pc| ==> (HoldsMutex(s'.pc[u]) <==> s'.mutex == Some(u)))
      && (forall k :: k in s'.futures ==> s'.futures[k] < |s'.gens| && s'.gens[s'.futures[k]].key == k)
  {
    assert Fits(s.gens, t, s.pc[t]);
    hide Fits, Sound;
  }

  lemma AdvanceKeepsFits<R>(s: State<R>, t: nat, outcome: R, u: nat)
    requires Inv(s) && t < |s.pc| && Advance(s, t, outcome).To? && u < |s.pc|
    ensures var s' := Advance(s, t, outcome).state; Fits(s'.gens, u, s'.pc[u])
  {
    assert Fits(s.gens, t, s.pc[t]) && Fits(s.gens, u, s.pc[u]);
    if s.pc[t].Looking? && s.pc[t].key in s.futures { assert s.futures[s.pc[t].key] < |s.gens|; }
    hide Inv, Sound;
  }

  lemma AdvanceKeepsInv<R>(s: State<R>, t: nat, outcome: R)
    requires Inv(s) && t < |s.pc| && Advance(s, t, outcome).To?
    ensures Inv(Advance(s, t, outcome).state)
  {
    var s' := Advance(s, t, outcome).state;
    forall g | 0 <= g < |s'.gens| ensures Sound(s', g) {
      if g < |s.gens| { AdvanceKeepsSound(s, t, outcome, g); } else { InstalledIsSound(s, t, outcome); }
    }
    forall u | 0 <= u < |s'.pc| ensures Fits(s'.gens, u, s'.pc[u]) { AdvanceKeepsFits(s, t, outcome, u); }
    AdvanceKeepsPlaces(s, t, outcome);
    assert Fits(s.gens, t, s.pc[t]);
    hide Sound;
  }

  lemma CallKeepsInv<R>(s: State<R>, t: nat, key: int)
    requires Inv(s) && t < |s.pc| && s.pc[t].Idle?
    ensures Inv(Put(s, t, Entering(key)))
  {
    var s' := Put(s, t, Entering(key));
    forall g | 0 <= g < |s'.gens| ensures Sound(s', g) {
      assert Sound(s, g);
      MoveKeepsSound(s, s', t, g);
    }
    forall u | 0 <= u < |s'.pc| ensures Fits(s'.gens, u, s'.pc[u]) { assert Fits(s.gens, u, s.pc[u]); }
    hide Sound, Fits;
  }

  lemma {:induction false} RunKeepsInv<R>(s: State<R>, acts: seq<Action<R>>)
    requires Inv(s) && Run(s, acts).To?
    ensures Inv(Run(s, acts).state)
    decreases |acts|
  {
    if acts != [] {
      match acts[0] {
        case Call(t, key) => CallKeepsInv(s, t, key);
        case Go(t, outcome) => AdvanceKeepsInv(s, t, outcome);
      }
      RunKeepsInv(Apply(s, acts[0]).state, acts[1..]);
    }
  }

  lemma ReachableInv<R>(s: State<R>, threads: nat, acts: seq<Action<R>>)
    requires Reachable(s, threads, acts)
    ensures Inv(s)
  {
    RunKeepsInv(Fresh<R>(threads), acts);
  }

  // ---- single flight ----

  /** Each generation's function runs at most once, and of one key at most one generation is not yet finished. */
  lemma SingleFlight<R>(s: State<R>, threads: nat, acts: seq<Action<R>>, g: nat, h: nat)
    requires Reachable(s, threads, acts)
    requires g < |s.gens| && h < |s.gens|
    ensures s.gens[g].runs <= 1
    ensures s.gens[g].status.Ready? ==> s.gens[g].runs == 1
    ensures s.gens[g].key == s.gens[h].key && !s.gens[g].status.Ready? && !s.gens[h].status.Ready? ==> g == h
  {
    ReachableInv(s, threads, acts);
    assert Sound(s, g) && Sound(s, h);
  }

  /** Two calls that waited for one generation were given one result. */
  lemma SameResult<R>(s: State<R>, threads: nat, acts: seq<Action<R>>, i: nat, j: nat)
    requires Reachable(s, threads, acts)
    requires i < |s.answers| && j < |s.answers| && s.answers[i].gen == s.answers[j].gen
    ensures s.answers[i].result == s.answers[j].result
  {
    ReachableInv(s, threads, acts);
  }

  /** A call that looks while a generation of its key is unfinished joins that one and installs nothing. */
  lemma JoinsTheFlight<R>(s: State<R>, threads: nat, acts: seq<Action<R>>, t: nat, outcome: R, g: nat)
    requires Reachable(s, threads, acts)
    requires t < |s.pc| && s.pc[t].Looking? && g < |s.gens|
    requires s.gens[g].key == s.pc[t].key && !s.gens[g].status.Ready?
    ensures Advance(s, t, outcome) == To(Put(s, t, Leaving(g, false)))
  {
    ReachableInv(s, threads, acts);
    assert Sound(s, g);
  }

  /**
   * The adder's erase takes out exactly the future it installed: every other generation stays found or not as before.
   */
  lemma ErasesItsOwn<R>(s: State<R>, threads: nat, acts: seq<Action<R>>, t: nat, outcome: R, k: int)
    requires Reachable(s, threads, acts)
    requires t < |s.pc| && s.pc[t].Erasing?
    ensures var g := s.pc[t].gen;
      && g < |s.gens| && s.gens[g].adder == t && s.gens[g].status.Ready?
      && s.gens[g].key in s.futures && s.futures[s.gens[g].key] == g
      && Advance(s, t, outcome).To?
      && (var futures := Advance(s, t, outcome).state.futures;
          k in futures <==> k in s.futures && s.futures[k] != g)
  {
    ReachableInv(s, threads, acts);
    var g := s.pc[t].gen;
    assert Fits(s.gens, t, s.pc[t]);
    assert Sound(s, g);
    if k in s.futures && s.futures[k] == g {
      assert s.gens[s.futures[k]].key == k;
    }
  }

  predicate AllIdle<R>(s: State<R>) {
    forall t :: 0 <= t < |s.pc| ==> s.pc[t].Idle?
  }

  /** When all calls have returned the map is empty, the mutex is free, and every generation ran exactly once. */
  lemma EmptyAtRest<R>(s: State<R>, threads: nat, acts: seq<Action<R>>)
    requires Reachable(s, threads, acts) && AllIdle(s)
    ensures s.futures == map[] && s.mutex.None?
    ensures forall g :: 0 <= g < |s.gens| ==> s.gens[g].runs == 1
  {
    ReachableInv(s, threads, acts);
    forall k ensures k !in s.futures { assert k in s.futures ==> Sound(s, s.futures[k]); }
    forall g | 0 <= g < |s.gens| ensures s.gens[g].runs == 1 { assert Sound(s, g); }
    assert s.mutex.Some? ==> HoldsMutex(s.pc[s.mutex.value]);
  }

  // ---- every call returns ----

  predicate CanMove<R>(s: State<R>, t: nat, outcome: R) {
    t < |s.pc| && Advance(s, t, outcome).To?
  }

  /** No deadlock, provided the functions themselves end. */
  lemma NoDeadlock<R>(s: State<R>, outcome: R) returns (t: nat)
    requires Inv(s) && !AllIdle(s)
    ensures CanMove(s, t, outcome)
  {
    var i :| 0 <= i < |s.pc| && !s.pc[i].Idle?;
    t := i;
    assert Fits(s.gens, t, s.pc[t]);
    if s.pc[i].Waiting? && s.gens[s.pc[i].gen].status.Running? {
      assert Sound(s, s.pc[i].gen);
      t := s.gens[s.pc[i].gen].status.runner;
    } else if (s.pc[i].Entering? || s.pc[i].Returning?) && s.mutex.Some? {
      t := s.mutex.value;
    }
    assert Fits(s.gens, t, s.pc[t]);
  }

  /** How many steps a thread has still to take until its call returns. */
  function Distance(p: PC): nat {
    match p
    case Idle => 0
    case Getting(_) => 1
    case Erased(_) => 2
    case Erasing(_) => 3
    case Returning(_) => 4
    case Executing(_, _) => 5
    case Waiting(_, _) => 6
    case Leaving(_, _) => 7
    case Looking(_) => 8
    case Entering(_) => 9
  }

  function Remaining(pc: seq<PC>): nat {
    Sum(pc, Distance)
  }

  lemma GoShrinks<R>(s: State<R>, t: nat, outcome: R)
    requires CanMove(s, t, outcome)
    ensures Remaining(Advance(s, t, outcome).state.pc) < Remaining(s.pc)
  {
    var s' := Advance(s, t, outcome).state;
    assert s'.pc == s.pc[t := s'.pc[t]];
    SumMove(s.pc, Distance, t, s'.pc[t]);
  }

  /** With no new calls every run ends, after at most nine steps for each call under way. */
  lemma {:induction false} QuietRunsEnd<R>(s: State<R>, acts: seq<Action<R>>)
    requires Run(s, acts).To? && forall a :: a in acts ==> a.Go?
    ensures |acts| <= Remaining(s.pc) - Remaining(Run(s, acts).state.pc)
    decreases |acts|
  {
    if acts != [] {
      assert acts[0] in acts;
      GoShrinks(s, acts[0].t, acts[0].outcome);
      assert forall a :: a in acts[1..] ==> a in acts;
      QuietRunsEnd(Apply(s, acts[0]).state, acts[1..]);
    }
  }

  /** ... and it can end only with every call returned and nothing left in the map. */
  lemma QuietRunsEndEmpty<R>(s: State<R>, threads: nat, acts: seq<Action<R>>, outcome: R)
    requires Reachable(s, threads, acts)
    requires forall t: nat :: !CanMove(s, t, outcome)
    ensures AllIdle(s) && s.futures == map[]
  {
    ReachableInv(s, threads, acts);
    if !AllIdle(s) {
      var t := NoDeadlock(s, outcome);
    } else {
      EmptyAtRest(s, threads, acts);
    }
  }

  /** A result once given is given for good. */
  lemma {:induction false} ResultsStay<R>(s: State<R>, acts: seq<Action<R>>, g: nat)
    requires Inv(s) && g < |s.gens| && s.gens[g].status.Ready?
    requires Run(s, acts).To?
    ensures var s' := Run(s, acts).state; g < |s'.gens| && s'.gens[g] == s.gens[g]
    decreases |acts|
  {
    if acts != [] {
      match acts[0] {
        case Call(t, key) => CallKeepsInv(s, t, key);
        case Go(t, outcome) =>
          assert Fits(s.gens, t, s.pc[t]);
          AdvanceKeepsInv(s, t, outcome);
      }
      ResultsStay(Apply(s, acts[0]).state, acts[1..], g);
    }
  }

  // ---- one call, from beginning to end ----

  /** How many of the answers went to t. */
  function AnswersTo<R>(answers: seq<Answer<R>>, t: nat): nat {
    if answers == [] then 0
    else AnswersTo(answers[..|answers| - 1], t) + if answers[|answers| - 1].t == t then 1 else 0
  }

  /** The last answer that went to t. */
  function LastAnswer<R>(answers: seq<Answer<R>>, t: nat): (i: nat)
    requires AnswersTo(answers, t) > 0
    ensures i < |answers| && answers[i].t == t
    ensures forall j :: i < j < |answers| ==> answers[j].t != t
  {
    if answers[|answers| - 1].t == t then |answers| - 1 else LastAnswer(answers[..|answers| - 1], t)
  }

  /** The generation that a place deals with. */
  function GenOf(p: PC): Option<nat> {
    match p
    case Idle => None
    case Entering(_) => None
    case Looking(_) => None
    case Leaving(g, _) => Some(g)
    case Waiting(g, _) => Some(g)
    case Executing(g, _) => Some(g)
    case Returning(g) => Some(g)
    case Erasing(g) => Some(g)
    case Erased(g) => Some(g)
    case Getting(g) => Some(g)
  }

  /**
   * How t stands with its call for key, when it had been given n answers before: under way, with that key or with a
   * generation of that key; or returned, with one more answer, which is the result of a generation of that key.
   */
  ghost predicate Serves<R>(s: State<R>, t: nat, key: int, n: nat)
    requires t < |s.pc|
  {
    match s.pc[t]
    case Idle =>
      && AnswersTo(s.answers, t) == n + 1
      && var a := s.answers[LastAnswer(s.answers, t)];
         a.gen < |s.gens| && s.gens[a.gen].key == key && s.gens[a.gen].status == Ready(a.result)
    case Entering(k) => k == key && AnswersTo(s.answers, t) == n
    case Looking(k) => k == key && AnswersTo(s.answers, t) == n
    case p =>
      var g := GenOf(p);
      g.Some? && g.value < |s.gens| && s.gens[g.value].key == key && AnswersTo(s.answers, t) == n
  }

  lemma AnswerAdded<R>(answers: seq<Answer<R>>, a: Answer<R>, t: nat)
    ensures AnswersTo(answers + [a], t) == AnswersTo(answers, t) + if a.t == t then 1 else 0
    ensures a.t == t ==> LastAnswer(answers + [a], t) == |answers|
    ensures a.t != t && AnswersTo(answers, t) > 0 ==> LastAnswer(answers + [a], t) == LastAnswer(answers, t)
  {
    assert (answers + [a])[..|answers|] == answers;
  }

  /** No step takes a generation's key away or a result back, and answers are only added. */
  lemma StepKeepsGens<R>(s: State<R>, u: nat, outcome: R)
    requires Inv(s) && u < |s.pc| && Advance(s, u, outcome).To?
    ensures var s' := Advance(s, u, outcome).state;
      && |s.gens| <= |s'.gens|
      && (forall g :: 0 <= g < |s.gens| ==> s'.gens[g].key == s.gens[g].key)
      && (forall g :: 0 <= g < |s.gens| && s.gens[g].status.Ready? ==> s'.gens[g].status == s.gens[g].status)
      && s'.answers
         == s.answers + (if s.pc[u].Getting? then [Answer(u, s.pc[u].gen, s.gens[s.pc[u].gen].status.result)] else [])
      && s'.pc == s.pc[u := s'.pc[u]]
  {
    assert Fits(s.gens, u, s.pc[u]);
    hide Sound;
  }

  lemma ServesStep<R>(s: State<R>, t: nat, key: int, n: nat, a: Action<R>)
    requires Inv(s) && t < |s.pc| && Serves(s, t, key, n)
    requires Apply(s, a).To? && (a.Call? ==> a.t != t)
    ensures var s' := Apply(s, a).state; t < |s'.pc| && Serves(s', t, key, n)
  {
    if a.Go? {
      var s' := Apply(s, a).state;
      StepKeepsGens(s, a.t, a.outcome);
      if s.pc[a.t].Getting? {
        AnswerAdded(s.answers, Answer(a.t, s.pc[a.t].gen, s.gens[s.pc[a.t].gen].status.result), t);
      } else {
        assert s'.answers == s.answers;
      }
      if a.t == t {
        OwnStep(s, t, key, n, a.outcome);
      }
    }
  }

  /** t's own step goes on with its key, or with a generation of its key. */
  lemma OwnStep<R>(s: State<R>, t: nat, key: int, n: nat, outcome: R)
    requires Inv(s) && t < |s.pc| && Serves(s, t, key, n) && Advance(s, t, outcome).To?
    ensures Serves(Advance(s, t, outcome).state, t, key, n)
  {
    assert Fits(s.gens, t, s.pc[t]);
    StepKeepsGens(s, t, outcome);
    if s.pc[t].Getting? {
      AnswerAdded(s.answers, Answer(t, s.pc[t].gen, s.gens[s.pc[t].gen].status.result), t);
    }
    hide Inv, Sound;
  }

  lemma {:induction false} ServesRun<R>(s: State<R>, acts: seq<Action<R>>, t: nat, key: int, n: nat)
    requires Inv(s) && t < |s.pc| && Serves(s, t, key, n) && Run(s, acts).To?
    requires forall a :: a in acts && a.Call? ==> a.t != t
    ensures var s' := Run(s, acts).state; t < |s'.pc| && Serves(s', t, key, n)
    decreases |acts|
  {
    if acts != [] {
      assert acts[0] in acts;
      assert forall a :: a in acts[1..] ==> a in acts;
      ServesStep(s, t, key, n, acts[0]);
      StepKeepsInv(s, acts[0]);
      ServesRun(Apply(s, acts[0]).state, acts[1..], t, key, n);
    }
  }

  lemma StepKeepsInv<R>(s: State<R>, a: Action<R>)
    requires Inv(s) && Apply(s, a).To?
    ensures Inv(Apply(s, a).state)
  {
    match a
    case Call(t, key) => CallKeepsInv(s, t, key);
    case Go(t, outcome) => AdvanceKeepsInv(s, t, outcome);
  }

  /**
   * A call for key, whatever the other threads do meanwhile: until it returns it deals with that key only, and when it
   * has returned it has been given exactly one answer, the result of a generation of that key.
   */
  lemma CallIsServed<R>(s: State<R>, threads: nat, before: seq<Action<R>>, acts: seq<Action<R>>, t: nat, key: int)
    requires Reachable(s, threads, before)
    requires t < |s.pc| && Apply(s, Call(t, key)).To? && Run(Apply(s, Call(t, key)).state, acts).To?
    requires forall a :: a in acts && a.Call? ==> a.t != t
    ensures var s' := Run(Apply(s, Call(t, key)).state, acts).state;
      t < |s'.pc| && Serves(s', t, key, AnswersTo(s.answers, t))
  {
    ReachableInv(s, threads, before);
    StepKeepsInv(s, Call(t, key));
    ServesRun(Apply(s, Call(t, key)).state, acts, t, key, AnswersTo(s.answers, t));
  }

  /** A call that looks up its key installs a generation exactly if no call that installed one of that key has yet to
      erase it; and then its own function is the one to be run. */
  lemma InstallsIff<R>(s: State<R>, threads: nat, acts: seq<Action<R>>, t: nat, outcome: R)
    requires Reachable(s, threads, acts) && t < |s.pc| && s.pc[t].Looking?
    ensures Advance(s, t, outcome).To?
    ensures var s' := Advance(s, t, outcome).state;
      if forall u, g :: 0 <= u < |s.pc| && 0 <= g < |s.gens| && s.gens[g].key == s.pc[t].key ==> !Owns(s.pc[u], g)
      then s'.gens == s.gens + [Gen(s.pc[t].key, t, Deferred, 0)]
      else s'.gens == s.gens && GenOf(s'.pc[t]).Some? && GenOf(s'.pc[t]).value < |s.gens|
  {
    ReachableInv(s, threads, acts);
    var key := s.pc[t].key;
    if key in s.futures {
      var g := s.futures[key];
      assert Sound(s, g) && s.gens[g].key == key;
      assert Owns(s.pc[s.gens[g].adder], g);
    } else {
      forall u, g | 0 <= u < |s.pc| && 0 <= g < |s.gens| && s.gens[g].key == key ensures !Owns(s.pc[u], g) {
        assert Sound(s, g) && Fits(s.gens, u, s.pc[u]);
      }
    }
  }

  /** Step i of the run is the end of g's function, and it gives r. */
  ghost predicate GivenAt<R>(s: State<R>, acts: seq<Action<R>>, i: nat, g: nat, r: R) {
    && i < |acts| && acts[i].Go? && acts[i].outcome == r
    && Run(s, acts[..i]).To?
    && var before := Run(s, acts[..i]).state;
       acts[i].t < |before.pc| && before.pc[acts[i].t].Executing? && before.pc[acts[i].t].gen == g
  }

  lemma GivenLater<R>(s: State<R>, acts: seq<Action<R>>, i: nat, g: nat, r: R)
    requires acts != [] && Apply(s, acts[0]).To? && GivenAt(Apply(s, acts[0]).state, acts[1..], i, g, r)
    ensures GivenAt(s, acts, i + 1, g, r)
  {
    assert acts[..i + 1][1..] == acts[1..][..i];
    assert acts[i + 1] == acts[1..][i];
  }

  /** Every result of a generation is what its own function gave at the end. */
  lemma {:induction false} ResultWasGiven<R>(s: State<R>, acts: seq<Action<R>>, g: nat)
    requires Inv(s) && Run(s, acts).To?
    requires g < |Run(s, acts).state.gens| && Run(s, acts).state.gens[g].status.Ready?
    requires g < |s.gens| ==> !s.gens[g].status.Ready?
    ensures exists i: nat :: GivenAt(s, acts, i, g, Run(s, acts).state.gens[g].status.result)
    decreases |acts|
  {
    var s' := Apply(s, acts[0]).state;
    var r := Run(s, acts).state.gens[g].status.result;
    StepKeepsInv(s, acts[0]);
    if g < |s'.gens| && s'.gens[g].status.Ready? {
      ResultsStay(s', acts[1..], g);
      assert Fits(s.gens, acts[0].t, s.pc[acts[0].t]);
      assert Run(s, acts[..0]) == To(s);
      assert GivenAt(s, acts, 0, g, r);
    } else {
      ResultWasGiven(s', acts[1..], g);
      var i: nat :| GivenAt(s', acts[1..], i, g, r);
      GivenLater(s, acts, i, g, r);
    }
  }

  /** What a call waits for: not for leave to begin, but for the mutex, which another thread holds, and in fut.wait()
      for another thread that runs the function.  The first to wait runs it itself, whether it installed the generation
      or not. */
  lemma WaitsOnlyFor<R>(s: State<R>, threads: nat, acts: seq<Action<R>>, t: nat, outcome: R)
    requires Reachable(s, threads, acts) && t < |s.pc|
    ensures Advance(s, t, outcome).Blocked? <==>
      match s.pc[t]
      case Idle => true
      case Entering(_) => exists u :: 0 <= u < |s.pc| && HoldsMutex(s.pc[u])
      case Returning(_) => exists u :: 0 <= u < |s.pc| && HoldsMutex(s.pc[u])
      case Waiting(g, _) => exists u :: 0 <= u < |s.pc| && u != t && s.pc[u].Executing? && s.pc[u].gen == g
      case _ => false
    ensures s.pc[t].Waiting? && Advance(s, t, outcome).To? ==>
      (Advance(s, t, outcome).state.pc[t].Executing? <==> s.gens[s.pc[t].gen].runs == 0)
    ensures forall key :: Apply(s, Call(t, key)).To? <==> s.pc[t].Idle?
  {
    ReachableInv(s, threads, acts);
    assert Fits(s.gens, t, s.pc[t]);
    if s.mutex.Some? { assert HoldsMutex(s.pc[s.mutex.value]); }
    if s.pc[t].Waiting? {
      var g := s.pc[t].gen;
      assert Sound(s, g);
      forall u | 0 <= u < |s.pc| && s.pc[u].Executing? && s.pc[u].gen == g ensures s.gens[g].status.Running? {
        assert Fits(s.gens, u, s.pc[u]);
      }
    }
  }
}
