/**
 * The map wrapper used by many threads at once.  Every operation takes the shared_mutex, works through its
 * critical section one container access at a time, and gives the lock back; the steps of different threads
 * interleave in any order.
 */
module TSMapConcurrent {
  import opened OrderedKeys
  import opened TSMapModel
  import opened Threads
  import L = SharedMutexModel

  datatype Op<!V> =
    | Find(k: int)
    | Replace(k: int, v: V, force: bool)
    | Erase(k: int, judge: Option<(int, V) -> (bool, V)>)
    | ForEachRo(p: (int, V) -> bool)
    | ForEach(f: (int, V) -> (bool, V))
    | DeleteIf(f: (int, V) -> (bool, V))

  datatype Res<!V> =
    | Found(value: Option<V>)
    | Replaced(was: V, isNew: bool)
    | Erased(ok: bool)
    | Count(n: nat)

  /** Which operations take the lock for writing. */
  predicate Writes<V>(op: Op<V>) {
    !op.Find? && !op.ForEachRo?
  }

  predicate Sweeps<V>(op: Op<V>) {
    op.ForEachRo? || op.ForEach? || op.DeleteIf?
  }

  function Pass<V>(op: Op<V>): (int, V) -> Visit<V>
    requires Sweeps(op)
  {
    match op
    case ForEachRo(p) => Counting(p)
    case ForEach(f) => Updating(f)
    case DeleteIf(f) => Removing(f)
  }

  /** The operation as one indivisible change: what a caller who knows nothing of the steps expects. */
  ghost function Contents<V>(op: Op<V>, m: map<int, V>): map<int, V> {
    match op
    case Find(_) => m
    case Replace(k, v, force) => if force || k !in m then m[k := v] else m
    case Erase(k, judge) =>
      if k !in m then m
      else if judge.None? || judge.value(k, m[k]).0 then m - {k}
      else m[k := judge.value(k, m[k]).1]
    case ForEachRo(_) => m
    case ForEach(f) => Updated(m, f)
    case DeleteIf(f) => Kept(m, f)
  }

  ghost function Answer<V>(op: Op<V>, m: map<int, V>): Res<V> {
    match op
    case Find(k) => Found(if k in m then Some(m[k]) else None)
    case Replace(k, v, _) => if k in m then Replaced(m[k], false) else Replaced(v, true)
    case Erase(k, judge) => Erased(k in m && (judge.None? || judge.value(k, m[k]).0))
    case ForEachRo(p) => Count(|Satisfying(m, p)|)
    case ForEach(f) => Count(|Accepted(m, f)|)
    case DeleteIf(f) => Count(|Accepted(m, f)|)
  }

  /** One caller alone gets exactly that from the map's own methods. */
  method Sequentially<V>(tsmap: TSMap<V>, op: Op<V>) returns (res: Res<V>)
    modifies tsmap`contents
    ensures tsmap.contents == Contents(op, old(tsmap.contents))
    ensures res == Answer(op, old(tsmap.contents))
  {
    match op
    case Find(k) =>
      var value, found := tsmap.Find(k);
      res := Found(if found then Some(value) else None);
    case Replace(k, v, force) =>
      var was, isNew := tsmap.Replace(k, v, force);
      res := Replaced(was, isNew);
    case Erase(k, judge) =>
      var ok := tsmap.Erase(k, judge);
      res := Erased(ok);
    case ForEachRo(p) =>
      var n := tsmap.ForEachRo(p);
      res := Count(n);
    case ForEach(f) =>
      var n := tsmap.ForEach(f);
      res := Count(n);
    case DeleteIf(f) =>
      var n := tsmap.DeleteIf(f);
      res := Count(n);
  }

  // ---- the critical section, step by step ----

  /** How far a thread is in its critical section. */
  datatype Stage<!V> =
    | Start
    | Inserted(isNew: bool)                 // replace, after the emplace
    | Looked                                // erase, after the find
    | Judged(yes: bool)                     // erase, after the call of f
    | At(it: Option<int>, n: nat)           // a loop: position and count
    | Done(res: Res<V>)

  /** One step of the section: the container and the stage after it.  A stage that does not belong to op stays. */
  function Work<V>(op: Op<V>, stage: Stage<V>, m: map<int, V>): (map<int, V>, Stage<V>) {
    match stage
    case Start =>
      (match op
       case Find(k) => (m, Done(Found(if k in m then Some(m[k]) else None)))
       case Replace(k, v, _) => (if k in m then m else m[k := v], Inserted(k !in m))
       case Erase(k, _) => (m, if k in m then Looked else Done(Erased(false)))
       case _ => (m, At(First(m.Keys), 0)))
    case Inserted(isNew) =>
      if !op.Replace? || op.k !in m then (m, stage)
      else if isNew then (m, Done(Replaced(op.v, true)))
      else (if op.force then m[op.k := op.v] else m, Done(Replaced(m[op.k], false)))
    case Looked =>
      if !op.Erase? || op.k !in m then (m, stage)
      else if op.judge.None? then (m, Judged(true))
      else var judged := op.judge.value(op.k, m[op.k]); (m[op.k := judged.1], Judged(judged.0))
    case Judged(yes) =>
      if !op.Erase? then (m, stage)
      else (if yes then m - {op.k} else m, Done(Erased(yes)))
    case At(it, n) =>
      if !Sweeps(op) then (m, stage)
      else if it.None? then (m, Done(Count(n)))
      else if it.value !in m then (m, stage)
      else
        var seen := Pass(op)(it.value, m[it.value]);
        var m' := if seen.keep then m[it.value := seen.value] else m - {it.value};
        (m', At(Next(m'.Keys, it.value), if seen.hit then n + 1 else n))
    case Done(_) => (m, stage)
  }

  /** What holds at each stage of an operation that found the container as start. */
  ghost predicate Halfway<V>(op: Op<V>, start: map<int, V>, stage: Stage<V>, m: map<int, V>) {
    match stage
    case Start => m == start
    case Inserted(isNew) =>
      op.Replace? && (isNew <==> op.k !in start) && m == if isNew then start[op.k := op.v] else start
    case Looked => op.Erase? && op.k in start && m == start
    case Judged(yes) =>
      op.Erase? && op.k in start
      && (if op.judge.None? then yes && m == start
          else (yes, m) == (op.judge.value(op.k, start[op.k]).0, start[op.k := op.judge.value(op.k, start[op.k]).1]))
    case At(it, n) =>
      Sweeps(op) && IsPosition(start.Keys, it)
      && m == Swept(start, Pass(op), it) && n == |Hits(start, Pass(op), it)|
    case Done(res) => m == Contents(op, start) && res == Answer(op, start)
  }

  lemma VisitKeepsHalfway<V>(op: Op<V>, start: map<int, V>, k: int, n: nat, m: map<int, V>)
    requires Halfway(op, start, At(Some(k), n), m)
    ensures var w := Work(op, At(Some(k), n), m); Halfway(op, start, w.1, w.0) && w.1.At?
  {
    SweepStep(start, Pass(op), k);
    var seen := Pass(op)(k, m[k]);
    var m' := if seen.keep then m[k := seen.value] else m - {k};
    assert m' == Swept(start, Pass(op), Next(start.Keys, k));
  }

  lemma EndKeepsHalfway<V>(op: Op<V>, start: map<int, V>, n: nat, m: map<int, V>)
    requires Halfway(op, start, At(None, n), m)
    ensures Halfway(op, start, Done(Count(n)), m)
  {
    match op
    case ForEachRo(p) =>
      assert Swept(start, Counting(p), None) == start;
      assert Hits(start, Counting(p), None) == Satisfying(start, p);
    case ForEach(f) => SweepEnds(start, f, (k: int, v: V) => true);
    case DeleteIf(f) => SweepEnds(start, f, (k: int, v: V) => true);
  }

  /** Every step of every section brings the operation further towards its indivisible form. */
  lemma WorkKeepsHalfway<V>(op: Op<V>, start: map<int, V>, stage: Stage<V>, m: map<int, V>)
    requires Halfway(op, start, stage, m)
    ensures var w := Work(op, stage, m); Halfway(op, start, w.1, w.0)
  {
    match stage
    case Start =>
      if Sweeps(op) { SweepStarts(start, Pass(op)); }
    case At(it, n) =>
      if it.None? { EndKeepsHalfway(op, start, n, m); } else { VisitKeepsHalfway(op, start, it.value, n, m); }
    case Judged(yes) =>
      if yes && op.judge.Some? {
        assert start[op.k := op.judge.value(op.k, start[op.k]).1] - {op.k} == start - {op.k};
      }
    case _ =>
  }

  /** An operation that takes the lock shared changes nothing at any of its steps. */
  lemma ReadersOnlyRead<V>(op: Op<V>, start: map<int, V>, stage: Stage<V>, m: map<int, V>)
    requires Halfway(op, start, stage, m) && !Writes(op)
    ensures m == start
  {
    if stage.At? { CountingTouchesNothing(start, op.p, stage.it); }
  }

  /** A bound on the steps that a section still takes. */
  ghost function StepsLeft<V>(start: map<int, V>, stage: Stage<V>): nat {
    match stage
    case Start => |start| + 4
    case Inserted(_) => 1
    case Looked => 2
    case Judged(_) => 1
    case At(it, _) => |Ahead(start, it)| + 1
    case Done(_) => 0
  }

  /** No section gets stuck or goes on for ever. */
  lemma SectionEnds<V>(op: Op<V>, start: map<int, V>, stage: Stage<V>, m: map<int, V>)
    requires Halfway(op, start, stage, m) && !stage.Done?
    ensures StepsLeft(start, Work(op, stage, m).1) < StepsLeft(start, stage)
  {
    if stage.Start? && Sweeps(op) {
      assert Ahead(start, First(start.Keys)) == start.Keys;
      assert |start.Keys| == |start|;
    }
    if stage.At? && stage.it.Some? { SweepStep(start, Pass(op), stage.it.value); }
  }

  // ---- all threads together ----

  /** Where a thread is with its call; a section remembers the container it found. */
  datatype Local<!V> =
    | Away
    | Asking(op: Op<V>)
    | Inside(op: Op<V>, start: map<int, V>, stage: Stage<V>)
    | Leaving(at: nat)          // the section is over; at is the place of its entry in the log

  /** One finished critical section: who ran what, and what was answered. */
  datatype Entry<!V> = Entry(t: nat, op: Op<V>, res: Res<V>)

  datatype World<!V> = World(lock: L.State, m: map<int, V>, local: seq<Local<V>>, log: seq<Entry<V>>)

  datatype Move<!V> = Call(t: nat, op: Op<V>) | Turn(t: nat)

  datatype Outcome<!V> = Blocked | To(world: World<V>)

  function Opening<V>(init: map<int, V>, threads: nat): World<V> {
    World(L.Fresh(threads), init, seq(threads, _ => Away), [])
  }

  /** lock_guard takes the lock for writing, shared_lock shared. */
  function CallOf<V>(op: Op<V>): L.Call {
    if Writes(op) then L.Lock else L.LockShared
  }

  predicate Granted(p: L.PC) {
    p.Writer? || p.Reader?
  }

  /** One step of thread t: of its lock call, of its section, or of its unlock call. */
  function TurnOf<V>(w: World<V>, t: nat): Outcome<V>
    requires t < |w.local| == |w.lock.pc|
  {
    match w.local[t]
    case Away => Blocked
    case Asking(op) =>
      (match L.Advance(w.lock, t)
       case Blocked => Blocked
       case To(l) =>
         var local := if Granted(l.pc[t]) then w.local[t := Inside(op, w.m, Start)] else w.local;
         To(w.(lock := l, local := local)))
    case Inside(op, start, stage) =>
      var next := Work(op, stage, w.m);
      if next.1.Done?
      then To(World(w.lock, next.0, w.local[t := Leaving(|w.log|)], w.log + [Entry(t, op, next.1.res)]))
      else To(World(w.lock, next.0, w.local[t := Inside(op, start, next.1)], w.log))
    case Leaving(at) =>
      (match L.Advance(w.lock, t)
       case Blocked => Blocked
       case To(l) => To(w.(lock := l, local := if l.pc[t].Idle? then w.local[t := Away] else w.local)))
  }

  function Apply<V>(w: World<V>, mv: Move<V>): Outcome<V> {
    if !(mv.t < |w.local| == |w.lock.pc|) then Blocked
    else match mv
      case Turn(t) => TurnOf(w, t)
      case Call(t, op) =>
        if !w.local[t].Away? then Blocked
        else match L.Apply(w.lock, L.Begin(t, CallOf(op)))
          case Blocked => Blocked
          case To(l) => To(w.(lock := l, local := w.local[t := Asking(op)]))
  }

  function Run<V>(w: World<V>, moves: seq<Move<V>>): Outcome<V>
    decreases |moves|
  {
    if moves == [] then To(w)
    else match Apply(w, moves[0])
      case Blocked => Blocked
      case To(next) => Run(next, moves[1..])
  }

  // ---- the log as a sequential history ----

  /** The container after the logged operations, each run as one indivisible change. */
  ghost function After<V>(init: map<int, V>, log: seq<Entry<V>>): map<int, V> {
    if log == [] then init
    else Contents(log[|log| - 1].op, After(init, log[..|log| - 1]))
  }

  /** Every logged answer is the one that the sequential history gives. */
  ghost predicate Explained<V>(init: map<int, V>, log: seq<Entry<V>>) {
    forall i :: 0 <= i < |log| ==> log[i].res == Answer(log[i].op, After(init, log[..i]))
  }

  lemma LogOne<V>(init: map<int, V>, log: seq<Entry<V>>, e: Entry<V>)
    requires Explained(init, log) && e.res == Answer(e.op, After(init, log))
    ensures Explained(init, log + [e])
    ensures After(init, log + [e]) == Contents(e.op, After(init, log))
  {
    var more := log + [e];
    assert more[..|log|] == log;
    forall i | 0 <= i < |more| ensures more[i].res == Answer(more[i].op, After(init, more[..i])) {
      assert i < |log| ==> more[..i] == log[..i];
    }
  }

  // ---- the invariant ----

  predicate Entering(p: L.PC) {
    p.Enter? || p.EnterCount? || p.EnterTest? || p.EnterMain? || p.EnterLeave?
  }

  predicate Parting(p: L.PC) {
    p.Exit? || p.ExitCount? || p.ExitTest? || p.ExitMain? || p.ExitLeave?
  }

  /** One thread: its place in the lock fits its place in the call, and its section is halfway from now. */
  ghost predicate Placed<V>(now: map<int, V>, m: map<int, V>, log: seq<Entry<V>>, t: nat, l: Local<V>, p: L.PC) {
    match l
    case Away => p.Idle?
    case Asking(op) => if Writes(op) then p.LockMain? else Entering(p)
    case Inside(op, start, stage) =>
      p == (if Writes(op) then L.Writer else L.Reader)
      && start == now && !stage.Done? && Halfway(op, start, stage, m)
    case Leaving(at) => (Granted(p) || Parting(p)) && at < |log| && log[at].t == t
  }

  predicate WriterInside<V>(w: World<V>) {
    exists i | 0 <= i < |w.local| :: w.local[i].Inside? && Writes(w.local[i].op)
  }

  ghost predicate Good<V>(init: map<int, V>, w: World<V>) {
    && L.Inv(w.lock)
    && |w.local| == |w.lock.pc|
    && Explained(init, w.log)
    && (forall i :: 0 <= i < |w.local| ==> Placed(After(init, w.log), w.m, w.log, i, w.local[i], w.lock.pc[i]))
    && (!WriterInside(w) ==> w.m == After(init, w.log))
  }

  lemma OpeningGood<V>(init: map<int, V>, threads: nat)
    ensures Good(init, Opening(init, threads))
  {
    L.FreshInv(threads);
  }

  lemma WritersStayInside<V>(w: World<V>, w': World<V>, t: nat)
    requires t < |w.local| == |w'.local| && w'.local == w.local[t := w'.local[t]]
    requires w.local[t].Inside? ==> !Writes(w.local[t].op)
    ensures WriterInside(w) ==> WriterInside(w')
  {
    if i :| 0 <= i < |w.local| && w.local[i].Inside? && Writes(w.local[i].op) {
      assert w'.local[i].Inside?;
    }
  }

  /** A step of the lock by t leaves the other places as they were, and the container alone. */
  lemma LockStepKeeps<V>(init: map<int, V>, w: World<V>, w': World<V>, t: nat)
    requires Good(init, w) && t < |w.local|
    requires t < |w'.local| && w' == World(w'.lock, w.m, w.local[t := w'.local[t]], w.log)
    requires L.Inv(w'.lock) && t < |w'.lock.pc| && w'.lock.pc == w.lock.pc[t := w'.lock.pc[t]]
    requires !w.local[t].Inside?
    requires Placed(After(init, w.log), w.m, w.log, t, w'.local[t], w'.lock.pc[t])
    ensures Good(init, w')
  {
    WritersStayInside(w, w', t);
    hide L.Inv, Placed, Explained, WriterInside;
  }

  /** Whoever is granted the lock finds the container as the log leaves it. */
  lemma GrantedFindsLog<V>(init: map<int, V>, w: World<V>, lock: L.State, t: nat)
    requires Good(init, w) && t < |w.local| && !w.local[t].Inside?
    requires L.Inv(lock) && |lock.pc| == |w.local| && lock.pc == w.lock.pc[t := lock.pc[t]]
    requires Granted(lock.pc[t])
    ensures w.m == After(init, w.log)
  {
    if i :| 0 <= i < |w.local| && w.local[i].Inside? && Writes(w.local[i].op) {
      assert Placed(After(init, w.log), w.m, w.log, i, w.local[i], w.lock.pc[i]);
      assert lock.pc[i].Writer?;
      L.WriterIsAlone(lock, i, t);
    } else {
      assert !WriterInside(w);
    }
  }

  /** A lock call goes on until the lock is granted in the mode that was asked for. */
  lemma AskingPlaced<V>(now: map<int, V>, m: map<int, V>, log: seq<Entry<V>>, t: nat, op: Op<V>, lock: L.State)
    requires t < |lock.pc| && Placed(now, m, log, t, Asking(op), lock.pc[t])
    requires L.Advance(lock, t).To?
    requires Granted(L.Advance(lock, t).state.pc[t]) ==> m == now
    ensures var p := L.Advance(lock, t).state.pc[t];
      Placed(now, m, log, t, if Granted(p) then Inside(op, m, Start) else Asking(op), p)
  {
  }

  lemma AskingStep<V>(init: map<int, V>, w: World<V>, t: nat)
    requires Good(init, w) && t < |w.local| && w.local[t].Asking?
    requires L.Advance(w.lock, t).To?
    ensures Good(init, TurnOf(w, t).world)
  {
    var w' := TurnOf(w, t).world;
    L.GoKeepsInv(w.lock, t);
    hide L.LocalStep, L.Inv, Explained, WriterInside, After, Placed;
    if Granted(w'.lock.pc[t]) {
      GrantedFindsLog(init, w, w'.lock, t);
    }
    AskingPlaced(After(init, w.log), w.m, w.log, t, w.local[t].op, w.lock);
    LockStepKeeps(init, w, w', t);
  }

  /** From a granted lock the only way is out. */
  lemma LeavingPlaced<V>(now: map<int, V>, m: map<int, V>, log: seq<Entry<V>>, t: nat, at: nat, lock: L.State)
    requires t < |lock.pc| && Placed(now, m, log, t, Leaving(at), lock.pc[t])
    requires L.Advance(lock, t).To?
    ensures var p := L.Advance(lock, t).state.pc[t];
      Placed(now, m, log, t, if p.Idle? then Away else Leaving(at), p)
  {
  }

  lemma LeavingStep<V>(init: map<int, V>, w: World<V>, t: nat)
    requires Good(init, w) && t < |w.local| && w.local[t].Leaving?
    requires L.Advance(w.lock, t).To?
    ensures Good(init, TurnOf(w, t).world)
  {
    var w' := TurnOf(w, t).world;
    L.GoKeepsInv(w.lock, t);
    hide L.LocalStep, L.Inv, Explained, WriterInside, After, Placed;
    LeavingPlaced(After(init, w.log), w.m, w.log, t, w.local[t].at, w.lock);
    assert w'.local == w.local[t := w'.local[t]];
    LockStepKeeps(init, w, w', t);
  }

  lemma CallStep<V>(init: map<int, V>, w: World<V>, t: nat, op: Op<V>)
    requires Good(init, w) && Apply(w, Call(t, op)).To?
    ensures Good(init, Apply(w, Call(t, op)).world)
  {
    var w' := Apply(w, Call(t, op)).world;
    L.StepKeepsInv(w.lock, L.Begin(t, CallOf(op)));
    LockStepKeeps(init, w, w', t);
  }

  lemma OthersPlaced<V>(init: map<int, V>, w: World<V>, w': World<V>, t: nat)
    requires Good(init, w) && t < |w.local|
    requires |w'.local| == |w.local| && w'.lock == w.lock && w.log <= w'.log
    requires forall i :: 0 <= i < |w.local| && i != t ==> w'.local[i] == w.local[i]
    requires (w'.m == w.m && After(init, w'.log) == After(init, w.log))
          || forall i :: 0 <= i < |w.local| && i != t ==> !w.local[i].Inside?
    ensures forall i :: 0 <= i < |w.local| && i != t ==>
      Placed(After(init, w'.log), w'.m, w'.log, i, w'.local[i], w'.lock.pc[i])
  {
    forall i | 0 <= i < |w.local| && i != t
      ensures Placed(After(init, w'.log), w'.m, w'.log, i, w'.local[i], w'.lock.pc[i])
    {
      assert Placed(After(init, w.log), w.m, w.log, i, w.local[i], w.lock.pc[i]);
    }
  }

  /** What one step inside a shared section does to the thread's own operation. */
  lemma ReadWork<V>(op: Op<V>, start: map<int, V>, stage: Stage<V>, m: map<int, V>)
    requires Halfway(op, start, stage, m) && !Writes(op)
    ensures var next := Work(op, stage, m); m == start && next.0 == start && Halfway(op, start, next.1, start)
    ensures Contents(op, start) == start
  {
    WorkKeepsHalfway(op, start, stage, m);
    var next := Work(op, stage, m);
    ReadersOnlyRead(op, start, stage, m);
    ReadersOnlyRead(op, start, next.1, next.0);
  }

  /** Where a finished or unfinished section leaves its thread, and what it adds to the log. */
  function Onward<V>(op: Op<V>, start: map<int, V>, stage: Stage<V>, at: nat): Local<V> {
    if stage.Done? then Leaving(at) else Inside(op, start, stage)
  }

  function Logged<V>(log: seq<Entry<V>>, t: nat, op: Op<V>, stage: Stage<V>): seq<Entry<V>> {
    if stage.Done? then log + [Entry(t, op, stage.res)] else log
  }

  lemma ReadPlaced<V>(init: map<int, V>, log: seq<Entry<V>>, t: nat, op: Op<V>, start: map<int, V>, stage: Stage<V>)
    requires !Writes(op) && start == After(init, log) && Explained(init, log)
    requires Halfway(op, start, stage, start)
    ensures var log' := Logged(log, t, op, stage);
      && Explained(init, log') && After(init, log') == After(init, log)
      && Placed(After(init, log'), start, log', t, Onward(op, start, stage, |log|), L.Reader)
  {
    hide After, Explained;
    if stage.Done? { LogOne(init, log, Entry(t, op, stage.res)); }
  }

  /** A reader's step changes neither the container nor what the log makes of it. */
  lemma ReadStep<V>(init: map<int, V>, w: World<V>, t: nat)
    requires Good(init, w) && t < |w.local| && w.local[t].Inside? && !Writes(w.local[t].op)
    ensures var w' := TurnOf(w, t).world; Good(init, w') && w'.m == w.m == w.local[t].start
  {
    var Inside(op, start, stage) := w.local[t];
    var w' := TurnOf(w, t).world;
    assert Placed(After(init, w.log), w.m, w.log, t, w.local[t], w.lock.pc[t]);
    hide Work, After, Explained, L.Inv, WriterInside, Halfway;
    ReadWork(op, start, stage, w.m);
    ReadPlaced(init, w.log, t, op, start, Work(op, stage, w.m).1);
    hide Placed;
    WritersStayInside(w, w', t);
    OthersPlaced(init, w, w', t);
  }

  lemma WritePlaced<V>(init: map<int, V>, log: seq<Entry<V>>, m: map<int, V>, t: nat, op: Op<V>, start: map<int, V>,
                       stage: Stage<V>)
    requires Writes(op) && start == After(init, log) && Explained(init, log)
    requires Halfway(op, start, stage, m)
    ensures var log' := Logged(log, t, op, stage);
      && Explained(init, log') && (stage.Done? ==> m == After(init, log'))
      && Placed(After(init, log'), m, log', t, Onward(op, start, stage, |log|), L.Writer)
  {
    hide After, Explained;
    if stage.Done? { LogOne(init, log, Entry(t, op, stage.res)); }
  }

  /** A writer's step: it is alone inside, and when it is done the log has caught up with the container. */
  lemma WriteStep<V>(init: map<int, V>, w: World<V>, t: nat)
    requires Good(init, w) && t < |w.local| && w.local[t].Inside? && Writes(w.local[t].op)
    ensures Good(init, TurnOf(w, t).world)
  {
    var Inside(op, start, stage) := w.local[t];
    var w' := TurnOf(w, t).world;
    assert Placed(After(init, w.log), w.m, w.log, t, w.local[t], w.lock.pc[t]);
    AloneInside(init, w, t);
    WorkKeepsHalfway(op, start, stage, w.m);
    hide Work, After, Explained, L.Inv, Halfway;
    WritePlaced(init, w.log, Work(op, stage, w.m).0, t, op, start, Work(op, stage, w.m).1);
    hide Placed;
    assert w'.local[t].Inside? ==> WriterInside(w');
    OthersPlaced(init, w, w', t);
  }

  lemma AloneInside<V>(init: map<int, V>, w: World<V>, t: nat)
    requires Good(init, w) && t < |w.local| && w.local[t].Inside? && Writes(w.local[t].op)
    ensures forall i :: 0 <= i < |w.local| && i != t ==> !w.local[i].Inside?
  {
    hide Work, After, Explained, Halfway;
    assert Placed(After(init, w.log), w.m, w.log, t, w.local[t], w.lock.pc[t]);
    forall i | 0 <= i < |w.local| && i != t ensures !w.local[i].Inside? {
      assert Placed(After(init, w.log), w.m, w.log, i, w.local[i], w.lock.pc[i]);
      L.WriterIsAlone(w.lock, t, i);
    }
  }

  lemma MoveKeepsGood<V>(init: map<int, V>, w: World<V>, mv: Move<V>)
    requires Good(init, w) && Apply(w, mv).To?
    ensures Good(init, Apply(w, mv).world)
  {
    match mv
    case Call(t, op) => CallStep(init, w, t, op);
    case Turn(t) =>
      if w.local[t].Asking? { AskingStep(init, w, t); }
      else if w.local[t].Leaving? { LeavingStep(init, w, t); }
      else if Writes(w.local[t].op) { WriteStep(init, w, t); }
      else { ReadStep(init, w, t); }
  }

  lemma {:induction false} RunKeepsGood<V>(init: map<int, V>, w: World<V>, moves: seq<Move<V>>)
    requires Good(init, w) && Run(w, moves).To?
    ensures Good(init, Run(w, moves).world)
    decreases |moves|
  {
    if moves != [] {
      MoveKeepsGood(init, w, moves[0]);
      RunKeepsGood(init, Apply(w, moves[0]).world, moves[1..]);
    }
  }

  ghost predicate Reachable<V>(init: map<int, V>, threads: nat, moves: seq<Move<V>>, w: World<V>) {
    Run(Opening(init, threads), moves) == To(w)
  }

  /**
   * Linearizability: in every interleaving the answers given so far are those of the logged operations run
   * one after the other as indivisible changes, and between writes the container is what they leave.
   */
  lemma Linearizable<V>(init: map<int, V>, threads: nat, moves: seq<Move<V>>, w: World<V>)
    requires Reachable(init, threads, moves, w)
    ensures Explained(init, w.log)
    ensures !WriterInside(w) ==> w.m == After(init, w.log)
  {
    OpeningGood(init, threads);
    RunKeepsGood(init, Opening(init, threads), moves);
  }

  /** for_each_ro answers for the container as it was when the lock was taken, which nobody changes meanwhile. */
  lemma CountsAtAcquisition<V>(init: map<int, V>, threads: nat, moves: seq<Move<V>>, w: World<V>, t: nat)
    requires Reachable(init, threads, moves, w)
    requires t < |w.local| && w.local[t].Inside? && w.local[t].op.ForEachRo?
    ensures w.m == w.local[t].start
    ensures Apply(w, Turn(t)).To? && |Apply(w, Turn(t)).world.local| == |w.local|
    ensures var w' := Apply(w, Turn(t)).world; w'.local[t].Leaving? ==>
      w'.log == w.log + [Entry(t, w.local[t].op, Count(|Satisfying(w.local[t].start, w.local[t].op.p)|))]
  {
    OpeningGood(init, threads);
    RunKeepsGood(init, Opening(init, threads), moves);
    var Inside(op, start, stage) := w.local[t];
    assert Placed(After(init, w.log), w.m, w.log, t, w.local[t], w.lock.pc[t]);
    ReadersOnlyRead(op, start, stage, w.m);
    WorkKeepsHalfway(op, start, stage, w.m);
  }

  /** delete_if ends as one filter of the container it was given, and its count makes up the difference in size. */
  lemma DeletesAtomically<V>(init: map<int, V>, threads: nat, moves: seq<Move<V>>, w: World<V>, t: nat)
    requires Reachable(init, threads, moves, w)
    requires t < |w.local| && w.local[t].Inside? && w.local[t].op.DeleteIf?
    ensures Apply(w, Turn(t)).To? && |Apply(w, Turn(t)).world.local| == |w.local|
    ensures var w' := Apply(w, Turn(t)).world; var start := w.local[t].start; var f := w.local[t].op.f;
      w'.local[t].Leaving? ==>
        && w'.m == Kept(start, f)
        && w'.log == w.log + [Entry(t, w.local[t].op, Count(|Accepted(start, f)|))]
        && |Accepted(start, f)| + |w'.m| == |start|
    ensures forall i :: 0 <= i < |w.local| && i != t ==> !w.local[i].Inside?
  {
    OpeningGood(init, threads);
    RunKeepsGood(init, Opening(init, threads), moves);
    var Inside(op, start, stage) := w.local[t];
    assert Placed(After(init, w.log), w.m, w.log, t, w.local[t], w.lock.pc[t]);
    WorkKeepsHalfway(op, start, stage, w.m);
    RemovedAndKept(start, op.f);
    AloneInside(init, w, t);
  }

  /** Only find and for_each_ro work under the shared lock; every other section has the lock to itself. */
  lemma InsideHolds<V>(init: map<int, V>, threads: nat, moves: seq<Move<V>>, w: World<V>, t: nat)
    requires Reachable(init, threads, moves, w)
    requires t < |w.local| && w.local[t].Inside?
    ensures |w.lock.pc| == |w.local|
    ensures var op := w.local[t].op;
      w.lock.pc[t] == if op.Find? || op.ForEachRo? then L.Reader else L.Writer
  {
    OpeningGood(init, threads);
    RunKeepsGood(init, Opening(init, threads), moves);
    assert Placed(After(init, w.log), w.m, w.log, t, w.local[t], w.lock.pc[t]);
  }

  /** A call can always begin; after that it waits only where the lock makes it wait, and never inside its section. */
  lemma WaitsOnlyForLock<V>(init: map<int, V>, threads: nat, moves: seq<Move<V>>, w: World<V>, t: nat)
    requires Reachable(init, threads, moves, w) && t < |w.local|
    ensures |w.lock.pc| == |w.local|
    ensures forall op :: Apply(w, Call(t, op)).To? <==> w.local[t].Away?
    ensures Apply(w, Turn(t)).To? <==>
      w.local[t].Inside? || (!w.local[t].Away? && L.Apply(w.lock, L.Go(t)).To?)
  {
    hide L.LocalStep, Work;
    OpeningGood(init, threads);
    RunKeepsGood(init, Opening(init, threads), moves);
    assert Placed(After(init, w.log), w.m, w.log, t, w.local[t], w.lock.pc[t]);
  }

  // ---- what becomes of one call ----

  /** The only entry of t from place n on is at, and it is for op. */
  ghost predicate AnsweredAt<V>(log: seq<Entry<V>>, t: nat, op: Op<V>, n: nat, at: nat) {
    && n <= at < |log| && log[at].t == t && log[at].op == op
    && forall i :: n <= i < |log| && i != at ==> log[i].t != t
  }

  /** The call of op that t made when the log had n entries is under way, or it has been answered once. */
  ghost predicate Underway<V>(l: Local<V>, log: seq<Entry<V>>, t: nat, op: Op<V>, n: nat) {
    match l
    case Away => exists at :: AnsweredAt(log, t, op, n, at)
    case Asking(o) => o == op && forall i :: n <= i < |log| ==> log[i].t != t
    case Inside(o, _, _) => o == op && forall i :: n <= i < |log| ==> log[i].t != t
    case Leaving(at) => AnsweredAt(log, t, op, n, at)
  }

  lemma StaysUnderway<V>(w: World<V>, mv: Move<V>, t: nat, op: Op<V>, n: nat)
    requires Apply(w, mv).To? && t < |w.local| && n <= |w.log|
    requires Underway(w.local[t], w.log, t, op, n) && (mv.Call? ==> mv.t != t)
    ensures var w' := Apply(w, mv).world;
      t < |w'.local| && n <= |w'.log| && Underway(w'.local[t], w'.log, t, op, n)
  {
    hide L.LocalStep, Work;
    var w' := Apply(w, mv).world;
    if w.local[t].Away? {
      var at :| AnsweredAt(w.log, t, op, n, at);
      assert AnsweredAt(w'.log, t, op, n, at);
    } else if w.local[t].Leaving? {
      assert AnsweredAt(w'.log, t, op, n, w.local[t].at);
    }
  }

  lemma {:induction false} RunStaysUnderway<V>(w: World<V>, moves: seq<Move<V>>, t: nat, op: Op<V>, n: nat)
    requires Run(w, moves).To? && t < |w.local| && n <= |w.log|
    requires Underway(w.local[t], w.log, t, op, n)
    requires forall mv :: mv in moves ==> mv.Call? ==> mv.t != t
    ensures var w' := Run(w, moves).world; t < |w'.local| && Underway(w'.local[t], w'.log, t, op, n)
    decreases |moves|
  {
    hide Apply, Underway;
    if moves != [] {
      assert moves[0] in moves;
      assert forall mv :: mv in moves[1..] ==> mv in moves;
      StaysUnderway(w, moves[0], t, op, n);
      RunStaysUnderway(Apply(w, moves[0]).world, moves[1..], t, op, n);
    }
  }

  /**
   * A call that has come back was logged once since it began, as the operation that was called, and was answered as
   * that operation is on what the log had made of the map before it.
   */
  lemma CallIsAnswered<V>(init: map<int, V>, threads: nat, before: seq<Move<V>>, w: World<V>, t: nat, op: Op<V>,
                          moves: seq<Move<V>>)
    requires Reachable(init, threads, before, w) && Apply(w, Call(t, op)).To?
    requires var begun := Apply(w, Call(t, op)).world; Run(begun, moves).To?
    requires forall mv :: mv in moves ==> mv.Call? ==> mv.t != t
    ensures var w' := Run(Apply(w, Call(t, op)).world, moves).world;
      && t < |w'.local|
      && (w'.local[t].Away? ==> exists at: nat ::
            AnsweredAt(w'.log, t, op, |w.log|, at) && w'.log[at].res == Answer(op, After(init, w'.log[..at])))
  {
    hide Good, After, Answer, Explained, L.LocalStep;
    var begun := Apply(w, Call(t, op)).world;
    OpeningGood(init, threads);
    RunKeepsGood(init, Opening(init, threads), before);
    MoveKeepsGood(init, w, Call(t, op));
    RunKeepsGood(init, begun, moves);
    RunStaysUnderway(begun, moves, t, op, |w.log|);
    var w' := Run(begun, moves).world;
    ExplainedInGood(init, w');
    if w'.local[t].Away? {
      var at :| AnsweredAt(w'.log, t, op, |w.log|, at);
      ExplainedAt(init, w'.log, at);
    }
  }

  lemma ExplainedInGood<V>(init: map<int, V>, w: World<V>)
    requires Good(init, w)
    ensures Explained(init, w.log)
  {
  }

  lemma ExplainedAt<V>(init: map<int, V>, log: seq<Entry<V>>, at: nat)
    requires Explained(init, log) && at < |log|
    ensures log[at].res == Answer(log[at].op, After(init, log[..at]))
  {
  }

  // ---- the log respects the order of calls in time ----

  lemma {:induction false} LoggedSince<V>(w: World<V>, moves: seq<Move<V>>, t: nat, n: nat)
    requires Run(w, moves).To? && n <= |w.log|
    requires t < |w.local| && (w.local[t].Leaving? ==> n <= w.local[t].at)
    ensures var w' := Run(w, moves).world;
      t < |w'.local| && n <= |w'.log| && (w'.local[t].Leaving? ==> n <= w'.local[t].at)
    decreases |moves|
  {
    if moves != [] {
      LoggedSince(Apply(w, moves[0]).world, moves[1..], t, n);
    }
  }

  /** An operation that is over before another one is done stands before it in the log. */
  lemma RealTimeOrder<V>(init: map<int, V>, threads: nat, before: seq<Move<V>>, moves: seq<Move<V>>,
                         w: World<V>, u: nat, t: nat)
    requires Reachable(init, threads, before, w)
    requires u < |w.local| && w.local[u].Leaving?
    requires t < |w.local| && !w.local[t].Leaving?
    requires Run(w, moves).To?
    ensures var w' := Run(w, moves).world;
      t < |w'.local| && (w'.local[t].Leaving? ==> w.local[u].at < w'.local[t].at)
  {
    OpeningGood(init, threads);
    RunKeepsGood(init, Opening(init, threads), before);
    assert Placed(After(init, w.log), w.m, w.log, u, w.local[u], w.lock.pc[u]);
    LoggedSince(w, moves, t, |w.log|);
  }

  // ---- every call gets done ----

  predicate AllAway<V>(w: World<V>) {
    forall i :: 0 <= i < |w.local| ==> w.local[i].Away?
  }

  /** No deadlock of lock and sections together: while a call is under way some thread can take its next step. */
  lemma NoDeadlock<V>(init: map<int, V>, w: World<V>) returns (t: nat)
    requires Good(init, w) && !AllAway(w)
    ensures Apply(w, Turn(t)).To?
  {
    if i :| 0 <= i < |w.local| && w.local[i].Inside? {
      t := i;
    } else {
      var j :| 0 <= j < |w.local| && !w.local[j].Away?;
      assert Placed(After(init, w.log), w.m, w.log, j, w.local[j], w.lock.pc[j]);
      t := L.NoDeadlock(w.lock);
      assert Placed(After(init, w.log), w.m, w.log, t, w.local[t], w.lock.pc[t]);
    }
  }

  /** What a thread has still to do in its section, if no container has more than cap entries. */
  ghost function Toil<V>(cap: nat, l: Local<V>): nat {
    match l
    case Away => 0
    case Asking(_) => cap + 5
    case Inside(_, start, stage) => StepsLeft(start, stage)
    case Leaving(_) => 0
  }

  /** Whether the thread may still add an entry: only the first access of a section does. */
  ghost function MayGrow<V>(l: Local<V>): nat {
    if l.Asking? || (l.Inside? && l.stage.Start?) then 1 else 0
  }

  ghost function ToilUpTo<V>(cap: nat): Local<V> -> nat {
    (l: Local<V>) => Toil(cap, l)
  }

  ghost function Growing<V>(): Local<V> -> nat {
    (l: Local<V>) => MayGrow(l)
  }

  /** How many steps are left at most. */
  ghost function Remaining<V>(cap: nat, w: World<V>): nat {
    L.Remaining(w.lock.pc) + Sum(w.local, ToilUpTo(cap))
  }

  /** The container cannot grow beyond cap. */
  ghost predicate Capped<V>(cap: nat, w: World<V>) {
    |w.m| + Sum(w.local, Growing()) <= cap
  }

  lemma VisitGrowsNothing<V>(op: Op<V>, it: Option<int>, n: nat, m: map<int, V>)
    ensures var next := Work(op, At(it, n), m); |next.0| <= |m| && !next.1.Start?
  {
    if Sweeps(op) && it.Some? && it.value in m {
      SameSize(m, it.value, Pass(op)(it.value, m[it.value]).value);
      Smaller(m, it.value);
      hide Pass, Next;
    }
  }

  lemma InsertGrowsByOne<V>(m: map<int, V>, k: int, v: V)
    ensures |m[k := v]| <= |m| + 1
  {
    assert m[k := v].Keys == m.Keys + {k};
    assert |m[k := v].Keys| == |m[k := v]| && |m.Keys| == |m|;
  }

  lemma WorkGrows<V>(op: Op<V>, stage: Stage<V>, m: map<int, V>)
    ensures var next := Work(op, stage, m);
      |next.0| <= |m| + (if stage.Start? && !next.1.Start? then 1 else 0) && (next.1.Start? ==> stage.Start?)
  {
    match stage
    case Start => if op.Replace? { InsertGrowsByOne(m, op.k, op.v); }
    case Inserted(isNew) => if op.Replace? && op.k in m { SameSize(m, op.k, op.v); }
    case Looked =>
      if op.Erase? && op.k in m && op.judge.Some? { SameSize(m, op.k, op.judge.value(op.k, m[op.k]).1); }
    case Judged(_) => if op.Erase? { Smaller(m, op.k); }
    case At(it, n) => VisitGrowsNothing(op, it, n, m);
    case Done(_) =>
  }

  lemma SameSize<V>(m: map<int, V>, k: int, v: V)
    requires k in m
    ensures |m[k := v]| == |m|
  {
    assert m[k := v].Keys == m.Keys;
    assert |m[k := v].Keys| == |m[k := v]| && |m.Keys| == |m|;
  }

  lemma Smaller<V>(m: map<int, V>, k: int)
    ensures |m - {k}| <= |m|
  {
    assert (m - {k}).Keys == m.Keys - {k};
    assert |(m - {k}).Keys| == |m - {k}| && |m.Keys| == |m|;
    if k in m.Keys { assert |m.Keys - {k}| == |m.Keys| - 1; } else { assert m.Keys - {k} == m.Keys; }
  }

  lemma GrowthOf<V>(w: World<V>, t: nat)
    requires t < |w.local|
    ensures MayGrow(w.local[t]) <= Sum(w.local, Growing())
  {
    SumMove(w.local, Growing(), t, Away);
  }

  lemma LockTurnShrinks<V>(init: map<int, V>, w: World<V>, t: nat, cap: nat)
    requires Good(init, w) && Capped(cap, w) && Apply(w, Turn(t)).To? && !w.local[t].Inside?
    ensures var w' := Apply(w, Turn(t)).world; Capped(cap, w') && Remaining(cap, w') < Remaining(cap, w)
  {
    hide L.Inv, Good, Placed, L.LocalStep, L.Remaining, Sum, Work, Halfway, After, Explained;
    var w' := Apply(w, Turn(t)).world;
    L.GoShrinks(w.lock, t);
    assert w'.local == w.local[t := w'.local[t]];
    SumMove(w.local, ToilUpTo(cap), t, w'.local[t]);
    SumMove(w.local, Growing(), t, w'.local[t]);
  }

  lemma WorkTurnShrinks<V>(init: map<int, V>, w: World<V>, t: nat, cap: nat)
    requires Good(init, w) && Capped(cap, w) && t < |w.local| && w.local[t].Inside?
    ensures var w' := TurnOf(w, t).world; Capped(cap, w') && Remaining(cap, w') < Remaining(cap, w)
  {
    hide L.Inv, L.Remaining, Sum, Work, After, Explained;
    var w' := TurnOf(w, t).world;
    var Inside(op, start, stage) := w.local[t];
    assert Placed(After(init, w.log), w.m, w.log, t, w.local[t], w.lock.pc[t]);
    SectionEnds(op, start, stage, w.m);
    WorkGrows(op, stage, w.m);
    SumMove(w.local, ToilUpTo(cap), t, w'.local[t]);
    SumMove(w.local, Growing(), t, w'.local[t]);
  }

  /** Once no new call begins, every schedule of locks and sections together is bounded ... */
  lemma {:induction false} QuietRunsEnd<V>(init: map<int, V>, w: World<V>, moves: seq<Move<V>>, cap: nat)
    requires Good(init, w) && Capped(cap, w) && Run(w, moves).To?
    requires forall mv :: mv in moves ==> mv.Turn?
    ensures |moves| <= Remaining(cap, w) - Remaining(cap, Run(w, moves).world)
    decreases |moves|
  {
    if moves != [] {
      assert moves[0] in moves;
      assert forall mv :: mv in moves[1..] ==> mv in moves;
      var t := moves[0].t;
      if w.local[t].Inside? { WorkTurnShrinks(init, w, t, cap); } else { LockTurnShrinks(init, w, t, cap); }
      MoveKeepsGood(init, w, moves[0]);
      QuietRunsEnd(init, Apply(w, moves[0]).world, moves[1..], cap);
    }
  }

  lemma {:induction false} GrowthByThreads<V>(local: seq<Local<V>>)
    ensures Sum(local, Growing()) <= |local|
  {
    if local != [] { GrowthByThreads(local[1..]); }
  }

  lemma StuckIsAnswered<V>(init: map<int, V>, w: World<V>)
    requires Good(init, w) && forall t: nat :: Apply(w, Turn(t)).Blocked?
    ensures AllAway(w) && w.m == After(init, w.log)
  {
    if !AllAway(w) {
      var t := NoDeadlock(init, w);
    } else {
      assert !WriterInside(w);
    }
  }

  /**
   * ... by a number known beforehand, and it can stop only with all calls answered and the container as the log leaves
   * it.
   */
  lemma QuietRunsEndAnswered<V>(init: map<int, V>, threads: nat, before: seq<Move<V>>, moves: seq<Move<V>>, w: World<V>)
    requires Reachable(init, threads, before, w) && Run(w, moves).To?
    requires forall mv :: mv in moves ==> mv.Turn?
    ensures |moves| <= Remaining(|w.m| + |w.local|, w)
    ensures var w' := Run(w, moves).world;
      (forall t: nat :: Apply(w', Turn(t)).Blocked?) ==> AllAway(w') && w'.m == After(init, w'.log)
  {
    hide Good, Sum, L.Remaining, Apply, After;
    OpeningGood(init, threads);
    RunKeepsGood(init, Opening(init, threads), before);
    GrowthByThreads(w.local);
    QuietRunsEnd(init, w, moves, |w.m| + |w.local|);
    RunKeepsGood(init, w, moves);
    var w' := Run(w, moves).world;
    if forall t: nat :: Apply(w', Turn(t)).Blocked? { StuckIsAnswered(init, w'); }
  }
}
