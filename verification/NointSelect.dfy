/**
 * select with a timeout that survives interrupts.  What select answers in each round and what the clock says are
 * given from outside, round by round: clock(0) is read before the loop, clock(k) after the k-th interrupt.
 */
module NointSelectModel {
  import opened OrderedKeys
  import opened TimevalModel

  /** The three descriptor sets; None is a null pointer. */
  datatype Fds = Fds(read: Option<set<int>>, write: Option<set<int>>, except: Option<set<int>>)

  datatype Answer = Answered(n: nat, sets: Fds) | Interrupted(sets: Fds) | Failed(sets: Fds)

  /** What one call of select is given. */
  datatype Round = Round(sets: Fds, timeout: Option<Timeval>)

  function Code(a: Answer): int {
    if a.Answered? then a.n else -1
  }

  /** A null set goes to select as an empty one. */
  function Fresh(s: Option<set<int>>): Option<set<int>> {
    if s.Some? then s else Some({})
  }

  function Temporaries(f: Fds): Fds {
    Fds(Fresh(f.read), Fresh(f.write), Fresh(f.except))
  }

  function CopiedBack(f: Fds, tmp: Fds): Fds {
    Fds(if f.read.Some? then tmp.read else None, if f.write.Some? then tmp.write else None,
        if f.except.Some? then tmp.except else None)
  }

  predicate Timed(timeout: Option<Timeval>) {
    timeout.Some? && (timeout.value.sec != 0 || timeout.value.usec != 0)
  }

  /** Times are kept in 64 bits: what is added, subtracted and scaled here stays far below. */
  const LIMIT := 0x400_0000_0000

  /** A time of day. */
  predicate Reading(tv: Timeval) {
    0 <= tv.sec < LIMIT && 0 <= tv.usec < MILLION
  }

  predicate NotNegative(tv: Timeval) {
    0 <= tv.sec < LIMIT && 0 <= tv.usec < LIMIT
  }

  /** select refuses a negative timeout at once; it does not wait and so is not interrupted. */
  predicate Honest(timeout: Option<Timeval>, answers: nat -> Answer) {
    timeout.Some? && !NotNegative(timeout.value) ==> !answers(0).Interrupted?
  }

  /** Round k is the last: an answer other than an interrupt, or an interrupt found past the stop time. */
  predicate Last(timeout: Option<Timeval>, answers: nat -> Answer, clock: nat -> Timeval, k: nat) {
    !answers(k).Interrupted?
    || (Timed(timeout) && TimevalGreater(clock(k + 1), Sum(clock(0), timeout.value)))
  }

  /** A timeout in normal form that waits from now until the stop time. */
  predicate Retry(timeout: Option<Timeval>, now: Timeval, stop: int) {
    && timeout.Some?
    && timeout.value.sec >= 0 && 0 <= timeout.value.usec < MILLION
    && Total(now) + Total(timeout.value) == stop
  }

  lemma StopInRange(start: Timeval, timeout: Timeval)
    requires Reading(start) && NotNegative(timeout)
    ensures 0 <= Sum(start, timeout).sec < 2 * LIMIT + 1 && 0 <= Sum(start, timeout).usec < 2 * LIMIT
  {
  }

  /** The time left, computed in unsigned 64-bit steps. */
  method TimeLeft(stop: Timeval, now: Timeval) returns (left: Timeval)
    requires Reading(now) && stop.sec < 2 * LIMIT + 1 && 0 <= stop.usec < 2 * LIMIT
    requires !TimevalGreater(now, stop)
    ensures left.sec >= 0 && 0 <= left.usec < MILLION
    ensures Total(now) + Total(left) == Total(stop)
  {
    var usecLeft := Unsigned((stop.sec - now.sec) * MILLION);
    usecLeft := Unsigned(usecLeft + Unsigned(stop.usec - now.usec));
    WrapsBack((stop.sec - now.sec) * MILLION, stop.usec - now.usec);
    left := Timeval(usecLeft / MILLION, usecLeft % MILLION);
  }

  /** A negative term wraps around and back again, if the sum is in range. */
  lemma WrapsBack(x: int, y: int)
    requires 0 <= x + y < TWO_64
    ensures Unsigned(Unsigned(x) + Unsigned(y)) == x + y
  {
    var a, b := x / TWO_64, y / TWO_64;
    assert Unsigned(x) + Unsigned(y) == x + y - (a + b) * TWO_64;
    ModMultiple(x + y, a + b);
  }

  lemma ModMultiple(x: int, k: int)
    requires 0 <= x < TWO_64
    ensures (x - k * TWO_64) % TWO_64 == x
  {
    var m := x - k * TWO_64;
    assert m == (m / TWO_64) * TWO_64 + m % TWO_64;
  }

  /** Every round so far looks at the caller's descriptors; the first has the caller's timeout, and so has every other
      one of an untimed call, while a timed call waits until the stop time. */
  ghost predicate Proper(fds: Fds, timeout: Option<Timeval>, clock: nat -> Timeval, rounds: seq<Round>, stop: int) {
    && (forall k :: 0 <= k < |rounds| ==> rounds[k].sets == Temporaries(fds))
    && (|rounds| > 0 ==> rounds[0].timeout == timeout)
    && (!Timed(timeout) ==> forall k :: 0 <= k < |rounds| ==> rounds[k].timeout == timeout)
    && (Timed(timeout) ==> forall k :: 1 <= k < |rounds| ==> Retry(rounds[k].timeout, clock(k), stop))
  }

  /** The timeout that the next round is to have. */
  predicate Due(timeout: Option<Timeval>, clock: nat -> Timeval, n: nat, stop: int, next: Option<Timeval>) {
    if n == 0 || !Timed(timeout) then next == timeout else Retry(next, clock(n), stop)
  }

  lemma OneMoreRound(fds: Fds, timeout: Option<Timeval>, clock: nat -> Timeval, rounds: seq<Round>, stop: int,
                     next: Option<Timeval>)
    requires Proper(fds, timeout, clock, rounds, stop) && Due(timeout, clock, |rounds|, stop, next)
    ensures Proper(fds, timeout, clock, rounds + [Round(Temporaries(fds), next)], stop)
  {
  }

  /** What follows the answer of round k: whether the call is done, and the timeout of the next round if it is not. */
  method AfterAnswer(timeout: Option<Timeval>, answers: nat -> Answer, clock: nat -> Timeval, k: nat, stop: Timeval,
                     timeout2: Option<Timeval>, ghost total: int)
      returns (done: bool, next: Option<Timeval>)
    requires Honest(timeout, answers) && (k > 0 ==> answers(0).Interrupted?)
    requires Reading(clock(0)) && Reading(clock(k + 1))
    requires Timed(timeout) ==> stop == Sum(clock(0), timeout.value) && Total(stop) == total
    requires Due(timeout, clock, k, total, timeout2)
    ensures done <==> Last(timeout, answers, clock, k)
    ensures !done ==> Due(timeout, clock, k + 1, total, next)
  {
    done, next := false, timeout2;
    var answer := answers(k);
    if answer.Answered? {
      done := true;
    } else if !answer.Interrupted? {
      done := true;
    } else if Timed(timeout) {
      var now := clock(k + 1);
      StopInRange(clock(0), timeout.value);
      if TimevalGreater(now, stop) {
        done := true;
      } else {
        hide Sum, Total, TimevalGreater;
        var left := TimeLeft(stop, now);
        next := Some(left);
      }
    }
  }

  lemma EarlierRounds(timeout: Option<Timeval>, answers: nat -> Answer, clock: nat -> Timeval, n: nat)
    requires forall k: nat :: k + 1 < n ==> !Last(timeout, answers, clock, k)
    ensures forall k: nat :: k + 1 < n ==> answers(k).Interrupted?
    ensures timeout.Some? && timeout.value != Timeval(0, 0) ==>
      forall k :: 1 <= k < n ==> !TimevalGreater(clock(k), Sum(clock(0), timeout.value))
  {
    hide TimevalGreater, Sum;
    forall k: nat | k + 1 < n ensures answers(k).Interrupted? { assert !Last(timeout, answers, clock, k); }
    if timeout.Some? && timeout.value != Timeval(0, 0) {
      forall k | 1 <= k < n ensures !TimevalGreater(clock(k), Sum(clock(0), timeout.value)) {
        assert !Last(timeout, answers, clock, k - 1);
      }
    }
  }

  /** What the rounds of a proper call look like from outside. */
  lemma ProperMeans(fds: Fds, timeout: Option<Timeval>, clock: nat -> Timeval, rounds: seq<Round>, stop: int)
    requires Proper(fds, timeout, clock, rounds, stop) && |rounds| > 0
    ensures forall k :: 0 <= k < |rounds| ==>
      && rounds[k].sets.read == Some(if fds.read.Some? then fds.read.value else {})
      && rounds[k].sets.write == Some(if fds.write.Some? then fds.write.value else {})
      && rounds[k].sets.except == Some(if fds.except.Some? then fds.except.value else {})
    ensures rounds[0].timeout == timeout
    ensures timeout.None? || timeout.value == Timeval(0, 0) ==>
      forall k :: 0 <= k < |rounds| ==> rounds[k].timeout == timeout
    ensures timeout.Some? && timeout.value != Timeval(0, 0) ==> forall k :: 1 <= k < |rounds| ==>
      && rounds[k].timeout.Some?
      && rounds[k].timeout.value.sec >= 0 && 0 <= rounds[k].timeout.value.usec < MILLION
      && Total(clock(k)) + Total(rounds[k].timeout.value) == stop
  {
    hide Total;
  }

  /**
   * The loop.  Of the last round it says which it is and that its answer is returned; of every earlier round that it
   * was interrupted before the stop time; of every retry that it waits exactly until the stop time, and that it
   * looks at the caller's own descriptors again.
   */
  method NointSelect(fds: Fds, timeout: Option<Timeval>, answers: nat -> Answer, clock: nat -> Timeval)
      returns (ret: int, back: Fds, rounds: seq<Round>)
    requires Honest(timeout, answers)
    requires forall k :: Reading(clock(k))
    requires exists k: nat :: Last(timeout, answers, clock, k)
    // which round is the last
    ensures |rounds| > 0
    ensures forall k :: 0 <= k < |rounds| - 1 ==> answers(k).Interrupted?
    ensures timeout.Some? && timeout.value != Timeval(0, 0) ==>
      forall k :: 1 <= k < |rounds| ==> !TimevalGreater(clock(k), Sum(clock(0), timeout.value))
    ensures answers(|rounds| - 1).Interrupted? ==>
      && timeout.Some? && timeout.value != Timeval(0, 0)
      && TimevalGreater(clock(|rounds|), Sum(clock(0), timeout.value))
    // what is returned
    ensures var last := answers(|rounds| - 1);
      && ret == (if last.Answered? then last.n else -1)
      && back.read == (if fds.read.Some? then last.sets.read else None)
      && back.write == (if fds.write.Some? then last.sets.write else None)
      && back.except == (if fds.except.Some? then last.sets.except else None)
    // what select is given
    ensures forall k :: 0 <= k < |rounds| ==>
      && rounds[k].sets.read == Some(if fds.read.Some? then fds.read.value else {})
      && rounds[k].sets.write == Some(if fds.write.Some? then fds.write.value else {})
      && rounds[k].sets.except == Some(if fds.except.Some? then fds.except.value else {})
    ensures rounds[0].timeout == timeout
    ensures timeout.None? || timeout.value == Timeval(0, 0) ==>
      forall k :: 0 <= k < |rounds| ==> rounds[k].timeout == timeout
    ensures timeout.Some? && timeout.value != Timeval(0, 0) ==> forall k :: 1 <= k < |rounds| ==>
      && rounds[k].timeout.Some?
      && rounds[k].timeout.value.sec >= 0 && 0 <= rounds[k].timeout.value.usec < MILLION
      && Total(clock(k)) + Total(rounds[k].timeout.value) == Total(clock(0)) + Total(timeout.value)
    // what that means for the caller
    ensures timeout.Some? && timeout.value != Timeval(0, 0) ==>
      forall k :: 1 <= k < |rounds| && Total(clock(0)) <= Total(clock(k)) ==>
        rounds[k].timeout.Some? && Total(rounds[k].timeout.value) <= Total(timeout.value)
    ensures timeout.Some? && timeout.value != Timeval(0, 0) && NotNegative(timeout.value)
            && Progresses(timeout, answers, clock) ==>
      |rounds| <= Total(timeout.value) + 1
  {
    var stop := Timeval(0, 0);
    var timeout2 := timeout;
    if Timed(timeout) {
      stop := TimevalSum(clock(0), timeout.value);
      CarryIsExact(clock(0).sec + timeout.value.sec, clock(0).usec + timeout.value.usec);
    }
    hide Sum, Total, TimevalGreater, Progresses, NotNegative;
    ghost var end: nat :| Last(timeout, answers, clock, end);
    ghost var total := if Timed(timeout) then Total(clock(0)) + Total(timeout.value) else 0;
    rounds := [];
    assert Proper(fds, timeout, clock, rounds, total) && Due(timeout, clock, 0, total, timeout2);
    hide Proper, Due, Temporaries;
    var done := false;
    ret := 0;
    back := fds;
    while !done
      invariant Timed(timeout) ==> stop == Sum(clock(0), timeout.value) && Total(stop) == total
      invariant done ==> |rounds| > 0 && Last(timeout, answers, clock, |rounds| - 1)
      invariant done ==> ret == Code(answers(|rounds| - 1)) && back == CopiedBack(fds, answers(|rounds| - 1).sets)
      invariant forall k :: 0 <= k < |rounds| - (if done then 1 else 0) ==> !Last(timeout, answers, clock, k)
      invariant Proper(fds, timeout, clock, rounds, total)
      invariant !done ==> Due(timeout, clock, |rounds|, total, timeout2)
      decreases end - |rounds|, !done
    {
      hide Code, CopiedBack;
      var k := |rounds|;
      var tmp := Temporaries(fds);
      OneMoreRound(fds, timeout, clock, rounds, total, timeout2);
      rounds := rounds + [Round(tmp, timeout2)];
      assert k > 0 ==> !Last(timeout, answers, clock, 0);
      done, timeout2 := AfterAnswer(timeout, answers, clock, k, stop, timeout2, total);
      ret := Code(answers(k));
      back := CopiedBack(fds, answers(k).sets);
    }
    RoundsBounded(timeout, answers, clock, |rounds| - 1);
    EarlierRounds(timeout, answers, clock, |rounds|);
    ProperMeans(fds, timeout, clock, rounds, total);
  }

  // ---- what that means for the caller ----

  /** The clock has moved on between two readings. */
  predicate Advances(clock: nat -> Timeval, k: nat) {
    Total(clock(k)) < Total(clock(k + 1))
  }

  /** While the call goes on, every interrupt finds the clock further on than the one before. */
  ghost predicate Progresses(timeout: Option<Timeval>, answers: nat -> Answer, clock: nat -> Timeval) {
    forall k: nat :: !Last(timeout, answers, clock, k) ==> Advances(clock, k)
  }

  lemma NotPast(now: Timeval, stop: Timeval)
    requires 0 <= now.usec < MILLION && 0 <= stop.usec && !TimevalGreater(now, stop)
    ensures Total(now) <= Total(stop)
  {
  }

  /** As long as no round is the last, the clock gains a microsecond a round and is not past the stop time. */
  lemma {:induction false} ClockGains(timeout: Option<Timeval>, answers: nat -> Answer, clock: nat -> Timeval, n: nat)
    requires Timed(timeout) && NotNegative(timeout.value) && Progresses(timeout, answers, clock)
    requires forall k: nat :: Reading(clock(k))
    requires forall k: nat :: k < n ==> !Last(timeout, answers, clock, k)
    ensures Total(clock(0)) + n <= Total(clock(n))
    ensures n <= Total(timeout.value)
  {
    NotBefore(timeout.value);
    if n > 0 {
      ClockGains(timeout, answers, clock, n - 1);
      assert !Last(timeout, answers, clock, n - 1) && Advances(clock, n - 1);
      StopInRange(clock(0), timeout.value);
      CarryIsExact(clock(0).sec + timeout.value.sec, clock(0).usec + timeout.value.usec);
      NotPast(clock(n), Sum(clock(0), timeout.value));
      hide Last, Progresses, Sum, TimevalGreater, Total;
    }
  }

  lemma RoundsBounded(timeout: Option<Timeval>, answers: nat -> Answer, clock: nat -> Timeval, n: nat)
    requires forall k: nat :: Reading(clock(k))
    requires forall k: nat :: k < n ==> !Last(timeout, answers, clock, k)
    ensures Timed(timeout) && NotNegative(timeout.value) && Progresses(timeout, answers, clock) ==>
      n <= Total(timeout.value)
  {
    if Timed(timeout) && NotNegative(timeout.value) && Progresses(timeout, answers, clock) {
      ClockGains(timeout, answers, clock, n);
    }
  }

  lemma NotBefore(tv: Timeval)
    requires tv.sec >= 0 && tv.usec >= 0
    ensures Total(tv) >= 0
  {
  }

  /**
   * A timed call whose interrupts find the clock further on ends, within as many rounds as the timeout has
   * microseconds.
   */
  lemma AdvancingClockEnds(timeout: Timeval, answers: nat -> Answer, clock: nat -> Timeval)
    requires timeout != Timeval(0, 0) && NotNegative(timeout)
    requires forall k: nat :: Reading(clock(k))
    requires forall k: nat ::
      answers(k).Interrupted? && !TimevalGreater(clock(k + 1), Sum(clock(0), timeout)) ==> Advances(clock, k)
    ensures exists k: nat ::
      k <= Total(timeout) && (!answers(k).Interrupted? || TimevalGreater(clock(k + 1), Sum(clock(0), timeout)))
    ensures exists k: nat :: Last(Some(timeout), answers, clock, k)
  {
    NotBefore(timeout);
    var n: nat := Total(timeout) + 1;
    assert Progresses(Some(timeout), answers, clock);
    if forall k: nat :: k < n ==> !Last(Some(timeout), answers, clock, k) {
      ClockGains(Some(timeout), answers, clock, n);
    } else {
      var k: nat :| k < n && Last(Some(timeout), answers, clock, k);
    }
  }

  /** A clock that ticks once a round until it has passed the time us. */
  function Ticking(us: nat): nat -> Timeval {
    (k: nat) => OfTotal(if k <= us then k else us + 1)
  }

  function Interrupting(): nat -> Answer {
    (k: nat) => Interrupted(Fds(None, None, None))
  }

  /** There are such clocks, even under endless interrupts. */
  lemma TickingClockProgresses(timeout: Timeval)
    requires Timed(Some(timeout)) && NotNegative(timeout) && timeout.sec < LIMIT - 1 && timeout.usec < MILLION
    ensures Total(timeout) >= 0
    ensures var clock := Ticking(Total(timeout));
      && (forall k: nat :: Reading(clock(k)))
      && Progresses(Some(timeout), Interrupting(), clock) && !Last(Some(timeout), Interrupting(), clock, 0)
  {
    NotBefore(timeout);
    var us: nat := Total(timeout);
    var clock := Ticking(us);
    forall k: nat ensures Reading(clock(k)) { TickIsReading(timeout, if k <= us then k else us + 1); }
    forall k: nat | !Last(Some(timeout), Interrupting(), clock, k) ensures Advances(clock, k) {
      TickIsLast(timeout, k);
      hide OfTotal, Last;
      assert k < us && clock(k) == OfTotal(k) && clock(k + 1) == OfTotal(k + 1);
    }
    TickIsLast(timeout, 0);
  }

  /** Under that clock the rounds before the stop time are not the last. */
  lemma TickIsLast(timeout: Timeval, k: nat)
    requires Timed(Some(timeout)) && NotNegative(timeout) && timeout.sec < LIMIT - 1 && timeout.usec < MILLION
    requires Total(timeout) >= 0
    ensures Last(Some(timeout), Interrupting(), Ticking(Total(timeout)), k) <==> k >= Total(timeout)
  {
    var us: nat := Total(timeout);
    var start, now := Ticking(us)(0), Ticking(us)(k + 1);
    TickIsReading(timeout, 0);
    TickIsReading(timeout, if k + 1 <= us then k + 1 else us + 1);
    NormalStopIsJudgedRight(timeout, start, now);
    hide OfTotal, Sum, TimevalGreater, Total;
    assert JudgedRight(timeout, start, now);
  }

  lemma TickIsReading(timeout: Timeval, us: nat)
    requires NotNegative(timeout) && timeout.sec < LIMIT - 1 && timeout.usec < MILLION && us <= Total(timeout) + 1
    ensures Reading(OfTotal(us))
  {
  }

  /** Without a timeout an endless series of interrupts is never left. */
  lemma UntimedNeedsAnAnswer(timeout: Option<Timeval>, answers: nat -> Answer, clock: nat -> Timeval)
    requires !Timed(timeout)
    ensures (exists k: nat :: Last(timeout, answers, clock, k)) <==> exists k: nat :: !answers(k).Interrupted?
  {
    if k: nat :| Last(timeout, answers, clock, k) { assert !answers(k).Interrupted?; }
    if k: nat :| !answers(k).Interrupted? { assert Last(timeout, answers, clock, k); }
  }

  /** The call gives up at this reading of the clock, and rightly so. */
  predicate JudgedRight(timeout: Timeval, start: Timeval, now: Timeval) {
    TimevalGreater(now, Sum(start, timeout)) <==> Total(now) > Total(start) + Total(timeout)
  }

  lemma NormalStopIsJudgedRight(timeout: Timeval, start: Timeval, now: Timeval)
    requires NotNegative(timeout) && Reading(start) && Reading(now)
    requires start.usec + timeout.usec < 2 * MILLION
    ensures JudgedRight(timeout, start, now)
  {
    CarryIsExact(start.sec + timeout.sec, start.usec + timeout.usec);
    ComparisonsAgree(now, Sum(start, timeout));
  }

  /**
   * Two seconds' worth of microseconds leave a second uncarried, and a clock between the two is taken for past the
   * stop.
   */
  lemma UncarriedStopIsMisjudged(timeout: Timeval, start: Timeval)
    requires NotNegative(timeout) && Reading(start) && start.sec + timeout.sec + 2 < LIMIT
    requires start.usec + timeout.usec >= 2 * MILLION
    ensures Reading(Timeval(start.sec + timeout.sec + 2, 0))
    ensures !JudgedRight(timeout, start, Timeval(start.sec + timeout.sec + 2, 0))
  {
    CarryIsExact(start.sec + timeout.sec, start.usec + timeout.usec);
  }

  /**
   * Past the stop time is recognised at every start and every later reading exactly for timeouts of at most a million
   * microseconds: beyond that TimevalSum's one carry can be too little and an interrupted call gives up early.
   */
  lemma StopIsExactIff(timeout: Timeval)
    requires NotNegative(timeout) && timeout.sec + 2 < LIMIT
    ensures (forall start, now :: Reading(start) && Reading(now) ==> JudgedRight(timeout, start, now))
        <==> timeout.usec <= MILLION
  {
    if timeout.usec <= MILLION {
      forall start, now | Reading(start) && Reading(now) ensures JudgedRight(timeout, start, now) {
        NormalStopIsJudgedRight(timeout, start, now);
      }
    } else {
      UncarriedStopIsMisjudged(timeout, Timeval(0, MILLION - 1));
    }
  }
}
