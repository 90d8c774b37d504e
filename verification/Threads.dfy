/** Sums over the places of any number of threads. */
module Threads {

  function Sum<P>(places: seq<P>, weight: P -> nat): nat {
    if places == [] then 0 else weight(places[0]) + Sum(places[1..], weight)
  }

  lemma {:induction false} SumMove<P>(places: seq<P>, weight: P -> nat, t: nat, p: P)
    requires t < |places|
    ensures Sum(places[t := p], weight) == Sum(places, weight) - weight(places[t]) + weight(p)
  {
    if t == 0 {
      assert places[t := p][1..] == places[1..];
    } else {
      assert places[t := p][1..] == places[1..][t - 1 := p];
      SumMove(places[1..], weight, t - 1, p);
    }
  }
}
