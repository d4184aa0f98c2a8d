/** The hand-off of requests from the receiver of a connection to its worker: a
    table keyed by message id and an unbuffered channel of ids. Each atomic action
    is an event, and a schedule is any sequence of events. */
module HandOff {

  datatype Request = Request(id: nat, payload: int)

  /** The receiver stores a request, then blocks until the worker takes its id. */
  datatype Receiver = Idle | Sending(id: nat)

  /** The worker waits for an id, then looks the request up and removes it. */
  datatype Worker = Waiting | Got(id: nat) | Stopped

  datatype State = State(
    next: nat, receiver: Receiver, worker: Worker, table: map<nat, Request>, popped: seq<Request>, missed: nat)

  /** Store: the locked assignment of set. Meet: the rendezvous on the channel.
      Take: the locked lookup of pop. Stop: the worker's context ends while it waits. */
  datatype Event = Store | Meet | Take | Stop

  const Initial := State(0, Idle, Waiting, map[], [], 0)

  /** One event; an event that is not enabled changes nothing. */
  function Step(reqs: seq<Request>, s: State, e: Event): State {
    match e
    case Store =>
      if s.receiver.Idle? && s.next < |reqs|
      then s.(next := s.next + 1, receiver := Sending(reqs[s.next].id), table := s.table[reqs[s.next].id := reqs[s.next]])
      else s
    case Meet =>
      if s.receiver.Sending? && s.worker.Waiting?
      then s.(receiver := Idle, worker := Got(s.receiver.id))
      else s
    case Take =>
      if !s.worker.Got? then s
      else if s.worker.id in s.table
      then s.(worker := Waiting, table := s.table - {s.worker.id}, popped := s.popped + [s.table[s.worker.id]])
      else s.(worker := Waiting, missed := s.missed + 1)
    case Stop =>
      if s.worker.Waiting? then s.(worker := Stopped) else s
  }

  function Run(reqs: seq<Request>, events: seq<Event>): State {
    if events == [] then Initial else Step(reqs, Run(reqs, events[..|events| - 1]), events[|events| - 1])
  }

  predicate NeighboursDiffer(reqs: seq<Request>) {
    forall i :: 0 <= i < |reqs| - 1 ==> reqs[i].id != reqs[i + 1].id
  }

  /** The table that holds exactly these requests. */
  function Holding(rs: seq<Request>): map<nat, Request> {
    if rs == [] then map[] else Holding(rs[..|rs| - 1])[rs[|rs| - 1].id := rs[|rs| - 1]]
  }

  /** The requests taken are the first ones; those on the way are in the table. */
  ghost predicate Inv(reqs: seq<Request>, s: State) {
    && s.missed == 0
    && |s.popped| + (if s.receiver.Sending? then 1 else 0) + (if s.worker.Got? then 1 else 0) == s.next <= |reqs|
    && s.popped == reqs[..|s.popped|]
    && (s.receiver.Sending? ==> s.receiver.id == reqs[s.next - 1].id)
    && (s.worker.Got? ==> s.worker.id == reqs[|s.popped|].id)
    && s.table == Holding(reqs[|s.popped|..s.next])
  }

  lemma {:induction false} HoldingSmall(rs: seq<Request>)
    requires |rs| <= 2
    ensures |rs| == 0 ==> Holding(rs) == map[]
    ensures |rs| == 1 ==> Holding(rs) == map[rs[0].id := rs[0]]
    ensures |rs| == 2 ==> Holding(rs) == map[rs[0].id := rs[0], rs[1].id := rs[1]]
    ensures |Holding(rs)| <= 2
  {
    if rs != [] { HoldingSmall(rs[..|rs| - 1]); }
  }

  lemma {:induction false} StepKeepsInv(reqs: seq<Request>, s: State, e: Event)
    requires NeighboursDiffer(reqs) && Inv(reqs, s)
    ensures Inv(reqs, Step(reqs, s, e))
  {
    hide Holding;
    var d, n := |s.popped|, s.next;
    match e {
      case Store =>
        if s.receiver.Idle? && n < |reqs| { HoldingSnoc(reqs, d, n); }
      case Meet =>
      case Stop =>
      case Take =>
        if s.worker.Got? { HoldingTakesFirst(reqs, d, n); }
    }
  }

  lemma {:induction false} HoldingSnoc(reqs: seq<Request>, d: nat, n: nat)
    requires d <= n < |reqs|
    ensures Holding(reqs[d..n + 1]) == Holding(reqs[d..n])[reqs[n].id := reqs[n]]
  {
    assert reqs[d..n + 1][..n - d] == reqs[d..n];
  }

  lemma {:induction false} HoldingTakesFirst(reqs: seq<Request>, d: nat, n: nat)
    requires d < n <= |reqs| && n <= d + 2 && NeighboursDiffer(reqs)
    ensures var t := Holding(reqs[d..n]);
      reqs[d].id in t && t[reqs[d].id] == reqs[d] && t - {reqs[d].id} == Holding(reqs[d + 1..n])
  {
    hide Holding;
    HoldingSmall(reqs[d..n]);
    HoldingSmall(reqs[d + 1..n]);
  }

  lemma {:induction false} RunKeepsInv(reqs: seq<Request>, events: seq<Event>)
    requires NeighboursDiffer(reqs)
    ensures Inv(reqs, Run(reqs, events))
  {
    if events != [] {
      RunKeepsInv(reqs, events[..|events| - 1]);
      StepKeepsInv(reqs, Run(reqs, events[..|events| - 1]), events[|events| - 1]);
    }
  }

  /** In every interleaving the requests come out in order and none is missed, the
      table holds at most two, and once neither side can move all are out. */
  lemma {:induction false} FifoAndLossless(reqs: seq<Request>, events: seq<Event>)
    requires NeighboursDiffer(reqs)
    ensures var s := Run(reqs, events);
      && s.popped <= reqs && s.missed == 0 && |s.table| <= 2
      && ((forall e: Event :: !e.Stop? ==> Step(reqs, s, e) == s) && !s.worker.Stopped? ==> s.popped == reqs)
  {
    var s := Run(reqs, events);
    RunKeepsInv(reqs, events);
    HoldingSmall(reqs[|s.popped|..s.next]);
    if (forall e: Event :: !e.Stop? ==> Step(reqs, s, e) == s) && !s.worker.Stopped? {
      assert Step(reqs, s, Store) == s && Step(reqs, s, Meet) == s && Step(reqs, s, Take) == s;
      assert !s.worker.Got?;
    }
  }

  // -------------------------------------------------- two equal ids in a row

  function OneByOne(n: nat): seq<Event> {
    if n == 0 then [] else OneByOne(n - 1) + [Store] + [Meet] + [Take]
  }

  lemma {:induction false} RunSnoc(reqs: seq<Request>, events: seq<Event>, e: Event)
    ensures Run(reqs, events + [e]) == Step(reqs, Run(reqs, events), e)
  {
    assert (events + [e])[..|events|] == events;
  }

  lemma {:induction false} RunThree(reqs: seq<Request>, es: seq<Event>, a: Event, b: Event, c: Event)
    ensures Run(reqs, es + [a] + [b] + [c]) == Step(reqs, Step(reqs, Step(reqs, Run(reqs, es), a), b), c)
  {
    hide Run, Step;
    RunSnoc(reqs, es, a); RunSnoc(reqs, es + [a], b); RunSnoc(reqs, es + [a] + [b], c);
  }

  /** Handing over one request at a time never goes wrong. */
  lemma {:induction false} OneByOneRuns(reqs: seq<Request>, n: nat)
    requires n <= |reqs|
    ensures Run(reqs, OneByOne(n)) == State(n, Idle, Waiting, map[], reqs[..n], 0)
  {
    if n > 0 {
      hide Run, Step;
      var es := OneByOne(n - 1);
      OneByOneRuns(reqs, n - 1);
      RunThree(reqs, es, Store, Meet, Take);
      OneRound(reqs, n - 1);
    }
  }

  lemma {:induction false} OneRound(reqs: seq<Request>, n: nat)
    requires n < |reqs|
    ensures var s0 := State(n, Idle, Waiting, map[], reqs[..n], 0);
      Step(reqs, Step(reqs, Step(reqs, s0, Store), Meet), Take) == State(n + 1, Idle, Waiting, map[], reqs[..n + 1], 0)
  {
    assert map[reqs[n].id := reqs[n]] - {reqs[n].id} == map[];
    assert reqs[..n + 1] == reqs[..n] + [reqs[n]];
  }

  function Overtaking(n: nat): seq<Event> {
    OneByOne(n) + [Store] + [Meet] + [Store] + [Take] + [Meet] + [Take]
  }

  /** When the receiver stores a second request with the same id before the worker
      has looked the first one up, the first is lost. */
  lemma {:induction false} EqualNeighboursLoseOne(reqs: seq<Request>, n: nat)
    requires n + 1 < |reqs| && reqs[n].id == reqs[n + 1].id
    ensures var s := Run(reqs, Overtaking(n));
      s.next == n + 2 && s.popped == reqs[..n] + [reqs[n + 1]] && s.missed == 1
  {
    var es, a, b := OneByOne(n), reqs[n], reqs[n + 1];
    OneByOneRuns(reqs, n);
    RunThree(reqs, es, Store, Meet, Store);
    RunThree(reqs, es + [Store] + [Meet] + [Store], Take, Meet, Take);
    hide Run;
    assert map[a.id := a][b.id := b] - {b.id} == map[];
  }

  /** No schedule ever misses a request exactly when neighbouring ids differ. */
  lemma {:induction false} NeverMissesIff(reqs: seq<Request>)
    ensures (forall events :: Run(reqs, events).missed == 0) <==> NeighboursDiffer(reqs)
  {
    if NeighboursDiffer(reqs) {
      forall events ensures Run(reqs, events).missed == 0 { RunKeepsInv(reqs, events); }
    } else {
      var i :| 0 <= i < |reqs| - 1 && reqs[i].id == reqs[i + 1].id;
      EqualNeighboursLoseOne(reqs, i);
      assert Run(reqs, Overtaking(i)).missed == 1;
    }
  }
}
