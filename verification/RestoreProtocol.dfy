/** The parallel restore as a protocol of small steps. */
module RestoreProtocol {
  import opened Common

  datatype FetchError = Unavailable(hash: Hash) | Corrupted(hash: Hash, got: Hash)

  type Fetched = Result<Bytes, FetchError>

  /** A worker waits for a job, holds one, offers its result, or is gone. */
  datatype Worker = Idle | Holding(h: Hash) | Sending(h: Hash, r: Fetched) | Exited

  datatype Collector = Receiving | Handling(h: Hash, r: Fetched) | Finished

  datatype Config = Config(unique: seq<Hash>, fetch: Hash -> Fetched, parallel: nat)

  datatype Sys = Sys(
    fed: nat,
    jobsClosed: bool,
    workers: seq<Worker>,
    resultsClosed: bool,
    cancelled: bool,
    collector: Collector,
    fetched: map<Hash, Bytes>,
    verified: nat,
    firstErr: Option<FetchError>)

  /**
   * A feeder, workers, a closer and a collector meet over two unbuffered channels and share a cancel flag.
   * Every interleaving of theirs is a sequence of these actions.
   */
  datatype Action =
    | Feed(w: nat)           // the feeder hands the next job to an idle worker
    | FeederStop             // the feeder sees the cancellation and closes jobs
    | FeederEnd              // the feeder has fed everything and closes jobs
    | Quit(w: nat)           // an idle worker sees the cancellation
    | Drained(w: nat)        // an idle worker sees that jobs is closed
    | Get(w: nat)            // a worker fetches and verifies its chunk
    | Deliver(w: nat)        // a worker hands its result to the collector
    | Abandon(w: nat)        // a worker drops its result on cancellation
    | CloseResults           // all workers are gone
    | Collect                // the collector records a result, cancelling on the first error
    | CollectorEnd           // the collector sees that results is closed

  ghost predicate ValidConfig(c: Config) {
    && c.parallel >= 1
    && Distinct(c.unique)
  }

  function Init(c: Config): Sys {
    Sys(0, false, seq(c.parallel, i => Idle), false, false, Receiving, map[], 0, None)
  }

  predicate Enabled(c: Config, s: Sys, a: Action) {
    match a
    case Feed(w) => w < |s.workers| && s.workers[w].Idle? && !s.jobsClosed && s.fed < |c.unique|
    case FeederStop => s.cancelled && !s.jobsClosed
    case FeederEnd => s.fed == |c.unique| && !s.jobsClosed
    case Quit(w) => w < |s.workers| && s.workers[w].Idle? && s.cancelled
    case Drained(w) => w < |s.workers| && s.workers[w].Idle? && s.jobsClosed
    case Get(w) => w < |s.workers| && s.workers[w].Holding?
    case Deliver(w) => w < |s.workers| && s.workers[w].Sending? && s.collector.Receiving? && !s.resultsClosed
    case Abandon(w) => w < |s.workers| && s.workers[w].Sending? && s.cancelled
    case CloseResults => (forall w :: 0 <= w < |s.workers| ==> s.workers[w].Exited?) && !s.resultsClosed
    case Collect => s.collector.Handling?
    case CollectorEnd => s.collector.Receiving? && s.resultsClosed
  }

  function Next(c: Config, s: Sys, a: Action): Sys
    requires Enabled(c, s, a)
  {
    match a
    case Feed(w) => s.(workers := s.workers[w := Holding(c.unique[s.fed])], fed := s.fed + 1)
    case FeederStop => s.(jobsClosed := true)
    case FeederEnd => s.(jobsClosed := true)
    case Quit(w) => s.(workers := s.workers[w := Exited])
    case Drained(w) => s.(workers := s.workers[w := Exited])
    case Get(w) => var h := s.workers[w].h; s.(workers := s.workers[w := Sending(h, c.fetch(h))])
    case Deliver(w) => s.(workers := s.workers[w := Idle], collector := Handling(s.workers[w].h, s.workers[w].r))
    case Abandon(w) => s.(workers := s.workers[w := Exited])
    case CloseResults => s.(resultsClosed := true)
    case Collect =>
      var s' := s.(collector := Receiving);
      (match s.collector.r
       case Ok(data) => s'.(fetched := s.fetched[s.collector.h := data], verified := s.verified + 1)
       case Err(error) => if s.firstErr.None? then s'.(firstErr := Some(error), cancelled := true) else s')
    case CollectorEnd => s.(collector := Finished)
  }

  // ----- The inductive invariant -----

  function Carried(w: Worker): Option<Hash> {
    match w
    case Holding(h) => Some(h)
    case Sending(h, _) => Some(h)
    case _ => None
  }

  function Handled(k: Collector): Option<Hash> {
    if k.Handling? then Some(k.h) else None
  }

  ghost predicate InFlight(s: Sys, h: Hash) {
    Handled(s.collector) == Some(h) || exists w :: 0 <= w < |s.workers| && Carried(s.workers[w]) == Some(h)
  }

  /** No job is in two hands, and collected jobs are in nobody's. */
  ghost predicate Exclusive(s: Sys) {
    && (forall v, w :: 0 <= v < w < |s.workers| && Carried(s.workers[v]).Some? ==>
          Carried(s.workers[v]) != Carried(s.workers[w]))
    && (forall w :: 0 <= w < |s.workers| && Carried(s.workers[w]).Some? ==>
          Carried(s.workers[w]) != Handled(s.collector) && Carried(s.workers[w]).value !in s.fetched)
    && (Handled(s.collector).Some? ==> Handled(s.collector).value !in s.fetched)
  }

  /** What workers hold was fed, and what they offer is what fetching it gives. */
  ghost predicate FaithfulWorkers(c: Config, fed: nat, ws: seq<Worker>)
    requires fed <= |c.unique|
  {
    && (forall w :: 0 <= w < |ws| && Carried(ws[w]).Some? ==> Carried(ws[w]).value in c.unique[..fed])
    && (forall w :: 0 <= w < |ws| && ws[w].Sending? ==> ws[w].r == c.fetch(ws[w].h))
  }

  ghost predicate FaithfulFetched(c: Config, fed: nat, fetched: map<Hash, Bytes>, verified: nat)
    requires fed <= |c.unique|
  {
    && (forall h :: h in fetched ==> h in c.unique[..fed] && c.fetch(h) == Ok(fetched[h]))
    && verified == |fetched|
  }

  /** Everything in hand or collected was fed, and is what fetching that chunk gives. */
  ghost predicate Faithful(c: Config, s: Sys) {
    && s.fed <= |c.unique|
    && FaithfulWorkers(c, s.fed, s.workers)
    && (s.collector.Handling? ==> s.collector.h in c.unique[..s.fed] && s.collector.r == c.fetch(s.collector.h))
    && FaithfulFetched(c, s.fed, s.fetched, s.verified)
  }

  /** Until a cancellation no fed job is lost; a cancellation is caused by a chunk that fails. */
  ghost predicate Accounted(c: Config, s: Sys)
    requires s.fed <= |c.unique|
  {
    && (s.cancelled <==> s.firstErr.Some?)
    && (s.firstErr.Some? ==> exists h :: h in c.unique && c.fetch(h) == Err(s.firstErr.value))
    && (!s.cancelled ==> forall h :: h in c.unique[..s.fed] ==> h in s.fetched || InFlight(s, h))
  }

  ghost predicate Orderly(c: Config, s: Sys) {
    && |s.workers| == c.parallel
    && (s.jobsClosed ==> s.cancelled || s.fed == |c.unique|)
    && (forall w :: 0 <= w < |s.workers| && s.workers[w].Exited? ==> s.cancelled || s.jobsClosed)
    && (s.resultsClosed ==> forall w :: 0 <= w < |s.workers| ==> s.workers[w].Exited?)
    && (s.collector.Finished? ==> s.resultsClosed)
  }

  ghost predicate Inv(c: Config, s: Sys) {
    Faithful(c, s) && Exclusive(s) && Accounted(c, s) && Orderly(c, s)
  }

  lemma InitInv(c: Config)
    requires ValidConfig(c)
    ensures Inv(c, Init(c))
  {
  }

  /** A worker that drops its job or keeps it disturbs no other job. */
  lemma WorkerExclusive(s: Sys, w: nat, next: Worker)
    requires Exclusive(s) && w < |s.workers|
    requires Carried(next).None? || Carried(next) == Carried(s.workers[w])
    ensures Exclusive(s.(workers := s.workers[w := next]))
  {
  }

  lemma FeedExclusive(c: Config, s: Sys, w: nat)
    requires ValidConfig(c) && Inv(c, s) && Enabled(c, s, Feed(w))
    ensures Exclusive(Next(c, s, Feed(w)))
  {
    assert c.unique[s.fed] !in c.unique[..s.fed];
  }

  lemma DeliverExclusive(c: Config, s: Sys, w: nat)
    requires Exclusive(s) && Enabled(c, s, Deliver(w))
    ensures Exclusive(Next(c, s, Deliver(w)))
  {
  }

  lemma CollectExclusive(c: Config, s: Sys)
    requires Exclusive(s) && Enabled(c, s, Collect)
    ensures Exclusive(Next(c, s, Collect))
  {
  }

  lemma StepExclusive(c: Config, s: Sys, a: Action)
    requires ValidConfig(c) && Inv(c, s) && Enabled(c, s, a)
    ensures Exclusive(Next(c, s, a))
  {
    match a
    case Feed(w) => FeedExclusive(c, s, w);
    case Quit(w) => WorkerExclusive(s, w, Exited);
    case Drained(w) => WorkerExclusive(s, w, Exited);
    case Get(w) => WorkerExclusive(s, w, Sending(s.workers[w].h, c.fetch(s.workers[w].h)));
    case Deliver(w) => DeliverExclusive(c, s, w);
    case Abandon(w) => WorkerExclusive(s, w, Exited);
    case Collect => CollectExclusive(c, s);
    case _ => SameHands(s, Next(c, s, a));
  }

  lemma SameHands(s: Sys, t: Sys)
    requires Exclusive(s) && t.workers == s.workers && t.fetched == s.fetched
    requires Handled(t.collector) == Handled(s.collector)
    ensures Exclusive(t)
  {
  }

  /** A worker step that keeps or drops its job, and offers only what fetching it gives, is faithful. */
  lemma WorkerFaithful(c: Config, s: Sys, w: nat, next: Worker)
    requires Faithful(c, s) && w < |s.workers|
    requires Carried(next).None? || Carried(next) == Carried(s.workers[w])
    requires next.Sending? ==> next.r == c.fetch(next.h)
    ensures Faithful(c, s.(workers := s.workers[w := next]))
  {
  }

  lemma FeedFaithful(c: Config, s: Sys, w: nat)
    requires Faithful(c, s) && Enabled(c, s, Feed(w))
    ensures Faithful(c, Next(c, s, Feed(w)))
  {
    assert c.unique[..s.fed + 1] == c.unique[..s.fed] + [c.unique[s.fed]];
  }

  lemma DeliverFaithful(c: Config, s: Sys, w: nat)
    requires Faithful(c, s) && Enabled(c, s, Deliver(w))
    ensures Faithful(c, Next(c, s, Deliver(w)))
  {
  }

  lemma CollectFaithful(c: Config, s: Sys)
    requires Faithful(c, s) && Exclusive(s) && Enabled(c, s, Collect)
    ensures Faithful(c, Next(c, s, Collect))
  {
    hide Exclusive, FaithfulWorkers, FaithfulFetched;
    FreshHash(s);
    if s.collector.r.Ok? {
      FetchedMore(c, s.fed, s.fetched, s.verified, s.collector.h, s.collector.r.value);
    }
  }

  lemma FetchedMore(c: Config, fed: nat, fetched: map<Hash, Bytes>, verified: nat, h: Hash, data: Bytes)
    requires fed <= |c.unique| && FaithfulFetched(c, fed, fetched, verified)
    requires h in c.unique[..fed] && c.fetch(h) == Ok(data) && h !in fetched
    ensures FaithfulFetched(c, fed, fetched[h := data], verified + 1)
  {
    assert fetched[h := data].Keys == fetched.Keys + {h};
  }

  lemma FreshHash(s: Sys)
    requires Exclusive(s) && s.collector.Handling?
    ensures s.collector.h !in s.fetched
  {
  }

  lemma StepFaithful(c: Config, s: Sys, a: Action)
    requires ValidConfig(c) && Inv(c, s) && Enabled(c, s, a)
    ensures Faithful(c, Next(c, s, a))
  {
    match a
    case Feed(w) => FeedFaithful(c, s, w);
    case Quit(w) => WorkerFaithful(c, s, w, Exited);
    case Drained(w) => WorkerFaithful(c, s, w, Exited);
    case Get(w) => WorkerFaithful(c, s, w, Sending(s.workers[w].h, c.fetch(s.workers[w].h)));
    case Deliver(w) => DeliverFaithful(c, s, w);
    case Abandon(w) => WorkerFaithful(c, s, w, Exited);
    case Collect => CollectFaithful(c, s);
    case _ =>
  }

  lemma StepOrderly(c: Config, s: Sys, a: Action)
    requires ValidConfig(c) && Inv(c, s) && Enabled(c, s, a)
    ensures Orderly(c, Next(c, s, a))
  {
  }

  lemma StepAccounted(c: Config, s: Sys, a: Action)
    requires ValidConfig(c) && Inv(c, s) && Enabled(c, s, a)
    requires Faithful(c, Next(c, s, a))
    ensures Accounted(c, Next(c, s, a))
  {
    var t := Next(c, s, a);
    if a.Collect? && s.collector.r.Err? {
      assert s.collector.h in c.unique;
    }
    if !t.cancelled {
      forall h | h in c.unique[..t.fed] ensures h in t.fetched || InFlight(t, h) {
        StepKeepsJob(c, s, a, h);
      }
    }
  }

  /** Without cancellation a step moves a job along but never drops it. */
  lemma StepKeepsJob(c: Config, s: Sys, a: Action, h: Hash)
    requires ValidConfig(c) && Inv(c, s) && Enabled(c, s, a)
    requires var t := Next(c, s, a); !t.cancelled && t.fed <= |c.unique| && h in c.unique[..t.fed]
    ensures var t := Next(c, s, a); h in t.fetched || InFlight(t, h)
  {
    var t := Next(c, s, a);
    if a.Feed? && h !in c.unique[..s.fed] {
      assert c.unique[..s.fed + 1] == c.unique[..s.fed] + [c.unique[s.fed]];
      assert Carried(t.workers[a.w]) == Some(h);
    } else if h in s.fetched {
    } else if Handled(s.collector) == Some(h) {
      assert !a.Deliver?;
    } else {
      var w :| 0 <= w < |s.workers| && Carried(s.workers[w]) == Some(h);
      if a.Deliver? && a.w == w {
      } else {
        assert Carried(t.workers[w]) == Some(h);
      }
    }
  }

  lemma StepInv(c: Config, s: Sys, a: Action)
    requires ValidConfig(c) && Inv(c, s) && Enabled(c, s, a)
    ensures Inv(c, Next(c, s, a))
  {
    StepFaithful(c, s, a);
    StepExclusive(c, s, a);
    StepOrderly(c, s, a);
    StepAccounted(c, s, a);
  }

  // ----- Progress and termination -----

  /** Until the collector is finished some party can move, cancelled or not. */
  lemma NoDeadlock(c: Config, s: Sys) returns (a: Action)
    requires Inv(c, s) && !s.collector.Finished?
    ensures Enabled(c, s, a)
  {
    if s.collector.Handling? { return Collect; }
    if s.resultsClosed { return CollectorEnd; }
    if forall w :: 0 <= w < |s.workers| ==> s.workers[w].Exited? { return CloseResults; }
    var w :| 0 <= w < |s.workers| && !s.workers[w].Exited?;
    match s.workers[w]
    case Holding(_) => return Get(w);
    case Sending(_, _) => return Deliver(w);
    case Idle =>
      if s.jobsClosed { return Drained(w); }
      if s.fed < |c.unique| { return Feed(w); }
      return FeederEnd;
  }

  function Weight(w: Worker): nat {
    match w
    case Idle => 1
    case Holding(_) => 4
    case Sending(_, _) => 3
    case Exited => 0
  }

  function Weights(ws: seq<Worker>): nat {
    if ws == [] then 0 else Weight(ws[0]) + Weights(ws[1..])
  }

  lemma {:induction false} WeightsUpdate(ws: seq<Worker>, i: nat, w: Worker)
    requires i < |ws|
    ensures Weights(ws[i := w]) == Weights(ws) - Weight(ws[i]) + Weight(w)
  {
    if i == 0 {
      assert ws[0 := w][1..] == ws[1..];
    } else {
      assert ws[i := w][1..] == ws[1..][i - 1 := w];
      WeightsUpdate(ws[1..], i - 1, w);
    }
  }

  /** Unfed jobs, worker phases, open channels and the collector's phase, weighted so that every step costs. */
  function Measure(c: Config, s: Sys): int {
    5 * (|c.unique| - s.fed) + Weights(s.workers)
    + (if s.jobsClosed then 0 else 1) + (if s.resultsClosed then 0 else 1)
    + (match s.collector case Receiving => 1 case Handling(_, _) => 2 case Finished => 0)
  }

  lemma StepMeasure(c: Config, s: Sys, a: Action)
    requires Enabled(c, s, a)
    ensures Measure(c, Next(c, s, a)) < Measure(c, s)
  {
    match a
    case Feed(w) => WeightsUpdate(s.workers, w, Holding(c.unique[s.fed]));
    case Quit(w) => WeightsUpdate(s.workers, w, Exited);
    case Drained(w) => WeightsUpdate(s.workers, w, Exited);
    case Get(w) => WeightsUpdate(s.workers, w, Sending(s.workers[w].h, c.fetch(s.workers[w].h)));
    case Deliver(w) => WeightsUpdate(s.workers, w, Idle);
    case Abandon(w) => WeightsUpdate(s.workers, w, Exited);
    case _ =>
  }

  // ----- Whole runs -----

  /** `acts` is a possible interleaving from `s`, ending in `t`. */
  ghost predicate Runs(c: Config, s: Sys, acts: seq<Action>, t: Sys)
    decreases |acts|
  {
    if acts == [] then s == t
    else Enabled(c, s, acts[0]) && Runs(c, Next(c, s, acts[0]), acts[1..], t)
  }

  lemma {:induction false} RunInv(c: Config, s: Sys, acts: seq<Action>, t: Sys)
    requires ValidConfig(c) && Inv(c, s) && Runs(c, s, acts, t)
    ensures Inv(c, t) && |acts| <= Measure(c, s) - Measure(c, t)
    decreases |acts|
  {
    if acts != [] {
      StepInv(c, s, acts[0]);
      StepMeasure(c, s, acts[0]);
      RunInv(c, Next(c, s, acts[0]), acts[1..], t);
    }
  }

  ghost predicate Succeeds(c: Config) {
    forall h :: h in c.unique ==> c.fetch(h).Ok?
  }

  /** The verified bytes of every unique chunk. */
  ghost predicate HoldsAll(c: Config, fetched: map<Hash, Bytes>) {
    && fetched.Keys == Elems(c.unique)
    && forall h :: h in fetched ==> c.fetch(h) == Ok(fetched[h])
  }

  /** A finished restore reports no error iff every chunk can be fetched and verified, and then has them all. */
  lemma FinishedOutcome(c: Config, s: Sys)
    requires ValidConfig(c) && Inv(c, s) && s.collector.Finished?
    ensures s.firstErr.None? <==> Succeeds(c)
    ensures s.firstErr.None? ==> HoldsAll(c, s.fetched) && s.verified == |c.unique|
    ensures s.firstErr.Some? ==> exists h :: h in c.unique && c.fetch(h) == Err(s.firstErr.value)
  {
    if s.firstErr.None? {
      assert s.workers[0].Exited?;
      assert c.unique[..s.fed] == c.unique;
      assert forall h :: h in c.unique ==> h in s.fetched;
      assert s.fetched.Keys == Elems(c.unique);
      DistinctCard(c.unique);
    }
  }

  /**
   * Every run from the start is finite, can continue until the collector is finished, and once it is
   * finished has the same outcome whatever the interleaving.
   */
  lemma RestoreRun(c: Config, acts: seq<Action>, t: Sys)
    requires ValidConfig(c) && Runs(c, Init(c), acts, t)
    ensures |acts| <= 5 * |c.unique| + c.parallel + 3
    ensures t.collector.Finished? || exists a :: Enabled(c, t, a)
    ensures t.collector.Finished? ==>
      && (t.firstErr.None? <==> Succeeds(c))
      && (t.firstErr.None? ==> HoldsAll(c, t.fetched) && t.verified == |c.unique|)
      && (t.firstErr.Some? ==> exists h :: h in c.unique && c.fetch(h) == Err(t.firstErr.value))
  {
    InitInv(c);
    RunInv(c, Init(c), acts, t);
    IdleWeights(c.parallel);
    MeasureNonNegative(c, t);
    if t.collector.Finished? {
      FinishedOutcome(c, t);
    } else {
      var a := NoDeadlock(c, t);
    }
  }

  lemma {:induction false} IdleWeights(n: nat)
    ensures Weights(seq(n, i => Idle)) == n
  {
    if n > 0 {
      IdleWeights(n - 1);
      assert seq(n, i => Idle)[1..] == seq(n - 1, i => Idle);
    }
  }

  lemma MeasureNonNegative(c: Config, s: Sys)
    requires s.fed <= |c.unique|
    ensures Measure(c, s) >= 0
  {
  }

  /** Two finished runs, even with different worker counts, agree on success and on the bytes. */
  lemma OutcomeDetermined(c: Config, d: Config, acts: seq<Action>, t: Sys, acts': seq<Action>, t': Sys)
    requires ValidConfig(c) && ValidConfig(d) && c.unique == d.unique
    requires forall h :: h in c.unique ==> c.fetch(h) == d.fetch(h)
    requires Runs(c, Init(c), acts, t) && t.collector.Finished?
    requires Runs(d, Init(d), acts', t') && t'.collector.Finished?
    ensures t.firstErr.None? <==> t'.firstErr.None?
    ensures t.firstErr.None? ==> t.fetched == t'.fetched && t.verified == t'.verified
  {
    RestoreRun(c, acts, t);
    RestoreRun(d, acts', t');
    if t.firstErr.None? {
      forall h | h in t.fetched ensures h in t'.fetched && t.fetched[h] == t'.fetched[h] {
        assert c.fetch(h) == d.fetch(h);
      }
      assert t.fetched.Keys == t'.fetched.Keys;
    }
  }

  /** From every state a run reaches, some continuation finishes the restore. */
  lemma CanFinish(c: Config, s: Sys) returns (acts: seq<Action>, t: Sys)
    requires ValidConfig(c) && Inv(c, s)
    ensures Runs(c, s, acts, t) && t.collector.Finished?
    decreases Measure(c, s)
  {
    if s.collector.Finished? {
      return [], s;
    }
    var a := NoDeadlock(c, s);
    StepInv(c, s, a);
    StepMeasure(c, s, a);
    MeasureNonNegative(c, Next(c, s, a));
    var rest, last := CanFinish(c, Next(c, s, a));
    assert ([a] + rest)[1..] == rest;
    return [a] + rest, last;
  }
}
