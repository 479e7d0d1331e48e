/** What the virtqueue is for: a bag of requests. Each accepted request gets the next
    ticket; the device completes tickets in any order; the driver fetches completions
    in the order the device made them. The queue of Ring.dfy refines this bag. */
module Bag {
  import opened Counting
  import opened Machine
  import opened Ring

  datatype Completion = Done(ticket: nat, len: u32) | Lost

  /** `requests[t]` is the request with ticket t; `outstanding` holds the tickets the device
      still has; `load` counts the descriptors of accepted and not yet fetched requests. */
  datatype Bag = Bag(
    capacity: nat,
    requests: seq<Request>,
    outstanding: set<nat>,
    done: seq<Completion>, returned: nat,
    load: int)

  datatype Act = Post(req: Request) | Fetch | Complete(ticket: nat, len: u32) | Lose | Stutter

  predicate Allowed(b: Bag, a: Act) {
    a.Complete? ==> a.ticket in b.outstanding
  }

  predicate Completed(b: Bag, t: nat) {
    exists i :: 0 <= i < |b.done| && b.done[i].Done? && b.done[i].ticket == t
  }

  /** Every ticket is outstanding or completed, never both, and none is completed twice. */
  ghost predicate BagInv(b: Bag) {
    && b.returned <= |b.done|
    && (forall i :: 0 <= i < b.returned ==> b.done[i].Done?)
    && (forall t :: t in b.outstanding ==> t < |b.requests|)
    && (forall i :: 0 <= i < |b.done| && b.done[i].Done? ==>
          b.done[i].ticket < |b.requests| && b.done[i].ticket !in b.outstanding)
    && (forall i, j :: 0 <= i < j < |b.done| && b.done[i].Done? && b.done[j].Done? ==>
          b.done[i].ticket != b.done[j].ticket)
    && (forall t :: 0 <= t < |b.requests| ==> t in b.outstanding || Completed(b, t))
  }

  function Apply(b: Bag, a: Act): (result: (Bag, Output))
    requires BagInv(b) && Allowed(b, a)
  {
    match a
    case Post(req) =>
      if b.load + |req.sg| > b.capacity then (b, Full)
      else
        (b.(requests := b.requests + [req], outstanding := b.outstanding + {|b.requests|},
            load := b.load + |req.sg|), Accepted)
    case Fetch =>
      if b.returned < |b.done| && b.done[b.returned].Done? then
        var c := b.done[b.returned];
        var req := b.requests[c.ticket];
        (b.(returned := b.returned + 1, load := b.load - |req.sg|), Returned(req.cookie, c.len))
      else (b, Nothing)
    case Complete(t, len) =>
      (b.(outstanding := b.outstanding - {t}, done := b.done + [Done(t, len)]), Silent)
    case Lose => (b.(done := b.done + [Lost]), Silent)
    case Stutter => (b, Silent)
  }

  lemma CompletedGrows(b: Bag, b': Bag, t: nat)
    requires b.done <= b'.done && Completed(b, t)
    ensures Completed(b', t)
  {
    var i :| 0 <= i < |b.done| && b.done[i].Done? && b.done[i].ticket == t;
    assert b'.done[i] == b.done[i];
  }

  lemma PostKeepsInv(b: Bag, b': Bag, req: Request)
    requires BagInv(b)
    requires b'.requests == b.requests + [req] && b'.outstanding == b.outstanding + {|b.requests|}
    requires b'.done == b.done && b'.returned == b.returned
    ensures BagInv(b')
  {
    forall t | 0 <= t < |b'.requests| && t !in b'.outstanding
      ensures Completed(b', t)
    {
      CompletedGrows(b, b', t);
    }
  }

  lemma DoneKeepsInv(b: Bag, c: Completion)
    requires BagInv(b) && (c.Done? ==> c.ticket in b.outstanding)
    ensures BagInv(b.(
      outstanding := if c.Done? then b.outstanding - {c.ticket} else b.outstanding, done := b.done + [c]))
  {
    var b' := b.(outstanding := if c.Done? then b.outstanding - {c.ticket} else b.outstanding, done := b.done + [c]);
    assert b'.done[|b.done|] == c;
    forall t | 0 <= t < |b'.requests| && t !in b'.outstanding
      ensures Completed(b', t)
    {
      if t !in b.outstanding {
        CompletedGrows(b, b', t);
      }
    }
  }

  lemma FetchKeepsInv(b: Bag, b': Bag)
    requires BagInv(b) && b' == b.(returned := b'.returned, load := b'.load)
    requires b'.returned == b.returned
             || (b'.returned == b.returned + 1 <= |b.done| && b.done[b.returned].Done?)
    ensures BagInv(b')
  {
    forall t | 0 <= t < |b'.requests| && t !in b'.outstanding
      ensures Completed(b', t)
    {
      CompletedGrows(b, b', t);
    }
  }

  lemma ApplyKeepsInv(b: Bag, a: Act)
    requires BagInv(b) && Allowed(b, a)
    ensures BagInv(Apply(b, a).0)
  {
    match a
    case Post(req) => if b.load + |req.sg| <= b.capacity { PostKeepsInv(b, Apply(b, a).0, req); }
    case Fetch => FetchKeepsInv(b, Apply(b, a).0);
    case Complete(t, len) => DoneKeepsInv(b, Done(t, len));
    case Lose => DoneKeepsInv(b, Lost);
    case Stutter =>
  }

  // ---- One step of the queue is one step of the bag ----

  function ActOf(r: Ring, e: Event): (a: Act)
    requires Enabled(r, e)
  {
    match e
    case Submit(req) => Post(req)
    case Poll => Fetch
    case Take => Stutter
    case Finish(head, len) => if head in r.chains then Complete(r.chains[head].ticket, len) else Stutter
    case Corrupt(_) => Lose
  }

  ghost predicate ChainsMatch(r: Ring, b: Bag) {
    forall h :: h in r.chains ==>
      var c := r.chains[h];
      c.ticket < |b.requests| && b.requests[c.ticket] == c.req
      && (c.ticket in b.outstanding <==> !(h in r.stage && r.stage[h].Used?))
  }

  ghost predicate TicketsMatch(r: Ring, b: Bag) {
    forall t :: t in b.outstanding ==>
      t < |r.avail| && r.avail[t] in r.chains && r.chains[r.avail[t]].ticket == t
  }

  ghost predicate DoneMatch(r: Ring, b: Bag) {
    |b.done| == |r.used|
    && forall p :: r.consumed <= p < |r.used| ==>
      b.done[p] == if r.used[p].id < r.num && r.used[p].id in r.chains
                   then Done(r.chains[r.used[p].id].ticket, r.used[p].len) else Lost
  }

  /** The bag `b` is what the queue `r` stands for. */
  ghost predicate Refines(r: Ring, b: Bag) {
    && b.capacity == r.num && b.load == r.num - |r.free|
    && |b.requests| == |r.avail| && b.returned == r.consumed
    && ChainsMatch(r, b) && TicketsMatch(r, b) && DoneMatch(r, b)
  }

  lemma SubmitRefines(r: Ring, b: Bag, req: Request)
    requires Heads(r) && AvailOk(r) && UsedOk(r) && BagInv(b) && Refines(r, b) && WellFormed(req)
    requires |req.sg| <= |r.free| && forall h :: h in r.chains ==> h !in r.free
    ensures Refines(Submitted(r, req), Apply(b, Post(req)).0)
  {
    hide ChainsMatch, TicketsMatch, DoneMatch;
    var b' := Apply(b, Post(req)).0;
    SubmitChains(r, b, b', req);
    SubmitTickets(r, b, b', req);
    SubmitDone(r, b, b', req);
  }

  lemma SubmitChains(r: Ring, b: Bag, b': Bag, req: Request)
    requires Heads(r) && ChainsMatch(r, b) && |b.requests| == |r.avail| && 1 <= |req.sg| <= |r.free|
    requires b'.requests == b.requests + [req] && b'.outstanding == b.outstanding + {|b.requests|}
    ensures ChainsMatch(Submitted(r, req), b')
  {
  }

  lemma SubmitTickets(r: Ring, b: Bag, b': Bag, req: Request)
    requires TicketsMatch(r, b) && |b.requests| == |r.avail| && 1 <= |req.sg| <= |r.free| && r.free[0] !in r.chains
    requires b'.requests == b.requests + [req] && b'.outstanding == b.outstanding + {|b.requests|}
    ensures TicketsMatch(Submitted(r, req), b')
  {
  }

  lemma SubmitDone(r: Ring, b: Bag, b': Bag, req: Request)
    requires Heads(r) && UsedOk(r) && DoneMatch(r, b) && b'.done == b.done
    requires 1 <= |req.sg| <= |r.free| && r.free[0] !in r.chains
    ensures DoneMatch(Submitted(r, req), b')
  {
  }

  lemma PollRefines(r: Ring, b: Bag)
    requires Heads(r) && AvailOk(r) && UsedOk(r) && BagInv(b) && Refines(r, b) && Ready(r)
    ensures Refines(Recycled(r), Apply(b, Fetch).0)
    ensures Apply(b, Fetch).1 == Returned(r.chains[r.used[r.consumed].id].req.cookie, r.used[r.consumed].len)
  {
    hide ChainsMatch, TicketsMatch, DoneMatch, BagInv, Heads, AvailOk, UsedOk;
    FrontMatches(r, b);
    var b' := Apply(b, Fetch).0;
    PollTickets(r, b, b');
    PollDone(r, b, b');
  }

  lemma FrontMatches(r: Ring, b: Bag)
    requires Heads(r) && UsedOk(r) && ChainsMatch(r, b) && DoneMatch(r, b) && Ready(r)
    ensures |b.done| == |r.used|
    ensures var id := r.used[r.consumed].id; var c := r.chains[id];
      && b.done[r.consumed] == Done(c.ticket, r.used[r.consumed].len)
      && c.ticket < |b.requests| && b.requests[c.ticket] == c.req && |c.ids| == |c.req.sg|
  {
    hide Reverse;
  }

  lemma PollTickets(r: Ring, b: Bag, b': Bag)
    requires Heads(r) && UsedOk(r) && ChainsMatch(r, b) && TicketsMatch(r, b) && Ready(r)
    requires b'.requests == b.requests && b'.outstanding == b.outstanding
    ensures ChainsMatch(Recycled(r), b') && TicketsMatch(Recycled(r), b')
  {
    hide Reverse;
  }

  lemma PollDone(r: Ring, b: Bag, b': Bag)
    requires Heads(r) && UsedOk(r) && DoneMatch(r, b) && Ready(r) && b'.done == b.done
    ensures DoneMatch(Recycled(r), b')
  {
    hide Reverse;
  }

  lemma TakeRefines(r: Ring, b: Bag)
    requires Heads(r) && AvailOk(r) && UsedOk(r) && Refines(r, b) && r.taken < |r.avail|
    ensures Refines(Taken(r), b)
  {
  }

  lemma FinishRefines(r: Ring, b: Bag, head: u32, len: u32)
    requires Heads(r) && AvailOk(r) && UsedOk(r) && BagInv(b) && Refines(r, b)
    requires Enabled(r, Finish(head, len)) && head < r.num
    ensures Allowed(b, Complete(r.chains[head].ticket, len))
    ensures Refines(Finished(r, head, len), Apply(b, Complete(r.chains[head].ticket, len)).0)
  {
  }

  lemma CorruptRefines(r: Ring, b: Bag, elem: UsedElem)
    requires Heads(r) && UsedOk(r) && BagInv(b) && Refines(r, b) && Enabled(r, Corrupt(elem))
    ensures Refines(r.(used := r.used + [elem]), Apply(b, Lose).0)
  {
  }

  lemma NothingReady(r: Ring, b: Bag)
    requires Heads(r) && UsedOk(r) && BagInv(b) && Refines(r, b) && !Ready(r)
    ensures Apply(b, Fetch) == (b, Nothing)
  {
  }

  /** The event is an allowed act of the bag, with the same output, and keeps the refinement. */
  ghost predicate Matches(r: Ring, b: Bag, e: Event)
    requires Inv(r) && BagInv(b) && Enabled(r, e)
  {
    Allowed(b, ActOf(r, e))
    && Refines(Step(r, e).0, Apply(b, ActOf(r, e)).0)
    && Step(r, e).1 == Apply(b, ActOf(r, e)).1
  }

  lemma CountsMatch(r: Ring, b: Bag)
    requires Refines(r, b)
    ensures b.capacity == r.num && b.load == r.num - |r.free|
  {
  }

  lemma SubmitMatches(r: Ring, b: Bag, req: Request)
    requires Inv(r) && BagInv(b) && Refines(r, b) && WellFormed(req)
    ensures Matches(r, b, Submit(req))
  {
    hide Refines, BagInv, Partition, AvailOk, UsedOk, Heads;
    HeadsAreNotFree(r);
    CountsMatch(r, b);
    if |req.sg| <= |r.free| {
      SubmitRefines(r, b, req);
    }
  }

  lemma PollMatches(r: Ring, b: Bag)
    requires Inv(r) && BagInv(b) && Refines(r, b)
    ensures Matches(r, b, Poll)
  {
    hide Refines, BagInv, Partition, AvailOk, UsedOk, Heads, Apply;
    if Ready(r) { PollRefines(r, b); } else { NothingReady(r, b); }
  }

  lemma TakeMatches(r: Ring, b: Bag)
    requires Inv(r) && BagInv(b) && Refines(r, b) && r.taken < |r.avail|
    ensures Matches(r, b, Take)
  {
    hide Refines, BagInv, Partition, AvailOk, UsedOk, Heads;
    TakeRefines(r, b);
  }

  lemma FinishMatches(r: Ring, b: Bag, head: nat, len: u32)
    requires Inv(r) && BagInv(b) && Refines(r, b) && Enabled(r, Finish(head, len))
    ensures Matches(r, b, Finish(head, len))
  {
    hide Refines, BagInv, Partition, AvailOk, UsedOk;
    HeadsAreNotFree(r);
    FinishRefines(r, b, head, len);
  }

  lemma CorruptMatches(r: Ring, b: Bag, elem: UsedElem)
    requires Inv(r) && BagInv(b) && Refines(r, b) && Enabled(r, Corrupt(elem))
    ensures Matches(r, b, Corrupt(elem))
  {
    hide Refines, BagInv, Partition, AvailOk, UsedOk, Heads;
    CorruptRefines(r, b, elem);
  }

  /** Every enabled event of the queue is an allowed act of the bag with the same output. */
  lemma StepRefines(r: Ring, b: Bag, e: Event)
    requires Inv(r) && BagInv(b) && Refines(r, b) && Enabled(r, e)
    ensures Matches(r, b, e)
  {
    match e
    case Submit(req) => SubmitMatches(r, b, req);
    case Poll => PollMatches(r, b);
    case Take => TakeMatches(r, b);
    case Finish(head, len) => FinishMatches(r, b, head, len);
    case Corrupt(elem) => CorruptMatches(r, b, elem);
  }

  // ---- Whole runs ----

  /** A run of driver calls and device moves in any order, each enabled when it happens. */
  ghost predicate Legal(r: Ring, es: seq<Event>)
    requires Inv(r)
    decreases |es|
  {
    es == [] || (Enabled(r, es[0]) && (StepKeepsInv(r, es[0]); Legal(Step(r, es[0]).0, es[1..])))
  }

  ghost function RunRing(r: Ring, es: seq<Event>): (result: (Ring, seq<Output>))
    requires Inv(r) && Legal(r, es)
    ensures Inv(result.0) && |result.1| == |es|
    decreases |es|
  {
    if es == [] then (r, []) else
      StepKeepsInv(r, es[0]);
      var (r1, out) := Step(r, es[0]);
      var (r', outs) := RunRing(r1, es[1..]);
      (r', [out] + outs)
  }

  ghost function Acts(r: Ring, es: seq<Event>): (acts: seq<Act>)
    requires Inv(r) && Legal(r, es)
    decreases |es|
  {
    if es == [] then [] else
      StepKeepsInv(r, es[0]);
      [ActOf(r, es[0])] + Acts(Step(r, es[0]).0, es[1..])
  }

  ghost predicate AllowedRun(b: Bag, acts: seq<Act>)
    requires BagInv(b)
    decreases |acts|
  {
    acts == []
    || (Allowed(b, acts[0]) && (ApplyKeepsInv(b, acts[0]); AllowedRun(Apply(b, acts[0]).0, acts[1..])))
  }

  ghost function RunBag(b: Bag, acts: seq<Act>): (result: (Bag, seq<Output>))
    requires BagInv(b) && AllowedRun(b, acts)
    ensures BagInv(result.0)
    decreases |acts|
  {
    if acts == [] then (b, []) else
      ApplyKeepsInv(b, acts[0]);
      var (b1, out) := Apply(b, acts[0]);
      var (b', outs) := RunBag(b1, acts[1..]);
      (b', [out] + outs)
  }

  /** Whole runs of the queue are runs of the bag with the same outputs. */
  lemma {:induction false} QueueRefinesBag(r: Ring, b: Bag, es: seq<Event>)
    requires Inv(r) && BagInv(b) && Refines(r, b) && Legal(r, es)
    ensures AllowedRun(b, Acts(r, es))
    ensures Refines(RunRing(r, es).0, RunBag(b, Acts(r, es)).0)
    ensures RunRing(r, es).1 == RunBag(b, Acts(r, es)).1
    decreases |es|
  {
    if es == [] {
    } else {
      var e := es[0];
      StepRefines(r, b, e);
      StepKeepsInv(r, e);
      ApplyKeepsInv(b, ActOf(r, e));
      QueueRefinesBag(Step(r, e).0, Apply(b, ActOf(r, e)).0, es[1..]);
      assert Acts(r, es)[1..] == Acts(Step(r, e).0, es[1..]);
    }
  }

  /** What the driver has fetched so far, in the order the device completed it. */
  ghost function Delivered(b: Bag): (outs: seq<Output>)
    requires BagInv(b)
  {
    seq(b.returned, i requires 0 <= i < b.returned && BagInv(b) =>
      Returned(b.requests[b.done[i].ticket].cookie, b.done[i].len))
  }

  function Returns(outs: seq<Output>): (rs: seq<Output>) {
    if outs == [] then []
    else (if outs[0].Returned? then [outs[0]] else []) + Returns(outs[1..])
  }

  lemma ApplyDelivers(b: Bag, a: Act)
    requires BagInv(b) && Allowed(b, a) && BagInv(Apply(b, a).0)
    ensures Delivered(Apply(b, a).0) == Delivered(b) + Returns([Apply(b, a).1])
  {
  }

  lemma ReturnsCons(out: Output, outs: seq<Output>)
    ensures Returns([out] + outs) == Returns([out]) + Returns(outs)
  {
    assert ([out] + outs)[1..] == outs;
  }

  lemma {:induction false} RunDelivers(b: Bag, acts: seq<Act>)
    requires BagInv(b) && AllowedRun(b, acts)
    ensures Delivered(RunBag(b, acts).0) == Delivered(b) + Returns(RunBag(b, acts).1)
    decreases |acts|
  {
    hide BagInv, Delivered, Apply;
    if acts == [] {
      assert Delivered(b) + [] == Delivered(b);
    } else {
      ApplyKeepsInv(b, acts[0]);
      var (b1, out) := Apply(b, acts[0]);
      RunDelivers(b1, acts[1..]);
      ApplyDelivers(b, acts[0]);
      ReturnsCons(out, RunBag(b1, acts[1..]).1);
    }
  }

  /** The requests of accepted Submit events, in order. */
  function AcceptedOf(es: seq<Event>, outs: seq<Output>): (reqs: seq<Request>)
    requires |es| == |outs|
  {
    if es == [] then []
    else (if es[0].Submit? && outs[0] == Accepted then [es[0].req] else []) + AcceptedOf(es[1..], outs[1..])
  }

  function Posted(acts: seq<Act>, outs: seq<Output>): (reqs: seq<Request>)
    requires |acts| == |outs|
  {
    if acts == [] then []
    else (if acts[0].Post? && outs[0] == Accepted then [acts[0].req] else []) + Posted(acts[1..], outs[1..])
  }

  lemma ApplyPosts(b: Bag, a: Act)
    requires BagInv(b) && Allowed(b, a)
    ensures Apply(b, a).0.requests == b.requests + Posted([a], [Apply(b, a).1])
  {
  }

  lemma PostedCons(a: Act, acts: seq<Act>, out: Output, outs: seq<Output>)
    requires |acts| == |outs|
    ensures Posted([a] + acts, [out] + outs) == Posted([a], [out]) + Posted(acts, outs)
  {
    assert ([a] + acts)[1..] == acts && ([out] + outs)[1..] == outs;
  }

  lemma {:induction false} RunPosts(b: Bag, acts: seq<Act>)
    requires BagInv(b) && AllowedRun(b, acts)
    ensures |RunBag(b, acts).1| == |acts|
    ensures RunBag(b, acts).0.requests == b.requests + Posted(acts, RunBag(b, acts).1)
    decreases |acts|
  {
    hide BagInv, Apply;
    if acts == [] {
    } else {
      ApplyKeepsInv(b, acts[0]);
      var (b1, out) := Apply(b, acts[0]);
      RunPosts(b1, acts[1..]);
      ApplyPosts(b, acts[0]);
      PostedCons(acts[0], acts[1..], out, RunBag(b1, acts[1..]).1);
      assert acts == [acts[0]] + acts[1..];
    }
  }

  lemma {:induction false} PostedIsAccepted(r: Ring, es: seq<Event>, outs: seq<Output>)
    requires Inv(r) && Legal(r, es) && |es| == |outs|
    ensures |Acts(r, es)| == |es| && Posted(Acts(r, es), outs) == AcceptedOf(es, outs)
    decreases |es|
  {
    if es == [] {
    } else {
      StepKeepsInv(r, es[0]);
      PostedIsAccepted(Step(r, es[0]).0, es[1..], outs[1..]);
      assert Acts(r, es)[1..] == Acts(Step(r, es[0]).0, es[1..]);
    }
  }

  lemma FreshIsEmpty(num: nat)
    requires QueueSize(num)
    ensures Inv(Fresh(num)) && Refines(Fresh(num), Bag(num, [], {}, [], 0, 0))
  {
    FreshInv(num);
  }

  ghost predicate Fetched(b: Bag, t: nat)
    requires BagInv(b)
  {
    exists i :: 0 <= i < b.returned && b.done[i].ticket == t
  }

  /** `b` holds exactly the accepted requests of the run, and the run returned exactly the
      completed ones, in used-ring order; with no chain outstanding, all of them, and then
      every descriptor is free. */
  ghost predicate Accounts(r: Ring, es: seq<Event>, outs: seq<Output>, b: Bag)
    requires |es| == |outs|
  {
    && BagInv(b) && Refines(r, b)
    && b.requests == AcceptedOf(es, outs)
    && Returns(outs) == Delivered(b)
    && (r.chains == map[] ==> |r.free| == r.num && forall t :: 0 <= t < |b.requests| ==> Fetched(b, t))
  }

  lemma NothingOutstanding(r: Ring, b: Bag)
    requires Inv(r) && BagInv(b) && Refines(r, b) && r.chains == map[]
    ensures |r.free| == r.num
    ensures forall t :: 0 <= t < |b.requests| ==> Fetched(b, t)
  {
    assert Ids(r) == map[];
    Pigeonhole(r.free, r.num);
    assert r.stage == map[];
    AllFetched(r, b);
  }

  lemma AllFetched(r: Ring, b: Bag)
    requires BagInv(b) && Refines(r, b) && UsedOk(r) && r.chains == map[] && r.stage == map[]
    ensures forall t :: 0 <= t < |b.requests| ==> Fetched(b, t)
  {
    forall t | 0 <= t < |b.requests|
      ensures Fetched(b, t)
    {
      assert t !in b.outstanding;
      var i :| 0 <= i < |b.done| && b.done[i].Done? && b.done[i].ticket == t;
      assert i < b.returned;
    }
  }

  /** After any interleaving of driver calls and conforming device moves on a fresh queue,
      requests are accounted for: `BagInv` says that no ticket is completed twice. */
  lemma EveryRequestReturnsOnce(num: nat, es: seq<Event>)
    requires QueueSize(num) && Inv(Fresh(num)) && Legal(Fresh(num), es)
    ensures exists b :: Accounts(RunRing(Fresh(num), es).0, es, RunRing(Fresh(num), es).1, b)
  {
    FreshIsEmpty(num);
    var b0 := Bag(num, [], {}, [], 0, 0);
    var (r, outs) := RunRing(Fresh(num), es);
    QueueRefinesBag(Fresh(num), b0, es);
    RunDelivers(b0, Acts(Fresh(num), es));
    var b := RunBag(b0, Acts(Fresh(num), es)).0;
    assert Returns(outs) == Delivered(b);
    RunPosts(b0, Acts(Fresh(num), es));
    PostedIsAccepted(Fresh(num), es, outs);
    if r.chains == map[] {
      NothingOutstanding(r, b);
    }
    assert Accounts(r, es, outs, b);
  }

  /** An id that is not a descriptor number at the front of the used ring blocks the queue:
      whatever happens next, nothing is ever fetched again. */
  lemma {:induction false} CorruptFrontBlocks(b: Bag, acts: seq<Act>)
    requires BagInv(b) && AllowedRun(b, acts) && b.returned < |b.done| && b.done[b.returned].Lost?
    ensures Returns(RunBag(b, acts).1) == [] && RunBag(b, acts).0.returned == b.returned
    decreases |acts|
  {
    if acts == [] {
    } else {
      ApplyKeepsInv(b, acts[0]);
      var (b1, out) := Apply(b, acts[0]);
      CorruptFrontBlocks(b1, acts[1..]);
      assert RunBag(b, acts).1 == [out] + RunBag(b1, acts[1..]).1;
    }
  }
}
