/** The split virtqueue on values: descriptor free list, chains, and the available and
    used rings with unbounded counters. The class in VirtQueue.dfy implements it on
    arrays with 16-bit counters. Descriptor 0 .. num-1 are the ring's descriptors. */
module Ring {
  import opened Counting
  import opened Machine
  import opened Modulo

  /** One scatter-gather entry: a buffer's physical address and length. */
  datatype Sg = Sg(addr: u32, len: u32)

  /** What one AddBuf call posts: `out` entries the device reads, then entries it writes. */
  datatype Request = Request(sg: seq<Sg>, out: nat, cookie: nat)

  /** Where a posted chain is: in the available ring, taken by the device, or at a
      position of the used ring that the driver has not consumed. */
  datatype Stage = Published | Held | Used(pos: nat)

  /** A chain of descriptors. `ticket` is the position of its head in the available ring. */
  datatype Chain = Chain(ids: seq<nat>, req: Request, ticket: nat)

  datatype UsedElem = UsedElem(id: u32, len: u32)

  datatype Ring = Ring(
    num: nat,
    free: seq<nat>,
    chains: map<nat, Chain>, stage: map<nat, Stage>,
    avail: seq<nat>, taken: nat,
    used: seq<UsedElem>, consumed: nat)

  /** Driver calls (Submit is AddBuf, Poll is GetBuf) and device moves. Corrupt is a
      used-ring entry whose id is not a descriptor number. */
  datatype Event =
    | Submit(req: Request)
    | Poll
    | Take
    | Finish(head: nat, len: u32)
    | Corrupt(elem: UsedElem)

  datatype Output = Accepted | Full | Nothing | Returned(cookie: nat, len: u32) | Silent

  /** Section 2.7 of VirtIO 1.2: the queue size is a power of two, at most 32768. */
  predicate QueueSize(num: nat) {
    1 <= num <= 32768 && 0x1_0000 % num == 0
  }

  function Reverse<T>(s: seq<T>): (r: seq<T>)
    ensures |r| == |s|
    ensures forall i :: 0 <= i < |s| ==> r[i] == s[|s| - 1 - i]
  {
    if s == [] then [] else Reverse(s[1..]) + [s[0]]
  }

  predicate WellFormed(req: Request) {
    |req.sg| >= 1 && req.out <= |req.sg|
  }

  predicate Enabled(r: Ring, e: Event) {
    match e
    case Submit(req) => WellFormed(req)
    case Poll => true
    case Take => r.taken < |r.avail|
    case Finish(head, _) =>
      head in r.stage && r.stage[head] == Held && |r.used| - r.consumed < r.num
    case Corrupt(elem) => elem.id >= r.num && |r.used| - r.consumed < r.num
  }

  // ---- Steps ----

  function Submitted(r: Ring, req: Request): (r': Ring)
    requires 1 <= |req.sg| <= |r.free|
  {
    var ids := r.free[..|req.sg|];
    r.(free := r.free[|req.sg|..],
       chains := r.chains[ids[0] := Chain(ids, req, |r.avail|)],
       stage := r.stage[ids[0] := Published],
       avail := r.avail + [ids[0]])
  }

  /** The front of the used ring is a completed chain (not empty, not corrupt). */
  predicate Ready(r: Ring) {
    r.consumed < |r.used| && r.used[r.consumed].id < r.num && r.used[r.consumed].id in r.chains
  }

  function Recycled(r: Ring): (r': Ring)
    requires Ready(r)
  {
    var id := r.used[r.consumed].id;
    r.(free := Reverse(r.chains[id].ids) + r.free,
       chains := r.chains - {id},
       stage := r.stage - {id},
       consumed := r.consumed + 1)
  }

  function Taken(r: Ring): (r': Ring)
    requires r.taken < |r.avail|
  {
    r.(stage := r.stage[r.avail[r.taken] := Held], taken := r.taken + 1)
  }

  function Finished(r: Ring, head: u32, len: u32): (r': Ring) {
    r.(stage := r.stage[head := Used(|r.used|)], used := r.used + [UsedElem(head, len)])
  }

  function Step(r: Ring, e: Event): (result: (Ring, Output))
    requires Inv(r) && Enabled(r, e)
  {
    match e
    case Submit(req) =>
      if |r.free| < |req.sg| then (r, Full) else (Submitted(r, req), Accepted)
    case Poll =>
      if Ready(r) then
        var elem := r.used[r.consumed];
        (Recycled(r), Returned(r.chains[elem.id].req.cookie, elem.len))
      else (r, Nothing)
    case Take => (Taken(r), Silent)
    case Finish(head, len) =>
      HeadsAreNotFree(r);
      (Finished(r, head, len), Silent)
    case Corrupt(elem) => (r.(used := r.used + [elem]), Silent)
  }

  // ---- Invariant ----

  /** The free list and the chains partition the descriptors: none is lost, shared by two
      chains, or both free and in a chain. */
  ghost predicate Partition(num: nat, free: seq<nat>, owned: map<nat, seq<nat>>) {
    && NoDup(free)
    && (forall i :: 0 <= i < |free| ==> free[i] < num)
    && (forall h :: h in owned ==> NoDup(owned[h]))
    && (forall h, i :: h in owned && 0 <= i < |owned[h]| ==> owned[h][i] < num && owned[h][i] !in free)
    && (forall g, h, i :: g in owned && h in owned && 0 <= i < |owned[g]| && owned[g][i] in owned[h] ==> g == h)
    && (forall x :: 0 <= x < num && x !in free ==> Owned(owned, x))
  }

  ghost predicate Owned(owned: map<nat, seq<nat>>, x: nat) {
    exists h :: h in owned && x in owned[h]
  }

  function Ids(r: Ring): (owned: map<nat, seq<nat>>) {
    map h | h in r.chains :: r.chains[h].ids
  }

  ghost predicate Heads(r: Ring) {
    && r.stage.Keys == r.chains.Keys
    && forall h :: h in r.chains ==>
      var c := r.chains[h];
      |c.ids| == |c.req.sg| >= 1 && c.ids[0] == h && c.req.out <= |c.req.sg|
      && c.ticket < |r.avail| && r.avail[c.ticket] == h
  }

  /** Every untaken available entry is the head of a published chain, and conversely. */
  ghost predicate AvailOk(r: Ring) {
    && r.taken <= |r.avail|
    && (forall i :: r.taken <= i < |r.avail| ==>
          r.avail[i] in r.chains && r.avail[i] in r.stage && r.stage[r.avail[i]] == Published
          && r.chains[r.avail[i]].ticket == i)
    && (forall h :: h in r.chains && h in r.stage && r.stage[h] == Published ==> r.taken <= r.chains[h].ticket)
  }

  /** Every unconsumed used entry with a descriptor number is the head of a completed chain,
      and conversely. */
  ghost predicate UsedOk(r: Ring) {
    && r.consumed <= |r.used| <= r.consumed + r.num
    && (forall p :: r.consumed <= p < |r.used| && r.used[p].id < r.num ==>
          r.used[p].id in r.stage && r.stage[r.used[p].id] == Used(p))
    && (forall h :: h in r.stage && r.stage[h].Used? ==>
          r.consumed <= r.stage[h].pos < |r.used| && r.used[r.stage[h].pos].id == h)
  }

  ghost predicate Inv(r: Ring) {
    QueueSize(r.num) && Heads(r) && Partition(r.num, r.free, Ids(r)) && AvailOk(r) && UsedOk(r)
  }

  /** A newly allocated queue: every descriptor free, in order. */
  function Fresh(num: nat): (r: Ring) {
    Ring(num, seq(num, i => i), map[], map[], [], 0, [], 0)
  }

  lemma FreshInv(num: nat)
    requires QueueSize(num)
    ensures Inv(Fresh(num))
  {
    var r := Fresh(num);
    forall x | 0 <= x < num
      ensures x in r.free
    {
      assert r.free[x] == x;
    }
  }

  // ---- Every step keeps the invariant ----

  lemma PartitionAllot(num: nat, free: seq<nat>, owned: map<nat, seq<nat>>, n: nat)
    requires Partition(num, free, owned) && 1 <= n <= |free| && free[0] !in owned
    ensures Partition(num, free[n..], owned[free[0] := free[..n]])
  {
    var free', owned' := free[n..], owned[free[0] := free[..n]];
    assert free == free[..n] + free';
    forall x | 0 <= x < num && x !in free'
      ensures Owned(owned', x)
    {
      if x in free {
        assert x in owned'[free[0]];
      } else {
        var h :| h in owned && x in owned[h];
        assert h in owned' && x in owned'[h];
      }
    }
  }

  lemma ReverseElements<T(!new)>(s: seq<T>)
    requires NoDup(s)
    ensures NoDup(Reverse(s))
    ensures forall x :: x in s <==> x in Reverse(s)
  {
    forall i | 0 <= i < |s|
      ensures s[i] in Reverse(s) && Reverse(s)[i] in s
    {
      assert Reverse(s)[|s| - 1 - i] == s[i];
    }
  }

  lemma PartitionReclaim(num: nat, free: seq<nat>, owned: map<nat, seq<nat>>, id: nat, back: seq<nat>)
    requires Partition(num, free, owned) && id in owned
    requires NoDup(back) && forall x :: x in owned[id] <==> x in back
    ensures Partition(num, back + free, owned - {id})
  {
    var free', owned' := back + free, owned - {id};
    assert forall i :: 0 <= i < |back| ==> back[i] in owned[id];
    forall x | 0 <= x < num && x !in free'
      ensures Owned(owned', x)
    {
      var h :| h in owned && x in owned[h];
      assert h in owned' && x in owned'[h];
    }
  }

  lemma HeadsAreNotFree(r: Ring)
    requires Inv(r)
    ensures r.stage.Keys == r.chains.Keys
    ensures forall h :: h in r.chains ==> h < r.num && h !in r.free
  {
    forall h | h in r.chains
      ensures h < r.num && h !in r.free
    {
      assert Ids(r)[h][0] == h;
    }
  }

  lemma ChainsAreNotFree(r: Ring)
    requires Inv(r)
    ensures forall h, k :: h in r.chains && 0 <= k < |r.chains[h].ids| ==> r.chains[h].ids[k] !in r.free
  {
    forall h, k | h in r.chains && 0 <= k < |r.chains[h].ids|
      ensures r.chains[h].ids[k] !in r.free
    {
      assert Ids(r)[h][k] !in r.free;
    }
  }

  lemma SubmitKeepsHeads(r: Ring, req: Request)
    requires Heads(r) && WellFormed(req) && |req.sg| <= |r.free| && r.free[0] !in r.chains
    ensures Heads(Submitted(r, req))
  {
  }

  lemma SubmitKeepsAvail(r: Ring, req: Request)
    requires Heads(r) && AvailOk(r) && WellFormed(req) && |req.sg| <= |r.free| && r.free[0] !in r.chains
    ensures AvailOk(Submitted(r, req))
  {
  }

  lemma SubmitKeepsUsed(r: Ring, req: Request)
    requires Heads(r) && UsedOk(r) && WellFormed(req) && |req.sg| <= |r.free| && r.free[0] !in r.chains
    ensures UsedOk(Submitted(r, req))
  {
  }

  lemma SubmitKeepsPartition(r: Ring, req: Request)
    requires Partition(r.num, r.free, Ids(r)) && 1 <= |req.sg| <= |r.free| && r.free[0] !in r.chains
    ensures Partition(r.num, r.free[|req.sg|..], Ids(Submitted(r, req)))
  {
    PartitionAllot(r.num, r.free, Ids(r), |req.sg|);
    assert Ids(Submitted(r, req)) == Ids(r)[r.free[0] := r.free[..|req.sg|]];
  }

  lemma SubmitKeepsInv(r: Ring, req: Request)
    requires Inv(r) && WellFormed(req) && |req.sg| <= |r.free|
    ensures Inv(Submitted(r, req)) && r.free[0] !in r.chains
  {
    HeadsAreNotFree(r);
    SubmitKeepsHeads(r, req);
    SubmitKeepsAvail(r, req);
    SubmitKeepsUsed(r, req);
    SubmitKeepsPartition(r, req);
  }

  lemma PollKeepsHeads(r: Ring)
    requires Heads(r) && Ready(r)
    ensures Heads(Recycled(r))
  {
  }

  lemma PollKeepsAvail(r: Ring)
    requires Heads(r) && AvailOk(r) && UsedOk(r) && Ready(r)
    ensures AvailOk(Recycled(r))
  {
  }

  lemma PollKeepsUsed(r: Ring)
    requires Heads(r) && UsedOk(r) && Ready(r)
    ensures UsedOk(Recycled(r))
  {
  }

  lemma PollKeepsPartition(r: Ring)
    requires Partition(r.num, r.free, Ids(r)) && Ready(r)
    ensures Partition(r.num, Recycled(r).free, Ids(Recycled(r)))
  {
    var id := r.used[r.consumed].id;
    ReverseElements(Ids(r)[id]);
    PartitionReclaim(r.num, r.free, Ids(r), id, Reverse(Ids(r)[id]));
    assert Ids(Recycled(r)) == Ids(r) - {id};
  }

  lemma PollKeepsInv(r: Ring)
    requires Inv(r) && Ready(r)
    ensures Inv(Recycled(r))
  {
    PollKeepsHeads(r);
    PollKeepsAvail(r);
    PollKeepsUsed(r);
    PollKeepsPartition(r);
  }

  lemma TakeKeepsAvail(r: Ring)
    requires Heads(r) && AvailOk(r) && r.taken < |r.avail|
    ensures AvailOk(Taken(r)) && Heads(Taken(r))
  {
  }

  lemma TakeKeepsUsed(r: Ring)
    requires AvailOk(r) && UsedOk(r) && r.taken < |r.avail|
    ensures UsedOk(Taken(r))
  {
  }

  lemma TakeKeepsInv(r: Ring)
    requires Inv(r) && r.taken < |r.avail|
    ensures Inv(Taken(r))
  {
    TakeKeepsAvail(r);
    TakeKeepsUsed(r);
    assert Ids(Taken(r)) == Ids(r);
  }

  lemma FinishKeepsAvail(r: Ring, head: u32, len: u32)
    requires Heads(r) && AvailOk(r) && Enabled(r, Finish(head, len))
    ensures AvailOk(Finished(r, head, len)) && Heads(Finished(r, head, len))
  {
  }

  lemma FinishKeepsUsed(r: Ring, head: u32, len: u32)
    requires UsedOk(r) && Enabled(r, Finish(head, len))
    ensures UsedOk(Finished(r, head, len))
  {
  }

  lemma FinishKeepsInv(r: Ring, head: u32, len: u32)
    requires Inv(r) && Enabled(r, Finish(head, len))
    ensures Inv(Finished(r, head, len))
  {
    FinishKeepsAvail(r, head, len);
    FinishKeepsUsed(r, head, len);
    assert Ids(Finished(r, head, len)) == Ids(r);
  }

  lemma CorruptKeepsInv(r: Ring, elem: UsedElem)
    requires Inv(r) && Enabled(r, Corrupt(elem))
    ensures Inv(r.(used := r.used + [elem]))
  {
    assert Ids(r.(used := r.used + [elem])) == Ids(r);
  }

  /** No step of the driver or of a conforming device breaks the queue. */
  lemma StepKeepsInv(r: Ring, e: Event)
    requires Inv(r) && Enabled(r, e)
    ensures Inv(Step(r, e).0)
  {
    match e
    case Submit(req) => if |req.sg| <= |r.free| { SubmitKeepsInv(r, req); }
    case Poll => if Ready(r) { PollKeepsInv(r); }
    case Take => TakeKeepsInv(r);
    case Finish(head, len) => HeadsAreNotFree(r); FinishKeepsInv(r, head, len);
    case Corrupt(elem) => CorruptKeepsInv(r, elem);
  }

  // ---- Ring slots and 16-bit counters ----

  /** A slot computed from a wrapped 16-bit counter is the slot of the unbounded counter,
      for every counter value, exactly when the queue size divides 65536. */
  lemma SlotsSurviveWrap(num: nat)
    requires num > 0
    ensures (forall x: nat {:trigger x % 0x1_0000} :: (x % 0x1_0000) % num == x % num) <==> 0x1_0000 % num == 0
  {
    if 0x1_0000 % num == 0 {
      forall x: nat
        ensures (x % 0x1_0000) % num == x % num
      {
        ModuloDrop(x, 0x1_0000, num);
      }
    } else {
      var x: nat := 0x1_0000;
      assert (x % 0x1_0000) % num == 0 != x % num;
    }
  }

  /** Free descriptors and untaken available entries fit the queue together. */
  lemma AvailFits(r: Ring)
    requires Inv(r)
    ensures |r.avail| - r.taken + |r.free| <= r.num
  {
    HeadsAreNotFree(r);
    Pigeonhole(r.avail[r.taken..] + r.free, r.num);
  }

  /** While a descriptor is free, the slot AddBuf writes is not one the device has yet to read. */
  lemma AvailSlotIsFree(r: Ring, i: nat)
    requires Inv(r) && |r.free| >= 1 && r.taken <= i < |r.avail|
    ensures i % r.num != |r.avail| % r.num
  {
    AvailFits(r);
    SlotsDiffer(i, |r.avail|, r.num);
  }

  /** Without corrupt entries the device always has room for a completion. */
  lemma UsedRingHasRoom(r: Ring, head: nat)
    requires Inv(r) && head in r.stage && r.stage[head] == Held
    requires forall p :: r.consumed <= p < |r.used| ==> r.used[p].id < r.num
    ensures |r.used| - r.consumed < r.num
  {
    HeadsAreNotFree(r);
    PendingFit(r, head);
  }

  function PendingIds(r: Ring): (ids: seq<nat>)
    requires r.consumed <= |r.used|
  {
    seq<nat>(|r.used| - r.consumed,
             (i: nat) requires i < |r.used| - r.consumed => var id: nat := r.used[r.consumed + i].id; id)
  }

  lemma PendingFit(r: Ring, head: nat)
    requires UsedOk(r) && head in r.stage && r.stage[head] == Held && head < r.num
    requires forall p :: r.consumed <= p < |r.used| ==> r.used[p].id < r.num
    ensures |r.used| - r.consumed < r.num
  {
    var pending := PendingIds(r);
    forall i | 0 <= i < |pending|
      ensures pending[i] in r.stage && r.stage[pending[i]] == Used(r.consumed + i)
    {
    }
    Pigeonhole(pending + [head], r.num);
  }
}
