/** Whole runs on the queue in memory, on both byte orders. */
module QueueRuns {
  import opened Bag
  import opened Machine
  import opened Ring
  import opened VirtQueue

  /** What GetBuf hands back: a cookie, or NULL. */
  function CookieOf(out: Output): (c: nat) {
    if out.Returned? then out.cookie else 0
  }

  /** The non-NULL cookies a run hands back. */
  function Cookies(outs: seq<Output>): (cs: seq<nat>) {
    if outs == [] then [] else AsList(CookieOf(outs[0])) + Cookies(outs[1..])
  }

  function AsList(c: nat): (cs: seq<nat>) {
    if c == 0 then [] else [c]
  }

  /** One event on the queue in memory; `cookie` is what GetBuf returned. */
  method Execute(q: VirtQueue, e: Event) returns (cookie: nat)
    requires q.Valid() && Enabled(q.ring, e)
    modifies q, q.desc, q.availRing, q.usedRing, q.cookies
    ensures q.Valid() && q.ring == Step(old(q.ring), e).0
    ensures cookie == CookieOf(Step(old(q.ring), e).1)
  {
    hide Represents, Heads, Partition, AvailOk, UsedOk;
    q.Facts();
    HeadsAreNotFree(q.ring);
    cookie := 0;
    match e {
      case Submit(req) => var _ := q.AddBuf(req.sg, req.out, req.cookie);
      case Poll => var len; cookie, len := q.GetBuf();
      case Take => var _, _ := q.DeviceTake();
      case Finish(head, len) => q.DeviceUse(UsedElem(head, len));
      case Corrupt(elem) => q.DeviceUse(elem);
    }
  }

  lemma RunStep(r: Ring, es: seq<Event>)
    requires Inv(r) && Legal(r, es) && es != []
    ensures Enabled(r, es[0]) && Inv(Step(r, es[0]).0) && Legal(Step(r, es[0]).0, es[1..])
    ensures RunRing(r, es).0 == RunRing(Step(r, es[0]).0, es[1..]).0
    ensures Cookies(RunRing(r, es).1) ==
            AsList(CookieOf(Step(r, es[0]).1)) + Cookies(RunRing(Step(r, es[0]).0, es[1..]).1)
  {
    StepKeepsInv(r, es[0]);
    assert RunRing(r, es).1[1..] == RunRing(Step(r, es[0]).0, es[1..]).1;
  }

  lemma RunNothing(r: Ring)
    requires Inv(r)
    ensures Legal(r, []) && RunRing(r, []).0 == r && Cookies(RunRing(r, []).1) == []
  {
  }

  /** Any interleaving of AddBuf, GetBuf and device moves on the queue in memory does what
      the queue on values does, and returns its cookies; so it refines the bag. */
  method Run(q: VirtQueue, es: seq<Event>) returns (cookies: seq<nat>)
    requires q.Valid() && Inv(q.ring) && Legal(q.ring, es)
    modifies q, q.desc, q.availRing, q.usedRing, q.cookies
    ensures q.Valid() && q.ring == RunRing(old(q.ring), es).0
    ensures cookies == Cookies(RunRing(old(q.ring), es).1)
  {
    hide Represents, Inv, Legal, RunRing, Cookies, Step, CookieOf;
    cookies := [];
    ghost var r := q.ring;
    assert es[0..] == es;
    for i := 0 to |es|
      invariant q.Valid() && Inv(q.ring) && Legal(q.ring, es[i..])
      invariant RunRing(r, es).0 == RunRing(q.ring, es[i..]).0
      invariant Cookies(RunRing(r, es).1) == cookies + Cookies(RunRing(q.ring, es[i..]).1)
    {
      RunStep(q.ring, es[i..]);
      assert es[i..][1..] == es[i + 1..];
      var cookie := Execute(q, es[i]);
      if cookie != 0 {
        cookies := cookies + [cookie];
      }
      q.Facts();
    }
    RunNothing(q.ring);
  }

  /** The little-endian queue follows the native queue step for step: from the same state,
      every run leaves both in the same state and returns the same cookies. */
  method RunBoth(legacy: VirtQueue, modern: VirtQueue, es: seq<Event>) returns (a: seq<nat>, b: seq<nat>)
    requires legacy.Valid() && modern.Valid() && !legacy.modern && modern.modern
    requires legacy.ring == modern.ring && Inv(legacy.ring) && Legal(legacy.ring, es)
    requires legacy != modern && legacy.desc != modern.desc && legacy.usedRing != modern.usedRing
    requires {legacy.availRing as object, legacy.cookies} !! {modern.availRing as object, modern.cookies}
    modifies legacy, legacy.desc, legacy.availRing, legacy.usedRing, legacy.cookies
    modifies modern, modern.desc, modern.availRing, modern.usedRing, modern.cookies
    ensures legacy.Valid() && modern.Valid() && legacy.ring == modern.ring && a == b
    ensures Corresponds(legacy.Snapshot(), modern.Snapshot(), legacy.ring)
  {
    hide Represents, Inv;
    a := Run(legacy, es);
    b := Run(modern, es);
    LayoutsCorrespond(legacy.Snapshot(), modern.Snapshot(), legacy.ring);
  }

  /** Two memories, native `l` and little-endian `m`, of one queue: descriptors of chains have
      every field swapped except the last link, which neither side reads; links of the free
      list are not swapped. Ring entries still to be read are swapped; cookies are the same. */
  ghost predicate Corresponds(l: Memory, m: Memory, r: Ring) {
    CountersCorrespond(l, m) && FreeCorresponds(l, m, r) && ChainsCorrespond(l, m, r)
    && RingsCorrespond(l, m, r) && CookiesCorrespond(l, m, r)
  }

  predicate CountersCorrespond(l: Memory, m: Memory) {
    l.numFree == m.numFree && l.lastUsedIdx == m.lastUsedIdx && l.deviceIdx == m.deviceIdx
    && m.availIdx == Swap16(l.availIdx) && m.usedIdx == Swap16(l.usedIdx)
  }

  ghost predicate RingsCorrespond(l: Memory, m: Memory, r: Ring) {
    |l.availRing| == |m.availRing| == |l.usedRing| == |m.usedRing| == r.num > 0
    && (forall i :: r.taken <= i < |r.avail| ==> m.availRing[i % r.num] == Swap16(l.availRing[i % r.num]))
    && (forall p :: r.consumed <= p < |r.used| ==>
          var x, y := l.usedRing[p % r.num], m.usedRing[p % r.num];
          y.id == Swap32(x.id) && y.len == Swap32(x.len))
  }

  ghost predicate CookiesCorrespond(l: Memory, m: Memory, r: Ring) {
    forall h :: h in r.chains ==> h < |l.cookies| == |m.cookies| && l.cookies[h] == m.cookies[h]
  }

  ghost predicate FreeCorresponds(l: Memory, m: Memory, r: Ring) {
    (r.free != [] ==> l.freeHead == m.freeHead)
    && forall i :: 0 <= i < |r.free| - 1 ==>
         r.free[i] < |l.desc| == |m.desc| && m.desc[r.free[i]].next == l.desc[r.free[i]].next
  }

  ghost predicate ChainsCorrespond(l: Memory, m: Memory, r: Ring) {
    forall h, k :: h in r.chains && 0 <= k < |r.chains[h].ids| ==>
      var x := r.chains[h].ids[k];
      x < |l.desc| == |m.desc| && Swapped(l.desc[x], m.desc[x], k < |r.chains[h].ids| - 1)
  }

  predicate Swapped(l: Desc, m: Desc, linked: bool) {
    m.addr == Swap64(l.addr) && m.len == Swap32(l.len) && m.flags == Swap16(l.flags)
    && (linked ==> m.next == Swap16(l.next))
  }

  lemma LinkedSwaps(l: Desc, m: Desc, req: Request, ids: seq<nat>, k: nat)
    requires Linked(false, l, req, ids, k) && Linked(true, m, req, ids, k)
    ensures Swapped(l, m, k < |ids| - 1)
  {
  }

  lemma ChainsSwap(l: Memory, m: Memory, r: Ring)
    requires Chains(false, l, r) && Chains(true, m, r) && |l.desc| == |m.desc| && |l.cookies| == |m.cookies|
    ensures ChainsCorrespond(l, m, r) && CookiesCorrespond(l, m, r)
  {
    forall h, k | h in r.chains && 0 <= k < |r.chains[h].ids|
      ensures var x := r.chains[h].ids[k];
              x < |l.desc| == |m.desc| && Swapped(l.desc[x], m.desc[x], k < |r.chains[h].ids| - 1)
    {
      var c := r.chains[h];
      LinkedSwaps(l.desc[c.ids[k]], m.desc[c.ids[k]], c.req, c.ids, k);
    }
  }

  lemma LayoutsCorrespond(l: Memory, m: Memory, r: Ring)
    requires Represents(false, l, r) && Represents(true, m, r)
    ensures Corresponds(l, m, r)
  {
    hide Inv, Chains, FreeLinks, AvailSlots, UsedSlots;
    hide ChainsCorrespond, FreeCorresponds, RingsCorrespond, CookiesCorrespond;
    ChainsSwap(l, m, r);
    FreeAgrees(l, m, r);
    RingsSwap(l, m, r);
  }

  lemma RingsSwap(l: Memory, m: Memory, r: Ring)
    requires AvailSlots(false, l.availRing, r) && AvailSlots(true, m.availRing, r)
    requires UsedSlots(false, l.usedRing, r) && UsedSlots(true, m.usedRing, r)
    ensures RingsCorrespond(l, m, r)
  {
    hide Swap16, Swap32;
  }

  lemma FreeAgrees(l: Memory, m: Memory, r: Ring)
    requires FreeLinks(l.desc, r.free, l.freeHead) && FreeLinks(m.desc, r.free, m.freeHead) && |l.desc| == |m.desc|
    ensures FreeCorresponds(l, m, r)
  {
    forall i | 0 <= i < |r.free| - 1
      ensures r.free[i] < |l.desc| == |m.desc| && m.desc[r.free[i]].next == l.desc[r.free[i]].next
    {
      assert l.desc[r.free[i]].next == r.free[i + 1];
    }
  }
}
