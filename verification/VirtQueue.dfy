/** The driver's split virtqueue: descriptor table, available and used ring in memory shared
    with the device, 16-bit counters, and native or little-endian fields. */
module VirtQueue {
  import opened Counting
  import opened Machine
  import opened Modulo
  import opened Ring

  /** VRING_DESC_F_NEXT and VRING_DESC_F_WRITE */
  const F_NEXT: u16 := 1
  const F_WRITE: u16 := 2

  datatype Desc = Desc(addr: u64, len: u32, flags: u16, next: u16)

  /** The flags of entry `k`: the device writes entries from `out` on, and all but the last
      continue the chain. */
  function Flags(req: Request, k: nat): (f: u16)
    ensures f % 2 == 1 <==> k < |req.sg| - 1
    ensures f / 2 == 1 <==> k >= req.out
  {
    (if k >= req.out then F_WRITE else 0) + (if k < |req.sg| - 1 then F_NEXT else 0)
  }

  /** Descriptor `d` as the device must find it: entry `k` of `req`, linked to `ids[k + 1]`. */
  predicate Linked(modern: bool, d: Desc, req: Request, ids: seq<nat>, k: nat) {
    k < |req.sg| == |ids|
    && d.addr == Vr64(modern, req.sg[k].addr)
    && d.len == Vr32(modern, req.sg[k].len)
    && d.flags == Vr16(modern, Flags(req, k))
    && (k < |ids| - 1 ==> ids[k + 1] < 0x1_0000 && d.next == Vr16(modern, ids[k + 1]))
  }

  function Wire(modern: bool, e: UsedElem): (w: UsedElem) {
    UsedElem(Vr32(modern, e.id), Vr32(modern, e.len))
  }

  /** Links of free descriptors are in native order on both layouts; the last free
      descriptor's link, and the list head when nothing is free, are left over. */
  ghost predicate FreeLinks(desc: seq<Desc>, free: seq<nat>, freeHead: u16) {
    && NoDup(free) && freeHead < |desc| <= 32768
    && (forall i :: 0 <= i < |free| ==> free[i] < |desc| && desc[free[i]].next < |desc|)
    && (free != [] ==> freeHead == free[0])
    && (forall i :: 0 <= i < |free| - 1 ==> desc[free[i]].next == free[i + 1])
  }

  ghost predicate ChainLinks(modern: bool, desc: seq<Desc>, c: Chain) {
    |c.ids| == |c.req.sg|
    && forall k :: 0 <= k < |c.ids| ==> c.ids[k] < |desc| && Linked(modern, desc[c.ids[k]], c.req, c.ids, k)
  }

  ghost predicate AvailSlots(modern: bool, slots: seq<u16>, r: Ring) {
    |slots| == r.num > 0
    && forall i :: r.taken <= i < |r.avail| ==> r.avail[i] < 0x1_0000 && slots[i % r.num] == Vr16(modern, r.avail[i])
  }

  ghost predicate UsedSlots(modern: bool, slots: seq<UsedElem>, r: Ring) {
    |slots| == r.num > 0
    && forall p :: r.consumed <= p < |r.used| ==> slots[p % r.num] == Wire(modern, r.used[p])
  }

  /** The queue's memory and counters. `deviceIdx` is the device's own position in the
      available ring. */
  datatype Memory = Memory(
    desc: seq<Desc>, availRing: seq<u16>, usedRing: seq<UsedElem>, cookies: seq<nat>,
    availIdx: u16, usedIdx: u16, freeHead: u16, numFree: u16, lastUsedIdx: u16, deviceIdx: u16)

  ghost predicate Counters(modern: bool, m: Memory, r: Ring) {
    && m.numFree == |r.free|
    && m.availIdx == Vr16(modern, |r.avail| % 0x1_0000)
    && m.usedIdx == Vr16(modern, |r.used| % 0x1_0000)
    && m.lastUsedIdx == r.consumed % 0x1_0000
    && m.deviceIdx == r.taken % 0x1_0000
  }

  ghost predicate Chains(modern: bool, m: Memory, r: Ring) {
    forall h :: h in r.chains ==>
      h < |m.cookies| && m.cookies[h] == r.chains[h].req.cookie && ChainLinks(modern, m.desc, r.chains[h])
  }

  /** The memory stands for the queue `r`. */
  ghost predicate Represents(modern: bool, m: Memory, r: Ring) {
    && |m.desc| == |m.cookies| == r.num
    && Counters(modern, m, r)
    && FreeLinks(m.desc, r.free, m.freeHead)
    && Chains(modern, m, r)
    && AvailSlots(modern, m.availRing, r)
    && UsedSlots(modern, m.usedRing, r)
    && Inv(r)
  }

  // ---- What each operation's writes do to the representation ----

  /** The slot of a wrapped counter, on a queue whose size divides 65536. */
  lemma SlotOf(x: nat, num: nat)
    requires QueueSize(num)
    ensures (x % 0x1_0000) % num == x % num < num
  {
    ModuloDrop(x, 0x1_0000, num);
  }

  lemma CounterStep(count: nat)
    ensures (count % 0x1_0000 + 1) % 0x1_0000 == (count + 1) % 0x1_0000
  {
  }

  lemma AvailPublished(modern: bool, slots: seq<u16>, r: Ring, req: Request)
    requires Inv(r) && WellFormed(req) && |req.sg| <= |r.free| && AvailSlots(modern, slots, r)
    requires r.free[0] < r.num
    ensures AvailSlots(modern, slots[|r.avail| % r.num := Vr16(modern, r.free[0])], Submitted(r, req))
  {
    var r' := Submitted(r, req);
    var slots' := slots[|r.avail| % r.num := Vr16(modern, r.free[0])];
    forall i | r'.taken <= i < |r'.avail|
      ensures r'.avail[i] < 0x1_0000 && slots'[i % r.num] == Vr16(modern, r'.avail[i])
    {
      if i < |r.avail| {
        AvailSlotIsFree(r, i);
        assert r'.avail[i] == r.avail[i] && slots[i % r.num] == Vr16(modern, r.avail[i]);
      }
    }
  }

  /** The first `n` free descriptors became the first `n` entries of the chain of `req`;
      nothing else changed. */
  ghost predicate Linking(modern: bool, before: seq<Desc>, after: seq<Desc>, free: seq<nat>, req: Request, n: nat) {
    && n <= |req.sg| <= |free| && |before| == |after|
    && (forall i :: 0 <= i < |free| ==> free[i] < |before|)
    && (forall k :: 0 <= k < n ==> Linked(modern, after[free[k]], req, free[..|req.sg|], k))
    && (forall x :: 0 <= x < |before| && x !in free[..n] ==> after[x] == before[x])
  }

  ghost predicate ChainWritten(modern: bool, before: seq<Desc>, after: seq<Desc>, free: seq<nat>, req: Request) {
    Linking(modern, before, after, free, req, |req.sg|)
  }

  lemma LinkNone(modern: bool, before: seq<Desc>, free: seq<nat>, req: Request, head: u16)
    requires FreeLinks(before, free, head) && 1 <= |req.sg| <= |free|
    ensures Linking(modern, before, before, free, req, 0) && head == free[0] && head < |before|
  {
  }

  lemma LinkStep(modern: bool, before: seq<Desc>, after: seq<Desc>, free: seq<nat>, req: Request, n: nat, d: Desc)
    requires Linking(modern, before, after, free, req, n) && NoDup(free) && n < |req.sg|
    requires Linked(modern, d, req, free[..|req.sg|], n)
    ensures Linking(modern, before, after[free[n] := d], free, req, n + 1)
  {
    hide Linked;
    assert free[..n + 1] == free[..n] + [free[n]];
  }

  /** The loop of AddBuf reads the free list as it was: the entry it is about to write. */
  lemma LinkNext(modern: bool, before: seq<Desc>, after: seq<Desc>, free: seq<nat>, req: Request, n: nat, head: u16)
    requires Linking(modern, before, after, free, req, n) && FreeLinks(before, free, head) && n < |req.sg|
    ensures free[n] < |after| == |before| && after[free[n]].next < |after|
    ensures n + 1 < |free| ==> after[free[n]].next == free[n + 1]
  {
    assert free[n] !in free[..n];
  }

  lemma EntryLinked(modern: bool, d: Desc, req: Request, ids: seq<nat>, n: nat, flags: u16, next: u16)
    requires n < |req.sg| == |ids|
    requires flags == (if n >= req.out then F_WRITE else 0) + (if n < |req.sg| - 1 then F_NEXT else 0)
    requires n < |ids| - 1 ==> next == ids[n + 1]
    requires d == Desc(Vr64(modern, req.sg[n].addr), Vr32(modern, req.sg[n].len), Vr16(modern, flags),
                       if n < |ids| - 1 then Vr16(modern, next) else next)
    ensures Linked(modern, d, req, ids, n)
  {
  }

  lemma FreeAfterSubmit(modern: bool, before: seq<Desc>, after: seq<Desc>, free: seq<nat>, req: Request,
                        head: u16, next: u16)
    requires FreeLinks(before, free, head) && Linking(modern, before, after, free, req, |req.sg|)
    requires next < |before| && (|req.sg| < |free| ==> next == free[|req.sg|])
    ensures FreeLinks(after, free[|req.sg|..], next)
  {
    forall i | |req.sg| <= i < |free|
      ensures free[i] !in free[..|req.sg|]
    {
    }
  }

  lemma ChainUntouched(modern: bool, before: seq<Desc>, after: seq<Desc>, c: Chain, touched: seq<nat>)
    requires ChainLinks(modern, before, c) && |before| == |after|
    requires forall x :: 0 <= x < |before| && x !in touched ==> after[x] == before[x]
    requires forall k :: 0 <= k < |c.ids| ==> c.ids[k] !in touched
    ensures ChainLinks(modern, after, c)
  {
    hide Linked;
  }

  lemma ChainsAfterSubmit(modern: bool, m: Memory, m': Memory, r: Ring, req: Request)
    requires Chains(modern, m, r) && WellFormed(req)
    requires forall h :: h in r.chains ==> h !in r.free
    requires forall h, k :: h in r.chains && 0 <= k < |r.chains[h].ids| ==> r.chains[h].ids[k] !in r.free
    requires ChainWritten(modern, m.desc, m'.desc, r.free, req)
    requires r.free[0] < |m.cookies| && m'.cookies == m.cookies[r.free[0] := req.cookie]
    ensures Chains(modern, m', Submitted(r, req))
  {
    hide Linked;
    var r' := Submitted(r, req);
    assert r.free[0] in r.free && r.free[..|req.sg|] <= r.free;
    forall h | h in r'.chains
      ensures h < |m'.cookies| && m'.cookies[h] == r'.chains[h].req.cookie && ChainLinks(modern, m'.desc, r'.chains[h])
    {
      if h != r.free[0] {
        ChainUntouched(modern, m.desc, m'.desc, r.chains[h], r.free[..|req.sg|]);
      }
    }
  }

  /** The memory after AddBuf wrote the chain into `desc` and `next` became the free head. */
  function PublishedMemory(modern: bool, m: Memory, r: Ring, req: Request, desc: seq<Desc>, next: u16): (m': Memory)
    requires |req.sg| <= m.numFree && m.freeHead < |m.cookies|
    requires r.num > 0 && |m.availRing| == r.num
  {
    m.(desc := desc, freeHead := next, numFree := m.numFree - |req.sg|,
       cookies := m.cookies[m.freeHead := req.cookie],
       availRing := m.availRing[|r.avail| % r.num := Vr16(modern, m.freeHead)],
       availIdx := Vr16(modern, (|r.avail| + 1) % 0x1_0000))
  }

  lemma SubmitRepresents(modern: bool, m: Memory, r: Ring, req: Request, desc: seq<Desc>, next: u16)
    requires Represents(modern, m, r) && WellFormed(req) && |req.sg| <= |r.free|
    requires ChainWritten(modern, m.desc, desc, r.free, req)
    requires next < r.num && (|req.sg| < |r.free| ==> next == r.free[|req.sg|])
    ensures Represents(modern, PublishedMemory(modern, m, r, req, desc, next), Submitted(r, req))
  {
    hide Vr16, Inv, FreeLinks, Chains, AvailSlots, UsedSlots, Counters, Linking, Submitted;
    SubmitFacts(modern, m, r, req, desc);
    HeadsAreNotFree(r);
    ChainsAreNotFree(r);
    FreeAfterSubmit(modern, m.desc, desc, r.free, req, m.freeHead, next);
    ChainsAfterSubmit(modern, m, PublishedMemory(modern, m, r, req, desc, next), r, req);
    AvailPublished(modern, m.availRing, r, req);
    SubmitKeepsInv(r, req);
    SubmitRest(modern, m, r, req, desc, next);
  }

  lemma SubmitFacts(modern: bool, m: Memory, r: Ring, req: Request, desc: seq<Desc>)
    requires Represents(modern, m, r) && WellFormed(req) && |req.sg| <= |r.free|
    requires ChainWritten(modern, m.desc, desc, r.free, req)
    ensures m.freeHead == r.free[0] < r.num == |m.availRing| && |desc| == r.num > 0 && m.numFree == |r.free|
  {
    hide Inv, Chains, UsedSlots;
  }

  lemma SubmitRest(modern: bool, m: Memory, r: Ring, req: Request, desc: seq<Desc>, next: u16)
    requires Counters(modern, m, r) && UsedSlots(modern, m.usedRing, r) && 1 <= |req.sg| <= |r.free|
    requires m.freeHead < |m.cookies| && r.num > 0 && |m.availRing| == r.num
    ensures var r', m' := Submitted(r, req), PublishedMemory(modern, m, r, req, desc, next);
      r'.num == r.num && r'.free == r.free[|req.sg|..] && Counters(modern, m', r') && UsedSlots(modern, m'.usedRing, r')
  {
    hide Vr16, Wire;
  }

  /** A published descriptor that is still free stands for no queue. */
  lemma FreePublished(modern: bool, m: Memory, r: Ring)
    requires m.numFree > 0 && r.taken < |r.avail| && QueueSize(r.num) && |m.availRing| == r.num
    requires m.availRing[(|r.avail| - 1) % r.num] == Vr16(modern, m.freeHead)
    ensures !Represents(modern, m, r)
  {
    var i := |r.avail| - 1;
    assert Vr16(modern, m.availRing[i % r.num]) == m.freeHead;
    if Represents(modern, m, r) {
      HeadsAreNotFree(r);
      assert false;
    }
  }

  /** What GetBuf and the device read back from a chain's descriptor. */
  lemma LinkedDecodes(modern: bool, d: Desc, req: Request, ids: seq<nat>, k: nat)
    requires Linked(modern, d, req, ids, k)
    ensures Vr64(modern, d.addr) == req.sg[k].addr && Vr32(modern, d.len) == req.sg[k].len
    ensures Vr16(modern, d.flags) % 2 == 1 <==> k < |ids| - 1
    ensures Vr16(modern, d.flags) / 2 % 2 == 1 <==> k >= req.out
    ensures k < |ids| - 1 ==> Vr16(modern, d.next) == ids[k + 1]
  {
    assert Vr64(modern, Vr64(modern, req.sg[k].addr)) == req.sg[k].addr;
    assert Vr32(modern, Vr32(modern, req.sg[k].len)) == req.sg[k].len;
    assert Vr16(modern, Vr16(modern, Flags(req, k))) == Flags(req, k);
  }

  // ---- AddBuf with no entries when nothing is free ----

  /** What AddBuf with no entries does to the memory: it publishes the list head, whatever it is. */
  function Republished(modern: bool, m: Memory, r: Ring, cookie: nat): (m': Memory)
    requires m.freeHead < |m.cookies| && r.num > 0 && |m.availRing| == r.num
  {
    m.(cookies := m.cookies[m.freeHead := cookie],
       availRing := m.availRing[|r.avail| % r.num := Vr16(modern, m.freeHead)],
       availIdx := Vr16(modern, (|r.avail| + 1) % 0x1_0000))
  }

  /** The queue `r'` is `r` with `head` published once more. */
  predicate Follows(r: Ring, r': Ring, head: nat) {
    r'.num == r.num && r'.taken == r.taken && r'.avail == r.avail + [head]
    && r'.used == r.used && r'.consumed == r.consumed
  }

  /** The chain at `head` is back in the available ring, under another cookie. */
  function Again(r: Ring, head: nat, cookie: nat): (r': Ring)
    requires head in r.chains
  {
    var c := r.chains[head];
    r.(chains := r.chains[head := c.(req := c.req.(cookie := cookie), ticket := |r.avail|)],
       stage := r.stage[head := Published],
       avail := r.avail + [head])
  }

  lemma AgainKeepsHeads(r: Ring, head: nat, cookie: nat)
    requires Heads(r) && head in r.chains
    ensures Heads(Again(r, head, cookie))
  {
  }

  lemma AgainKeepsAvail(r: Ring, head: nat, cookie: nat)
    requires AvailOk(r) && head in r.chains && head in r.stage && r.stage[head] == Held
    ensures AvailOk(Again(r, head, cookie))
  {
  }

  lemma AgainKeepsUsed(r: Ring, head: nat, cookie: nat)
    requires UsedOk(r) && head in r.chains && head in r.stage && r.stage[head] == Held
    ensures UsedOk(Again(r, head, cookie))
  {
  }

  lemma AgainKeepsInv(r: Ring, head: nat, cookie: nat)
    requires Inv(r) && head in r.stage && r.stage[head] == Held && head in r.chains
    ensures Inv(Again(r, head, cookie))
  {
    hide Heads, AvailOk, UsedOk, Partition;
    AgainKeepsHeads(r, head, cookie);
    AgainKeepsAvail(r, head, cookie);
    AgainKeepsUsed(r, head, cookie);
    assert Ids(Again(r, head, cookie)) == Ids(r);
  }

  lemma HeldFits(r: Ring, head: nat)
    requires AvailOk(r) && head in r.stage && r.stage[head] == Held && head < r.num
    requires forall h :: h in r.chains ==> h < r.num
    ensures |r.avail| - r.taken < r.num
  {
    Pigeonhole(r.avail[r.taken..] + [head], r.num);
  }

  lemma AgainSlotIsFree(r: Ring, head: nat, i: nat)
    requires Inv(r) && head in r.stage && r.stage[head] == Held && r.taken <= i < |r.avail|
    ensures i % r.num != |r.avail| % r.num
  {
    hide Heads, Partition, UsedOk;
    HeadsAreNotFree(r);
    HeldFits(r, head);
    SlotsDiffer(i, |r.avail|, r.num);
  }

  lemma AgainSlots(modern: bool, slots: seq<u16>, r: Ring, head: u16, cookie: nat)
    requires Inv(r) && AvailSlots(modern, slots, r) && head in r.chains && head in r.stage && r.stage[head] == Held
    ensures AvailSlots(modern, slots[|r.avail| % r.num := Vr16(modern, head)], Again(r, head, cookie))
  {
    hide Inv, Vr16;
    var r', slots' := Again(r, head, cookie), slots[|r.avail| % r.num := Vr16(modern, head)];
    forall i | r'.taken <= i < |r'.avail|
      ensures r'.avail[i] < 0x1_0000 && slots'[i % r.num] == Vr16(modern, r'.avail[i])
    {
      if i < |r.avail| {
        AgainSlotIsFree(r, head, i);
      }
    }
  }

  lemma AgainChains(modern: bool, m: Memory, r: Ring, cookie: nat)
    requires Chains(modern, m, r) && m.freeHead in r.chains && m.freeHead < |m.cookies|
    requires r.num > 0 && |m.availRing| == r.num
    ensures Chains(modern, Republished(modern, m, r, cookie), Again(r, m.freeHead, cookie))
  {
    hide Vr16, Vr32, Vr64;
  }

  lemma AgainRest(modern: bool, m: Memory, r: Ring, cookie: nat)
    requires m.freeHead in r.chains && m.freeHead < |m.cookies| && r.num > 0 && |m.availRing| == r.num
    requires Counters(modern, m, r) && UsedSlots(modern, m.usedRing, r)
    ensures Counters(modern, Republished(modern, m, r, cookie), Again(r, m.freeHead, cookie))
    ensures UsedSlots(modern, m.usedRing, Again(r, m.freeHead, cookie))
  {
    hide Vr16, Wire;
  }

  lemma HeldAgain(modern: bool, m: Memory, r: Ring, cookie: nat)
    requires Represents(modern, m, r) && m.freeHead in r.stage && r.stage[m.freeHead] == Held
    ensures m.freeHead in r.chains
    ensures Represents(modern, Republished(modern, m, r, cookie), Again(r, m.freeHead, cookie))
  {
    hide Vr16, Chains, AvailSlots, UsedSlots, Counters, FreeLinks, Inv;
    PublishFits(modern, m, r);
    HeadsAreNotFree(r);
    AgainKeepsInv(r, m.freeHead, cookie);
    AgainSlots(modern, m.availRing, r, m.freeHead, cookie);
    AgainChains(modern, m, r, cookie);
    AgainRest(modern, m, r, cookie);
  }

  lemma PublishFits(modern: bool, m: Memory, r: Ring)
    requires Represents(modern, m, r)
    ensures m.freeHead < |m.cookies| == |m.desc| == r.num == |m.availRing| && r.num > 0
  {
    hide Inv, Chains, UsedSlots;
  }

  /** With nothing free every descriptor has its place in a chain. */
  lemma PlaceOf(r: Ring, x: nat) returns (g: nat, i: nat)
    requires Partition(r.num, r.free, Ids(r)) && r.free == [] && x < r.num
    ensures g in r.chains && i < |r.chains[g].ids| && r.chains[g].ids[i] == x
  {
    assert Owned(Ids(r), x);
    g :| g in Ids(r) && x in Ids(r)[g];
    i :| 0 <= i < |r.chains[g].ids| && r.chains[g].ids[i] == x;
  }

  lemma InnerIsNoHead(r: Ring, g: nat, i: nat)
    requires Heads(r) && Partition(r.num, r.free, Ids(r)) && g in r.chains && 0 < i < |r.chains[g].ids|
    ensures r.chains[g].ids[i] !in r.chains
  {
    assert Ids(r)[g][i] == r.chains[g].ids[i];
    assert forall h :: h in r.chains ==> Ids(r)[h][0] == h;
  }

  /** A descriptor that another one links to is no head. */
  lemma LinkedIsNoHead(modern: bool, m: Memory, r: Ring, x: nat, head: nat)
    requires Chains(modern, m, r) && Heads(r) && Partition(r.num, r.free, Ids(r)) && |m.desc| == r.num && r.free == []
    requires x < r.num && Vr16(modern, m.desc[x].flags) % 2 == 1 && Vr16(modern, m.desc[x].next) == head
    ensures head !in r.chains
  {
    hide Vr16, Linked, Partition;
    var g, i := PlaceOf(r, x);
    var c := r.chains[g];
    LinkedDecodes(modern, m.desc[x], c.req, c.ids, i);
    InnerIsNoHead(r, g, i + 1);
  }

  /** With nothing free the list head lies in an outstanding chain. Published once more, it
      leaves a queue exactly if it is the head of a chain the device holds: that chain is then
      posted a second time, and its cookie is gone. */
  lemma RepublishExact(modern: bool, m: Memory, r: Ring, cookie: nat)
    requires Represents(modern, m, r) && r.free == []
    ensures (exists r' :: Follows(r, r', m.freeHead) && Represents(modern, Republished(modern, m, r, cookie), r'))
            <==> m.freeHead in r.stage && r.stage[m.freeHead] == Held
  {
    hide Represents, Inv;
    PublishFits(modern, m, r);
    if m.freeHead in r.stage && r.stage[m.freeHead] == Held {
      HeldAgain(modern, m, r, cookie);
      assert Follows(r, Again(r, m.freeHead, cookie), m.freeHead);
    }
    if r' :| Follows(r, r', m.freeHead) && Represents(modern, Republished(modern, m, r, cookie), r') {
      OnlyHeld(modern, m, r, cookie, r');
    }
  }

  lemma OnlyHeld(modern: bool, m: Memory, r: Ring, cookie: nat, r': Ring)
    requires Represents(modern, m, r) && r.free == []
    requires Follows(r, r', m.freeHead) && Represents(modern, Republished(modern, m, r, cookie), r')
    ensures m.freeHead in r.stage && r.stage[m.freeHead] == Held
  {
    hide Chains, AvailSlots, UsedSlots, Counters, FreeLinks, Partition;
    PublishFits(modern, m, r);
    IsHead(modern, m, r, cookie, r');
    HeadWasHeld(r, r', m.freeHead);
  }

  lemma HeadWasHeld(r: Ring, r': Ring, head: nat)
    requires Heads(r) && AvailOk(r) && UsedOk(r) && AvailOk(r') && UsedOk(r') && head < r.num
    requires Follows(r, r', head) && head in r.chains
    ensures head in r.stage && r.stage[head] == Held
  {
    assert r'.avail[|r.avail|] == head && r'.avail[r.chains[head].ticket] == head;
  }

  lemma IsHead(modern: bool, m: Memory, r: Ring, cookie: nat, r': Ring)
    requires Represents(modern, m, r) && r.free == []
    requires Follows(r, r', m.freeHead) && Represents(modern, Republished(modern, m, r, cookie), r')
    ensures m.freeHead in r.chains
  {
    hide Vr16, ChainLinks, AvailSlots, UsedSlots, Counters, FreeLinks, Partition, UsedOk, Chains, Heads;
    PublishFits(modern, m, r);
    assert r'.avail[|r.avail|] == m.freeHead && m.freeHead in r'.chains;
    assert r'.free == [] by { FreeCount(modern, m, r, cookie, r'); }
    if m.freeHead !in r.chains {
      var x := LinkedTo(modern, m, r, m.freeHead);
      LinkedIsNoHead(modern, Republished(modern, m, r, cookie), r', x, m.freeHead);
      assert false;
    }
  }

  lemma FreeCount(modern: bool, m: Memory, r: Ring, cookie: nat, r': Ring)
    requires Represents(modern, m, r) && r.free == []
    requires m.freeHead < |m.cookies| && r.num > 0 && |m.availRing| == r.num
    requires Represents(modern, Republished(modern, m, r, cookie), r')
    ensures r'.free == []
  {
    hide Inv, Chains, UsedSlots, AvailSlots, FreeLinks;
  }

  /** With nothing free, a descriptor that is no head has one that links to it. */
  lemma LinkedTo(modern: bool, m: Memory, r: Ring, y: nat) returns (x: nat)
    requires Chains(modern, m, r) && Heads(r) && Partition(r.num, r.free, Ids(r)) && |m.desc| == r.num && r.free == []
    requires y < r.num && y !in r.chains
    ensures x < r.num && Vr16(modern, m.desc[x].flags) % 2 == 1 && Vr16(modern, m.desc[x].next) == y
  {
    hide Vr16, Linked, Partition;
    var g, j := PlaceOf(r, y);
    var c := r.chains[g];
    x := c.ids[j - 1];
    LinkedDecodes(modern, m.desc[x], c.req, c.ids, j - 1);
  }

  predicate Cleared(d: Desc, next: nat) {
    d.addr == 0 && d.len == 0 && d.flags == 0 && d.next == next
  }

  /** The descriptor freed before entry `k` of a chain, or the free head from before. */
  function Previous(ids: seq<nat>, head: u16, k: nat): (x: nat)
    requires k <= |ids|
  {
    if k == 0 then head else ids[k - 1]
  }

  /** The first `n` of the descriptors `ids` were cleared and pushed on the free list, first
      to last; nothing else changed. */
  ghost predicate Freeing(before: seq<Desc>, after: seq<Desc>, ids: seq<nat>, head: u16, n: nat) {
    && n <= |ids| && |before| == |after| <= 32768
    && (forall k :: 0 <= k < |ids| ==> ids[k] < |after|)
    && (forall k :: 0 <= k < n ==> Cleared(after[ids[k]], Previous(ids, head, k)))
    && (forall x :: 0 <= x < |before| && x !in ids[..n] ==> after[x] == before[x])
  }

  lemma FreeStep(before: seq<Desc>, after: seq<Desc>, ids: seq<nat>, head: u16, n: nat, d: Desc)
    requires Freeing(before, after, ids, head, n) && NoDup(ids) && n < |ids|
    requires Cleared(d, Previous(ids, head, n))
    ensures Freeing(before, after[ids[n] := d], ids, head, n + 1)
  {
    hide Cleared, Previous;
    assert ids[..n + 1] == ids[..n] + [ids[n]];
  }

  lemma FreeNone(modern: bool, before: seq<Desc>, c: Chain, head: u16)
    requires ChainLinks(modern, before, c) && |before| <= 32768
    ensures Freeing(before, before, c.ids, head, 0)
  {
  }

  /** The loop of GetBuf reads the chain as AddBuf wrote it. */
  lemma FreeNext(modern: bool, before: seq<Desc>, after: seq<Desc>, c: Chain, head: u16, n: nat)
    requires Freeing(before, after, c.ids, head, n) && ChainLinks(modern, before, c) && NoDup(c.ids) && n < |c.ids|
    ensures c.ids[n] < |after| == |before|
    ensures Vr16(modern, after[c.ids[n]].flags) % 2 == 1 <==> n + 1 < |c.ids|
    ensures n + 1 < |c.ids| ==> Vr16(modern, after[c.ids[n]].next) == c.ids[n + 1]
  {
    hide Vr16, Cleared, Previous;
    assert c.ids[n] !in c.ids[..n];
    LinkedDecodes(modern, before[c.ids[n]], c.req, c.ids, n);
  }

  lemma ReclaimedNoDup(free: seq<nat>, ids: seq<nat>)
    requires NoDup(free) && NoDup(ids) && forall k :: 0 <= k < |ids| ==> ids[k] !in free
    ensures NoDup(Reverse(ids) + free)
  {
    hide Reverse;
    ReverseElements(ids);
  }

  /** The link of a freed descriptor: to the one freed before it, or to the old list head. */
  lemma FreedInner(after: seq<Desc>, ids: seq<nat>, head: u16, k: nat)
    requires k < |ids| && forall j :: 0 <= j < |ids| ==> ids[j] < |after|
    requires Cleared(after[ids[k]], Previous(ids, head, k)) && head < |after|
    ensures after[ids[k]].next < |after| && after[ids[k]].next == if k > 0 then ids[k - 1] else head
  {
  }

  lemma FreedLink(before: seq<Desc>, after: seq<Desc>, free: seq<nat>, ids: seq<nat>, head: u16, i: nat)
    requires FreeLinks(before, free, head) && Freeing(before, after, ids, head, |ids|)
    requires i < |ids| + |free| && forall k :: 0 <= k < |ids| ==> ids[k] !in free
    ensures |before| == |after|
    ensures
      var free' := Reverse(ids) + free;
      free'[i] < |after| && after[free'[i]].next < |after|
      && (i < |free'| - 1 ==> after[free'[i]].next == free'[i + 1])
  {
    hide Reverse, NoDup, Cleared, Previous;
    if i < |ids| {
      FreedInner(after, ids, head, |ids| - 1 - i);
      FreedFront(free, ids, i);
    } else {
      FreedBack(before, after, free, ids, head, i - |ids|);
    }
  }

  lemma FreedFront(free: seq<nat>, ids: seq<nat>, i: nat)
    requires i < |ids|
    ensures var free' := Reverse(ids) + free; var k := |ids| - 1 - i;
      free'[i] == ids[k] && (i < |free'| - 1 ==> free'[i + 1] == if k > 0 then ids[k - 1] else free[0])
  {
    hide Reverse;
  }

  lemma FreedBack(before: seq<Desc>, after: seq<Desc>, free: seq<nat>, ids: seq<nat>, head: u16, j: nat)
    requires FreeLinks(before, free, head) && Freeing(before, after, ids, head, |ids|)
    requires j < |free| && forall k :: 0 <= k < |ids| ==> ids[k] !in free
    ensures
      var free' := Reverse(ids) + free; var i := |ids| + j;
      free'[i] < |after| && after[free'[i]].next < |after|
      && (i < |free'| - 1 ==> after[free'[i]].next == free'[i + 1])
  {
    hide Reverse, NoDup, Cleared, Previous;
    assert ids[..|ids|] == ids;
    assert free[j] in free && free[j] !in ids;
  }

  lemma FreeAfterPoll(before: seq<Desc>, after: seq<Desc>, free: seq<nat>, ids: seq<nat>, head: u16, next: u16)
    requires FreeLinks(before, free, head) && Freeing(before, after, ids, head, |ids|)
    requires NoDup(ids) && ids != [] && next == ids[|ids| - 1] && forall k :: 0 <= k < |ids| ==> ids[k] !in free
    ensures FreeLinks(after, Reverse(ids) + free, next)
  {
    hide Reverse, NoDup, Freeing;
    var free' := Reverse(ids) + free;
    forall i | 0 <= i < |free'|
      ensures free'[i] < |after| && after[free'[i]].next < |after|
      ensures i < |free'| - 1 ==> after[free'[i]].next == free'[i + 1]
    {
      FreedLink(before, after, free, ids, head, i);
    }
    ReclaimedNoDup(free, ids);
    FreedLink(before, after, free, ids, head, 0);
    assert free'[0] == next;
  }

  /** What a completed chain at the front of the used ring guarantees. */
  ghost predicate ReadyFacts(r: Ring, id: nat) {
    && Ready(r) && id == r.used[r.consumed].id && id < r.num
    && (var ids := r.chains[id].ids;
        && ids != [] && ids[0] == id && NoDup(ids) && |ids| == |r.chains[id].req.sg| && |r.free| + |ids| <= r.num
        && (forall k :: 0 <= k < |ids| ==> ids[k] < r.num && ids[k] !in r.free)
        && forall h, k :: h in r.chains && h != id && 0 <= k < |r.chains[h].ids| ==> r.chains[h].ids[k] !in ids)
  }

  lemma ChainsAfterPoll(modern: bool, m: Memory, m': Memory, r: Ring, id: nat)
    requires Chains(modern, m, r) && ReadyFacts(r, id) && id < |m.cookies|
    requires Freeing(m.desc, m'.desc, r.chains[id].ids, m.freeHead, |r.chains[id].ids|)
    requires m'.cookies == m.cookies[id := 0]
    ensures Chains(modern, m', Recycled(r))
  {
    hide Linked, ChainLinks;
    assert r.chains[id].ids[..|r.chains[id].ids|] == r.chains[id].ids;
    forall h | h in r.chains && h != id
      ensures m'.cookies[h] == r.chains[h].req.cookie && ChainLinks(modern, m'.desc, r.chains[h])
    {
      ChainUntouched(modern, m.desc, m'.desc, r.chains[h], r.chains[id].ids);
    }
  }

  /** The memory after GetBuf freed the `freed` descriptors of the chain `id`. */
  function RecycledMemory(m: Memory, desc: seq<Desc>, id: nat, head: u16, freed: nat, consumed: nat): (m': Memory)
    requires id < |m.cookies| && m.numFree + freed < 0x1_0000
  {
    m.(desc := desc, freeHead := head, numFree := m.numFree + freed,
       cookies := m.cookies[id := 0], lastUsedIdx := (consumed + 1) % 0x1_0000)
  }

  lemma ReadyIsOwned(r: Ring)
    requires Inv(r) && Ready(r)
    ensures ReadyFacts(r, r.used[r.consumed].id)
  {
    hide AvailOk, UsedOk;
    var id := r.used[r.consumed].id;
    OthersApart(r, id);
    ChainsAreNotFree(r);
    ChainAndFree(r, id);
  }

  lemma OthersApart(r: Ring, id: nat)
    requires Partition(r.num, r.free, Ids(r)) && id in r.chains
    ensures forall h, k :: h in r.chains && h != id && 0 <= k < |r.chains[h].ids| ==>
      r.chains[h].ids[k] !in r.chains[id].ids
  {
    forall h, k | h in r.chains && h != id && 0 <= k < |r.chains[h].ids|
      ensures r.chains[h].ids[k] !in r.chains[id].ids
    {
      assert Ids(r)[h][k] !in Ids(r)[id];
    }
  }

  lemma ChainAndFree(r: Ring, id: nat)
    requires Partition(r.num, r.free, Ids(r)) && id in r.chains
    ensures NoDup(r.chains[id].ids) && |r.chains[id].ids| + |r.free| <= r.num
  {
    var ids := Ids(r)[id];
    Pigeonhole(ids + r.free, r.num);
  }

  lemma SlotsAfterPoll(modern: bool, m: Memory, r: Ring)
    requires Ready(r) && AvailSlots(modern, m.availRing, r) && UsedSlots(modern, m.usedRing, r)
    ensures AvailSlots(modern, m.availRing, Recycled(r)) && UsedSlots(modern, m.usedRing, Recycled(r))
  {
    hide Vr16, Wire;
  }

  lemma ReadyFreed(m: Memory, r: Ring, desc: seq<Desc>, id: nat, head: u16)
    requires FreeLinks(m.desc, r.free, m.freeHead) && ReadyFacts(r, id)
    requires Freeing(m.desc, desc, r.chains[id].ids, m.freeHead, |r.chains[id].ids|)
    requires head == r.chains[id].ids[|r.chains[id].ids| - 1]
    ensures FreeLinks(desc, Recycled(r).free, head) && |desc| == |m.desc|
    ensures |Recycled(r).free| == |r.free| + |r.chains[id].ids|
  {
    hide FreeLinks, NoDup;
    FreeAfterPoll(m.desc, desc, r.free, r.chains[id].ids, m.freeHead, head);
  }

  lemma PollRepresents(modern: bool, m: Memory, r: Ring, desc: seq<Desc>, id: nat, head: u16, freed: nat)
    requires Represents(modern, m, r) && ReadyFacts(r, id) && m.numFree + freed < 0x1_0000
    requires Freeing(m.desc, desc, r.chains[id].ids, m.freeHead, |r.chains[id].ids|)
    requires freed == |r.chains[id].ids| && head == r.chains[id].ids[freed - 1]
    ensures Represents(modern, RecycledMemory(m, desc, id, head, freed, r.consumed), Recycled(r))
  {
    hide FreeLinks, Chains, Inv, AvailSlots, UsedSlots, Freeing, NoDup, Reverse;
    var m' := RecycledMemory(m, desc, id, head, freed, r.consumed);
    ReadyFreed(m, r, desc, id, head);
    ChainsAfterPoll(modern, m, m', r, id);
    SlotsAfterPoll(modern, m, r);
    PollKeepsInv(r);
  }

  /** The used ring as the driver reads it: it looks empty exactly when every entry is
      consumed, and otherwise its front slot holds the first unconsumed entry. */
  lemma UsedFront(modern: bool, m: Memory, r: Ring)
    requires Represents(modern, m, r)
    ensures r.consumed <= |r.used|
    ensures m.lastUsedIdx == Vr16(modern, m.usedIdx) <==> r.consumed == |r.used|
    ensures r.consumed < |r.used| ==>
      |m.usedRing| == r.num && Wire(modern, m.usedRing[m.lastUsedIdx % r.num]) == r.used[r.consumed]
    ensures r.consumed < |r.used| && r.used[r.consumed].id < r.num ==> Ready(r)
    ensures Ready(r) ==> m.usedRing != [] && ReadyFacts(r, r.used[r.consumed].id)
    ensures Ready(r) ==>
      var id := r.used[r.consumed].id;
      id < |m.cookies| && m.cookies[id] == r.chains[id].req.cookie && ChainLinks(modern, m.desc, r.chains[id])
  {
    hide Partition, ChainLinks, FreeLinks, ReadyFacts;
    if Ready(r) { ReadyIsOwned(r); }
    CountersDiffer(r.consumed, |r.used|);
    SlotOf(r.consumed, r.num);
    if r.consumed < |r.used| {
      assert m.usedRing[r.consumed % r.num] == Wire(modern, r.used[r.consumed]);
    }
  }

  lemma CountersDiffer(a: nat, b: nat)
    requires a <= b <= a + 32768
    ensures a % 0x1_0000 == b % 0x1_0000 <==> a == b
  {
  }

  lemma FreshRepresents(modern: bool, m: Memory, num: nat)
    requires QueueSize(num) && |m.desc| == |m.availRing| == |m.usedRing| == |m.cookies| == num
    requires forall i :: 0 <= i < num ==> m.desc[i].next == if i < num - 1 then i + 1 else 0
    requires m.availIdx == m.usedIdx == m.freeHead == m.lastUsedIdx == m.deviceIdx == 0 && m.numFree == num
    ensures Represents(modern, m, Fresh(num))
  {
    FreshInv(num);
  }

  // ---- The device's side ----

  ghost predicate HeldIs(held: set<nat>, r: Ring) {
    forall h :: h in held <==> h in r.stage && r.stage[h] == Held
  }

  lemma HeldAfterSubmit(held: set<nat>, r: Ring, req: Request)
    requires HeldIs(held, r) && Inv(r) && WellFormed(req) && |req.sg| <= |r.free|
    ensures HeldIs(held, Submitted(r, req))
  {
    HeadsAreNotFree(r);
    assert r.free[0] in r.free;
  }

  lemma HeldAfterPoll(held: set<nat>, r: Ring)
    requires HeldIs(held, r) && Inv(r) && Ready(r)
    ensures HeldIs(held, Recycled(r))
  {
  }

  /** A buffer as the device finds it in a descriptor. */
  datatype Buffer = Buffer(addr: u64, len: u32, writable: bool)

  function Buffers(req: Request): (bs: seq<Buffer>) {
    seq(|req.sg|, k requires 0 <= k < |req.sg| => Buffer(req.sg[k].addr, req.sg[k].len, k >= req.out))
  }

  lemma TakeRepresents(modern: bool, m: Memory, r: Ring)
    requires Represents(modern, m, r) && r.taken < |r.avail|
    ensures Represents(modern, m.(deviceIdx := (r.taken + 1) % 0x1_0000), Taken(r))
  {
    hide ChainLinks, FreeLinks, Inv, Vr16, Wire;
    TakeKeepsInv(r);
  }

  /** What the device reads: it sees an entry exactly when there is one, and the entry's
      descriptor chain. */
  lemma AvailFront(modern: bool, m: Memory, r: Ring)
    requires Represents(modern, m, r)
    ensures Inv(r) && r.taken <= |r.avail| && m.deviceIdx == r.taken % 0x1_0000 && |m.availRing| == |m.desc| == r.num
    ensures m.deviceIdx == Vr16(modern, m.availIdx) <==> r.taken == |r.avail|
    ensures r.taken < |r.avail| ==>
      var h := r.avail[r.taken];
      Vr16(modern, m.availRing[m.deviceIdx % r.num]) == h && h in r.chains
      && |r.chains[h].ids| == |r.chains[h].req.sg| > 0 && r.chains[h].ids[0] == h
      && ChainLinks(modern, m.desc, r.chains[h])
  {
    hide Partition, ChainLinks, FreeLinks, UsedOk, UsedSlots;
    AvailFits(r);
    CountersDiffer(r.taken, |r.avail|);
    SlotOf(r.taken, r.num);
    if r.taken < |r.avail| {
      assert m.availRing[r.taken % r.num] == Vr16(modern, r.avail[r.taken]);
    }
  }

  lemma UsedWritten(modern: bool, slots: seq<UsedElem>, r: Ring, elem: UsedElem)
    requires UsedSlots(modern, slots, r) && r.consumed <= |r.used| < r.consumed + r.num
    ensures UsedSlots(modern, slots[|r.used| % r.num := Wire(modern, elem)], r.(used := r.used + [elem]))
  {
    hide Wire;
    forall p | r.consumed <= p < |r.used|
      ensures p % r.num != |r.used| % r.num
    {
      SlotsDiffer(p, |r.used|, r.num);
    }
  }

  /** The completion the device may append: a chain it holds, or a corrupt id. */
  function UseEvent(r: Ring, elem: UsedElem): (e: Event) {
    if elem.id < r.num then Finish(elem.id, elem.len) else Corrupt(elem)
  }

  lemma UseRepresents(modern: bool, m: Memory, r: Ring, elem: UsedElem)
    requires Represents(modern, m, r) && Enabled(r, UseEvent(r, elem)) && |m.usedRing| == r.num > 0
    ensures Represents(modern,
              m.(usedRing := m.usedRing[|r.used| % r.num := Wire(modern, elem)],
                 usedIdx := Vr16(modern, (|r.used| + 1) % 0x1_0000)),
              Step(r, UseEvent(r, elem)).0)
  {
    hide ChainLinks, FreeLinks, Heads, Partition, AvailOk, Vr16, Wire;
    UsedWritten(modern, m.usedRing, r, elem);
    StepKeepsInv(r, UseEvent(r, elem));
  }

  lemma PendingFits(r: Ring)
    requires Inv(r)
    ensures 0 <= |r.used| - r.consumed <= r.num <= 32768
    ensures (|r.used| % 0x1_0000 - r.consumed % 0x1_0000) % 0x1_0000 == |r.used| - r.consumed
  {
    hide Heads, Partition, AvailOk;
    WrappedDifference(r.consumed, |r.used|);
  }

  lemma WrappedDifference(a: nat, b: nat)
    requires a <= b <= a + 32768
    ensures (b % 0x1_0000 - a % 0x1_0000) % 0x1_0000 == b - a
  {
  }

  lemma HeldAfterUse(held: set<nat>, r: Ring, elem: UsedElem)
    requires HeldIs(held, r) && Inv(r) && Enabled(r, UseEvent(r, elem))
    ensures HeldIs(held - {elem.id}, Step(r, UseEvent(r, elem)).0)
  {
    hide Partition, AvailOk, UsedOk, Reverse;
    HeadsAreNotFree(r);
  }

  lemma ReadChain(modern: bool, desc: seq<Desc>, c: Chain, k: nat)
    requires ChainLinks(modern, desc, c) && k < |c.ids|
    ensures c.ids[k] < |desc|
    ensures Buffer(Vr64(modern, desc[c.ids[k]].addr), Vr32(modern, desc[c.ids[k]].len),
                   Vr16(modern, desc[c.ids[k]].flags) / 2 % 2 == 1) == Buffers(c.req)[k]
    ensures Vr16(modern, desc[c.ids[k]].flags) % 2 == 1 <==> k + 1 < |c.ids|
    ensures k + 1 < |c.ids| ==> Vr16(modern, desc[c.ids[k]].next) == c.ids[k + 1]
  {
    hide Vr16, Vr32, Vr64;
    LinkedDecodes(modern, desc[c.ids[k]], c.req, c.ids, k);
  }

  class VirtQueue {
    const num: nat
    const modern: bool
    const desc: array<Desc>
    const availRing: array<u16>
    const usedRing: array<UsedElem>
    const cookies: array<nat>
    var availIdx: u16
    var usedIdx: u16
    var freeHead: u16
    var numFree: u16
    var lastUsedIdx: u16
    var deviceIdx: u16
    /** The chains the device has taken and not returned: its own knowledge. */
    var held: set<nat>
    ghost var ring: Ring

    /** VirtQueue_Allocate: cleared memory, the free list linked in order. */
    constructor (num: nat, modern: bool)
      requires QueueSize(num)
      ensures Valid() && ring == Fresh(num) && this.num == num && this.modern == modern
      ensures fresh(desc) && fresh(availRing) && fresh(usedRing) && fresh(cookies)
    {
      hide Represents, Vr16;
      this.num := num;
      this.modern := modern;
      desc := new Desc[num](_ => Desc(0, 0, 0, 0));
      availRing := new u16[num](_ => 0);
      usedRing := new UsedElem[num](_ => UsedElem(0, 0));
      cookies := new nat[num](_ => 0);
      availIdx, usedIdx, freeHead, numFree, lastUsedIdx, deviceIdx := 0, 0, 0, num, 0, 0;
      held := {};
      ring := Fresh(num);
      new;
      for j := 0 to num - 1
        invariant forall i :: 0 <= i < j ==> desc[i].next == i + 1
        invariant forall i :: j <= i < num ==> desc[i].next == 0
        modifies desc
      {
        desc[j] := desc[j].(next := j + 1);
      }
      desc[num - 1] := desc[num - 1].(next := 0);
      FreshRepresents(modern, Snapshot(), num);
    }

    ghost function Snapshot(): (m: Memory)
      reads this, desc, availRing, usedRing, cookies
    {
      Memory(desc[..], availRing[..], usedRing[..], cookies[..],
             availIdx, usedIdx, freeHead, numFree, lastUsedIdx, deviceIdx)
    }

    ghost predicate Valid()
      reads this, desc, availRing, usedRing, cookies
    {
      ring.num == num && availRing as object != cookies && HeldIs(held, ring) && Represents(modern, Snapshot(), ring)
    }

    /** The descriptor loop of AddBuf. `next` is the new head of the free list. */
    method LinkChain(sg: seq<Sg>, out: nat, ghost req: Request, ghost free: seq<nat>) returns (next: u16)
      requires req.sg == sg && req.out == out && 1 <= |sg| <= |free|
      requires FreeLinks(desc[..], free, freeHead)
      modifies desc
      ensures ChainWritten(modern, old(desc[..]), desc[..], free, req)
      ensures next < desc.Length && (|sg| < |free| ==> next == free[|sg|])
    {
      hide Vr16, Vr32, Vr64, Linked, Linking, NoDup;
      LinkNone(modern, desc[..], free, req, freeHead);
      var n, idx := 0, freeHead;
      next := idx;
      while n < |sg|
        invariant 0 <= n <= |sg| && next < desc.Length
        invariant n < |free| ==> next == free[n]
        invariant idx == next
        invariant Linking(modern, old(desc[..]), desc[..], free, req, n)
      {
        LinkNext(modern, old(desc[..]), desc[..], free, req, n, old(freeHead));
        next := desc[idx].next;
        var flags: u16 := 0;
        if n >= out { flags := flags + F_WRITE; }
        if n < |sg| - 1 { flags := flags + F_NEXT; }
        var d := Desc(Vr64(modern, sg[n].addr), Vr32(modern, sg[n].len), Vr16(modern, flags),
                      if n < |sg| - 1 then Vr16(modern, next) else next);
        EntryLinked(modern, d, req, free[..|sg|], n, flags, next);
        LinkStep(modern, old(desc[..]), desc[..], free, req, n, d);
        ghost var was := desc[..];
        desc[idx] := d;
        assert desc[..] == was[idx := d];
        n := n + 1;
        idx := next;
      }
    }

    /** The driver's view of the counters. */
    lemma Facts()
      requires Valid()
      ensures QueueSize(num) && desc.Length == cookies.Length == availRing.Length == usedRing.Length == num
      ensures numFree == |ring.free| && freeHead < num && FreeLinks(desc[..], ring.free, freeHead)
      ensures Vr16(modern, availIdx) == |ring.avail| % 0x1_0000 && Vr16(modern, usedIdx) == |ring.used| % 0x1_0000
      ensures (|ring.avail| % 0x1_0000) % num == |ring.avail| % num < num
      ensures lastUsedIdx == ring.consumed % 0x1_0000
      ensures Inv(ring)
    {
      SlotOf(|ring.avail|, num);
    }

    /** AddBuf's store of the cookie and of the available entry for the chain at `head`. */
    method Publish(head: u16, cookie: nat, ghost count: nat)
      requires 0 < num == availRing.Length == cookies.Length && head < num && availRing as object != cookies
      requires Vr16(modern, availIdx) == count % 0x1_0000 && (count % 0x1_0000) % num == count % num
      modifies this`availIdx, availRing, cookies
      ensures Snapshot() == old(Snapshot()).(
                cookies := old(cookies[..])[head := cookie],
                availRing := old(availRing[..])[count % num := Vr16(modern, head)],
                availIdx := Vr16(modern, (count + 1) % 0x1_0000))
    {
      hide Vr16;
      cookies[head] := cookie;
      var avail: u16 := Vr16(modern, availIdx);
      availRing[avail % num] := Vr16(modern, head);
      availIdx := Vr16(modern, (avail + 1) % 0x1_0000);
      assert cookies[..] == old(cookies[..])[head := cookie];
      assert availRing[..] == old(availRing[..])[count % num := Vr16(modern, head)];
      CounterStep(count);
    }

    lemma HeldHasChain()
      requires Valid() && held != {}
      ensures ring.chains != map[]
    {
      hide Represents, FreeLinks;
      Facts();
      HeadsAreNotFree(ring);
      var h :| h in held;
      assert h in ring.chains;
    }

    /** VirtQueue_AddBuf: -1 and no change when too few descriptors are free; otherwise the
        request is queued and 0 returned. With no entries at all it publishes the list head.
        While descriptors are free, this is one of them, and the memory no longer stands for any
        queue. With none free, it is a descriptor of an outstanding chain, and the memory stands
        for a queue exactly if that is the head of a chain the device holds, now posted again. */
    method AddBuf(sg: seq<Sg>, out: nat, cookie: nat) returns (rc: int)
      requires Valid() && out <= |sg|
      modifies this, desc, availRing, cookies
      ensures rc == if |sg| > |old(ring).free| then -1 else 0
      ensures |sg| >= 1 ==> Valid() && ring == Step(old(ring), Submit(Request(sg, out, cookie))).0
      ensures sg == [] && old(ring).free != [] ==>
        forall r: Ring :: r.num == num && r.taken < |r.avail| == |old(ring).avail| + 1
          ==> !Represents(modern, Snapshot(), r)
      ensures sg == [] && old(ring).free == [] ==>
        ((exists r :: Follows(old(ring), r, freeHead) && Represents(modern, Snapshot(), r))
         <==> freeHead in old(ring).stage && old(ring).stage[freeHead] == Held)
    {
      hide Vr16, Represents, ChainWritten, FreeLinks, Inv, HeldIs;
      Facts();
      if numFree < |sg| {
        return -1;
      }
      ghost var m, r, req := Snapshot(), ring, Request(sg, out, cookie);
      var head := freeHead;
      if |sg| > 0 {
        freeHead := LinkChain(sg, out, req, ring.free);
      }
      numFree := numFree - |sg|;
      Publish(head, cookie, |ring.avail|);
      rc := 0;
      if |sg| > 0 {
        SubmitRepresents(modern, m, r, req, desc[..], freeHead);
        HeldAfterSubmit(held, r, req);
        ring := Submitted(ring, req);
      } else if r.free != [] {
        forall r': Ring | r'.num == num && r'.taken < |r'.avail| == |r.avail| + 1
          ensures !Represents(modern, Snapshot(), r')
        {
          FreePublished(modern, Snapshot(), r');
        }
      } else {
        RepublishExact(modern, m, r, cookie);
        PublishFits(modern, m, r);
        assert Snapshot() == Republished(modern, m, r, cookie);
      }
    }

    /** The recycling loop of GetBuf. */
    method UnlinkChain(id: u16, ghost c: Chain) returns (freed: nat)
      requires ChainLinks(modern, desc[..], c) && NoDup(c.ids) && c.ids != [] && c.ids[0] == id
      requires desc.Length <= 32768 && freeHead < desc.Length
      modifies this`freeHead, desc
      ensures freed == |c.ids| && freeHead == c.ids[|c.ids| - 1]
      ensures Freeing(old(desc[..]), desc[..], c.ids, old(freeHead), |c.ids|)
    {
      hide Vr16, Linked, Freeing, NoDup, ChainLinks;
      FreeNone(modern, desc[..], c, freeHead);
      var idx, more := id, true;
      freed := 0;
      while more
        invariant 0 <= freed <= |c.ids|
        invariant if more then freed < |c.ids| && idx == c.ids[freed] else freed == |c.ids|
        invariant freeHead == Previous(c.ids, old(freeHead), freed)
        invariant Freeing(old(desc[..]), desc[..], c.ids, old(freeHead), freed)
        decreases |c.ids| - freed
      {
        FreeNext(modern, old(desc[..]), desc[..], c, old(freeHead), freed);
        var next := Vr16(modern, desc[idx].next);
        more := Vr16(modern, desc[idx].flags) % 2 == 1;
        FreeStep(old(desc[..]), desc[..], c.ids, old(freeHead), freed, Desc(0, 0, 0, freeHead));
        ghost var was := desc[..];
        desc[idx] := Desc(0, 0, 0, freeHead);
        assert desc[..] == was[idx := Desc(0, 0, 0, freeHead)];
        freeHead := idx;
        freed := freed + 1;
        idx := next;
      }
    }

    /** GetBuf's recycling of the completed chain `id`. */
    method Recycle(id: u16) returns (cookie: nat)
      requires Valid() && ReadyFacts(ring, id)
      modifies this, desc, cookies
      ensures Valid() && ring == Recycled(old(ring)) && cookie == old(ring).chains[id].req.cookie
    {
      hide Represents, Freeing, ChainLinks, Inv, FreeLinks, HeldIs, Vr16, Wire, Reverse;
      Facts();
      UsedFront(modern, Snapshot(), ring);
      ghost var m, r := Snapshot(), ring;
      cookie := cookies[id];
      cookies[id] := 0;
      var freed := UnlinkChain(id, r.chains[id]);
      numFree := numFree + freed;
      CounterStep(r.consumed);
      lastUsedIdx := (lastUsedIdx + 1) % 0x1_0000;
      PollRepresents(modern, m, r, desc[..], id, freeHead, freed);
      assert Snapshot() == RecycledMemory(m, desc[..], id, freeHead, freed, r.consumed);
      HeldAfterPoll(held, r);
      ring := Recycled(r);
    }

    /** VirtQueue_GetBuf: the cookie and length of the completion at the front of the used
        ring, whose whole chain is freed; NULL (0) and no change when there is none or its
        id is not a descriptor number. */
    method GetBuf() returns (cookie: nat, len: u32)
      requires Valid()
      modifies this, desc, cookies
      ensures Valid() && ring == Step(old(ring), Poll).0
      ensures Ready(old(ring)) ==> Step(old(ring), Poll).1 == Returned(cookie, len)
      ensures !Ready(old(ring)) ==> cookie == 0
    {
      hide Vr16, Vr32, Represents, ReadyFacts, ChainLinks, Inv, FreeLinks, HeldIs;
      Facts();
      UsedFront(modern, Snapshot(), ring);
      cookie, len := 0, 0;
      if lastUsedIdx == Vr16(modern, usedIdx) {
        return;
      }
      var elem := usedRing[lastUsedIdx % num];
      var id := Vr32(modern, elem.id);
      if id >= num {
        return;
      }
      len := Vr32(modern, elem.len);
      cookie := Recycle(id);
    }

    /** The device reads a chain: it finds exactly the request's buffers, in order, and which
        of them it may write. */
    method DeviceRead(head: u16, ghost c: Chain) returns (bufs: seq<Buffer>)
      requires ChainLinks(modern, desc[..], c) && |c.ids| == |c.req.sg| > 0 && c.ids[0] == head
      ensures bufs == Buffers(c.req)
    {
      hide Vr16, Vr32, Vr64, ChainLinks;
      bufs := [];
      var idx, more := head, true;
      while more
        invariant |bufs| <= |c.ids|
        invariant if more then |bufs| < |c.ids| && idx == c.ids[|bufs|] else |bufs| == |c.ids|
        invariant bufs == Buffers(c.req)[..|bufs|]
        decreases |c.ids| - |bufs|
      {
        ReadChain(modern, desc[..], c, |bufs|);
        var d := desc[idx];
        more := Vr16(modern, d.flags) % 2 == 1;
        idx := Vr16(modern, d.next);
        bufs := bufs + [Buffer(Vr64(modern, d.addr), Vr32(modern, d.len), Vr16(modern, d.flags) / 2 % 2 == 1)];
      }
    }

    /** The device takes the next available entry, if any, and reads its descriptor chain. */
    method DeviceTake() returns (seen: bool, bufs: seq<Buffer>)
      requires Valid()
      modifies this`deviceIdx, this`held, this`ring
      ensures seen == (old(ring).taken < |old(ring).avail|)
      ensures Valid() && ring == if seen then Step(old(ring), Take).0 else old(ring)
      ensures seen ==> var h := old(ring).avail[old(ring).taken];
        h in old(ring).chains && bufs == Buffers(old(ring).chains[h].req)
    {
      hide Vr16, Represents, ChainLinks, Heads, Partition, AvailOk, UsedOk, FreeLinks, Buffers;
      AvailFront(modern, Snapshot(), ring);
      bufs := [];
      seen := deviceIdx != Vr16(modern, availIdx);
      if seen {
        var head: u16 := Vr16(modern, availRing[deviceIdx % num]);
        bufs := DeviceRead(head, ring.chains[ring.avail[ring.taken]]);
        TakeRepresents(modern, Snapshot(), ring);
        CounterStep(ring.taken);
        deviceIdx := (deviceIdx + 1) % 0x1_0000;
        held := held + {head};
        ring := Taken(ring);
      }
    }

    /** Whether the used ring has a slot the driver is done with. */
    method DeviceHasRoom() returns (room: bool)
      requires Valid()
      ensures room == (|ring.used| - ring.consumed < num)
    {
      hide Vr16, Represents, FreeLinks;
      Facts();
      PendingFits(ring);
      room := (Vr16(modern, usedIdx) - lastUsedIdx as int) % 0x1_0000 < num;
    }

    /** The device appends a used entry. */
    method DeviceUse(elem: UsedElem)
      requires Valid() && Enabled(ring, UseEvent(ring, elem))
      modifies this`usedIdx, this`held, this`ring, usedRing
      ensures Valid() && ring == Step(old(ring), UseEvent(old(ring), elem)).0
    {
      hide Vr16, Wire, Represents, Heads, Partition, AvailOk, UsedOk, FreeLinks;
      Facts();
      SlotOf(|ring.used|, num);
      UseRepresents(modern, Snapshot(), ring, elem);
      CounterStep(|ring.used|);
      var count: u16 := Vr16(modern, usedIdx);
      ghost var was := usedRing[..];
      usedRing[count % num] := Wire(modern, elem);
      assert usedRing[..] == was[|ring.used| % num := Wire(modern, elem)];
      usedIdx := Vr16(modern, (count + 1) % 0x1_0000);
      HeldAfterUse(held, ring, elem);
      held := held - {elem.id};
      ring := Step(ring, UseEvent(ring, elem)).0;
    }
  }
}
