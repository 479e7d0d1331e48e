/** One 9P transaction over the virtqueue: send, poll, match, time out, flush, drain, and as a
    last resort reset the transport and start a new session. */
module Transact {
  import opened FidPool
  import opened Machine
  import opened Wire
  import Protocol
  import Ring
  import Server
  import VQ = VirtQueue

  /** The non-NULL cookies: the addresses of the transmit and the flush buffer. */
  const TX_COOKIE: nat := 1
  const FLUSH_COOKIE: nat := 2

  // ---- What waiting does to the queue ----

  /** The device moved: it took, wrote and returned chains. The driver's part is unchanged. */
  ghost predicate Moved(r: Ring.Ring, r': Ring.Ring) {
    && r'.num == r.num && r'.free == r.free && r'.chains == r.chains && r'.avail == r.avail
    && r'.consumed == r.consumed && r.used <= r'.used
  }

  /** Chains came back: each consumed completion is one chain less, and none was added. */
  ghost predicate Shrunk(r: Ring.Ring, r': Ring.Ring) {
    && r'.num == r.num && r'.avail == r.avail && r.used <= r'.used && r.consumed <= r'.consumed
    && (forall h :: h in r'.chains ==> h in r.chains && r'.chains[h] == r.chains[h])
    && |r'.chains| + (r'.consumed - r.consumed) == |r.chains|
  }

  ghost predicate NonNull(r: Ring.Ring) {
    forall h :: h in r.chains ==> r.chains[h].req.cookie != 0
  }

  lemma RemoveSize<K, V>(m: map<K, V>, k: K)
    requires k in m
    ensures |m - {k}| == |m| - 1
  {
    assert (m - {k}).Keys == m.Keys - {k};
  }

  lemma AddSize<K, V>(m: map<K, V>, k: K, v: V)
    requires k !in m
    ensures |m[k := v]| == |m| + 1
  {
    assert m[k := v].Keys == m.Keys + {k};
  }

  lemma PollShrinks(r0: Ring.Ring, r: Ring.Ring)
    requires Ring.Inv(r) && Shrunk(r0, r) && NonNull(r)
    ensures Shrunk(r0, Ring.Step(r, Ring.Poll).0) && NonNull(Ring.Step(r, Ring.Poll).0)
    ensures Ring.Ready(r) ==> r.used[r.consumed].id in r0.chains
  {
    hide Ring.Inv, Ring.Reverse, Shrunk;
    if Ring.Ready(r) {
      var id := r.used[r.consumed].id;
      RemoveSize(r.chains, id);
      ChainBack(r0, r, Ring.Recycled(r), id);
    }
  }

  lemma ChainBack(r0: Ring.Ring, r: Ring.Ring, r': Ring.Ring, id: nat)
    requires Shrunk(r0, r) && id in r.chains && r'.chains == r.chains - {id} && |r'.chains| == |r.chains| - 1
    requires r'.num == r.num && r'.avail == r.avail && r'.used == r.used && r'.consumed == r.consumed + 1
    ensures Shrunk(r0, r') && id in r0.chains
  {
  }

  lemma ShrunkSize(r: Ring.Ring, r': Ring.Ring)
    requires Shrunk(r, r')
    ensures |r'.chains| <= |r.chains| && r.used <= r'.used
  {
  }

  lemma MoveShrinks(r0: Ring.Ring, r: Ring.Ring, r': Ring.Ring)
    requires Shrunk(r0, r) && Moved(r, r')
    ensures Shrunk(r0, r') && (NonNull(r) ==> NonNull(r'))
  {
  }

  /** The reply in `rx` answers a request with this tag and is `len` bytes long. */
  predicate Matches(rx: Bytes, tag: u16, len: u32, msize: u32) {
    7 <= len <= msize && |rx| >= 7 && U16At(rx, 5) == tag && U32At(rx, 0) == len
  }

  /** The last consumed completion is one of the chains of `r`, with length `len`. */
  ghost predicate Consumed(r: Ring.Ring, r': Ring.Ring, len: u32) {
    && r.consumed < r'.consumed <= |r'.used|
    && r'.used[r'.consumed - 1].len == len && r'.used[r'.consumed - 1].id in r.chains
  }

  lemma FrontConsumed(r0: Ring.Ring, polled: Ring.Ring, r': Ring.Ring)
    requires Ring.Ready(polled) && r0.consumed <= polled.consumed && polled.used[polled.consumed].id in r0.chains
    requires Moved(Ring.Recycled(polled), r')
    ensures Consumed(r0, r', polled.used[polled.consumed].len)
  {
  }

  lemma PollCounts(r0: Ring.Ring, r: Ring.Ring, polled: Ring.Ring, r': Ring.Ring)
    requires Ring.Inv(polled) && NonNull(polled) && Shrunk(r0, polled)
    requires Moved(r, polled) && Moved(Ring.Step(polled, Ring.Poll).0, r')
    ensures r'.consumed == r.consumed + if Ring.Ready(polled) then 1 else 0
    ensures Ring.Ready(polled) ==> Consumed(r0, r', polled.used[polled.consumed].len)
    ensures Ring.Ready(polled) ==> polled.chains[polled.used[polled.consumed].id].req.cookie != 0
  {
    hide Ring.Inv, Ring.Reverse, Consumed;
    if Ring.Ready(polled) {
      FrontConsumed(r0, polled, r');
    }
  }

  /** What the driver goes through: a request in the transmit buffer given to V9P_Transact; a
      completion, with the receive buffer and the length from the used ring as it finds them; a
      Tflush made ready; a reset begun. */
  datatype Note = Asking(tx: Bytes) | Completed(rx: Bytes, len: u32) | Flushing | Resetting

  /** `seen` is what was found at the completions consumed since `r`, in order. */
  ghost predicate Saw(r: Ring.Ring, r': Ring.Ring, seen: seq<Note>) {
    && r.consumed + |seen| == r'.consumed <= |r'.used|
    && forall i :: 0 <= i < |seen| ==> seen[i].Completed? && seen[i].len == r'.used[r.consumed + i].len
  }

  /** None of these completions answers the request. */
  ghost predicate Dropped(seen: seq<Note>, tag: u16, msize: u32) {
    forall i :: 0 <= i < |seen| ==> seen[i].Completed? && !Matches(seen[i].rx, tag, seen[i].len, msize)
  }

  /** Only completions, no more than `n`. */
  ghost predicate UpTo(n: nat, notes: seq<Note>) {
    |notes| <= n && forall i :: 0 <= i < |notes| ==> notes[i].Completed?
  }

  /** One GetBuf between device moves: its result is the front of the used ring at that moment. */
  ghost predicate Polled(r: Ring.Ring, polled: Ring.Ring, r': Ring.Ring, cookie: nat, len: u32)
    requires Ring.Inv(polled)
  {
    && Moved(r, polled) && Moved(Ring.Step(polled, Ring.Poll).0, r')
    && (if Ring.Ready(polled) then Ring.Step(polled, Ring.Poll).1 == Ring.Returned(cookie, len) else cookie == 0)
  }

  lemma PollFacts(r0: Ring.Ring, r: Ring.Ring, polled: Ring.Ring, after: Ring.Ring, r': Ring.Ring,
                  cookie: nat, len: u32)
    requires Shrunk(r0, r) && Moved(r, polled) && Ring.Inv(polled) && NonNull(polled)
    requires after == Ring.Step(polled, Ring.Poll).0 && Moved(after, r')
    requires if Ring.Ready(polled)
             then Ring.Step(polled, Ring.Poll).1 == Ring.Returned(cookie, len) else cookie == 0
    ensures Shrunk(r0, r') && Polled(r, polled, r', cookie, len)
    ensures cookie != 0 ==> Consumed(r0, r', len) && r'.consumed == r.consumed + 1
    ensures cookie == 0 ==> r'.consumed == r.consumed
  {
    hide Ring.Inv, Ring.Reverse, Shrunk, Moved, Consumed, NonNull;
    MoveShrinks(r0, r, polled);
    PollShrinks(r0, polled);
    MoveShrinks(r0, after, r');
    PollCounts(r0, r, polled, r');
  }

  lemma SawNothing(r: Ring.Ring, tag: u16, msize: u32)
    requires Ring.Inv(r)
    ensures Shrunk(r, r) && Saw(r, r, []) && Dropped([], tag, msize)
  {
  }

  lemma PolledFacts(r: Ring.Ring, polled: Ring.Ring, r': Ring.Ring, cookie: nat, len: u32)
    requires Ring.Inv(polled) && Polled(r, polled, r', cookie, len)
    ensures r.used <= r'.used && r'.consumed <= |r'.used|
    ensures r'.consumed > r.consumed ==> r'.used[r.consumed].len == len
  {
    hide Ring.Heads, Ring.Partition, Ring.AvailOk, Ring.Reverse;
  }

  lemma SawMore(r0: Ring.Ring, r: Ring.Ring, r': Ring.Ring, seen: seq<Note>, more: seq<Note>)
    requires Saw(r0, r, seen) && r.used <= r'.used && r'.consumed == r.consumed + |more| <= |r'.used|
    requires UpTo(1, more) && (more != [] ==> r'.used[r.consumed].len == more[0].len)
    ensures Saw(r0, r', seen + more)
  {
  }

  lemma DropMore(seen: seq<Note>, reply: Note, tag: u16, msize: u32)
    requires Dropped(seen, tag, msize) && reply.Completed?
    ensures Dropped((seen + [reply])[..|seen|], tag, msize)
    ensures !Matches(reply.rx, tag, reply.len, msize) ==> Dropped(seen + [reply], tag, msize)
    ensures Matches(reply.rx, tag, reply.len, msize) ==> reply.len != 0
  {
  }

  /** From a quiescent queue: one request was posted, and the completion consumed is its own. */
  ghost predicate Answered(r: Ring.Ring, r': Ring.Ring, len: u32) {
    && r.free != [] && r'.avail == r.avail + [r.free[0]]
    && r'.consumed == r.consumed + 1 <= |r'.used|
    && r'.used[r.consumed].id == r.free[0] && r'.used[r.consumed].len == len
    && r'.chains == map[]
  }

  /** One request was published. The device that takes it finds `size` bytes at `addr` to read and
      `room` bytes at `rx` to write. */
  ghost predicate Posted(r: Ring.Ring, r': Ring.Ring, addr: u32, size: u32, rx: u32, room: u32, cookie: nat) {
    && r.free != [] && r'.avail == r.avail + [r.free[0]] && r.free[0] in r'.chains
    && r'.chains[r.free[0]].req == Ring.Request([Ring.Sg(addr, size), Ring.Sg(rx, room)], 1, cookie)
    && VQ.Buffers(r'.chains[r.free[0]].req) == [VQ.Buffer(addr, size, false), VQ.Buffer(rx, room, true)]
  }

  lemma OwnAnswer(r: Ring.Ring, req: Ring.Request, r': Ring.Ring, len: u32)
    requires r.chains == map[] && 1 <= |req.sg| <= |r.free|
    requires Shrunk(Ring.Submitted(r, req), r') && Consumed(Ring.Submitted(r, req), r', len)
    ensures Answered(r, r', len)
  {
    AddSize(r.chains, r.free[0], Ring.Chain(r.free[..|req.sg|], req, |r.avail|));
    assert |r'.chains| == 0;
  }

  lemma SeenBefore(r: Ring.Ring, req: Ring.Request, r': Ring.Ring, seen: seq<Note>)
    requires 1 <= |req.sg| <= |r.free| && Saw(Ring.Submitted(r, req), r', seen)
    ensures Saw(r, r', seen)
  {
  }

  /** A completion consumed from a quiescent queue was the only chain. */
  lemma OwnDropped(r: Ring.Ring, req: Ring.Request, r': Ring.Ring, seen: seq<Note>)
    requires r.chains == map[] && 1 <= |req.sg| <= |r.free| && seen != []
    requires Shrunk(Ring.Submitted(r, req), r') && Saw(r, r', seen)
    ensures |r'.chains| == 0
  {
    AddSize(r.chains, r.free[0], Ring.Chain(r.free[..|req.sg|], req, |r.avail|));
  }

  lemma NoChains(r: Ring.Ring, r': Ring.Ring, len: u32)
    requires Answered(r, r', len)
    ensures r'.chains == map[]
  {
  }

  lemma SeenCompletions(r: Ring.Ring, r': Ring.Ring, seen: seq<Note>)
    requires seen == [] || Saw(r, r', seen)
    ensures UpTo(|seen|, seen)
  {
  }

  /** A reply as a server sends it. */
  function Reply(kind: u8, tag: u16, body: Bytes): (m: Bytes)
    ensures |m| == 7 + |body|
  {
    Le(7 + |body|, 4) + Le(kind, 1) + Le(tag, 2) + body
  }

  /** A whole reply within the msize is taken for the request with its tag, at its own length,
      and for no other tag or length. */
  lemma MatchesExactly(kind: u8, tag: u16, body: Bytes, rx: Bytes, msize: u32, expected: u16, len: u32)
    requires Reply(kind, tag, body) <= rx && 7 + |body| < 0x1_0000_0000
    ensures Matches(rx, expected, len, msize) <==> expected == tag && len == 7 + |body| <= msize
  {
    hide Le, Value;
    var m := Reply(kind, tag, body);
    assert rx[0..4] == m[0..4] == Le(7 + |body|, 4) && rx[5..7] == m[5..7] == Le(tag, 2);
    Widths();
    ValueOfLe(7 + |body|, 4);
    ValueOfLe(tag, 2);
  }

  /** Conversely, what is taken for a reply is a whole one, with this tag. */
  lemma MatchesWhole(rx: Bytes, expected: u16, len: u32, msize: u32)
    requires len <= |rx|
    ensures Matches(rx, expected, len, msize)
      <==> 7 <= len <= msize && rx[..len] == Reply(rx[4], expected, rx[7..len])
  {
    hide Le, Value;
    if 7 <= len <= msize {
      var body := rx[7..len];
      Widths();
      if Matches(rx, expected, len, msize) {
        LeOfValue(rx[0..4]);
        LeOfValue(rx[5..7]);
        assert Le(rx[4], 1) == [rx[4]] by { OneByte(rx[4]); }
        assert rx[..len] == rx[0..4] + [rx[4]] + rx[5..7] + body;
      } else if rx[..len] == Reply(rx[4], expected, body) {
        MatchesExactly(rx[4], expected, body, rx, msize, expected, len);
      }
    }
  }

  lemma OneByte(v: u8)
    ensures Le(v, 1) == [v]
  {
  }

  lemma MatchFits(rx: Bytes, tag: u16, len: u32, msize: u32)
    requires Matches(rx, tag, len, msize)
    ensures len <= msize
  {
  }

  // ---- Tags ----

  function TagAfter(tag: u16): (t: u16) {
    var t := (tag as int + 1) % 0x1_0000;
    if t == Protocol.P9_NOTAG then 0 else t
  }

  /** The tag `n` calls of p9_next_tag after `tag`. */
  function TagAt(tag: u16, n: nat): (t: u16)
    decreases n
  {
    if n == 0 then tag else TagAt(TagAfter(tag), n - 1)
  }

  lemma {:induction false} TagClosedForm(tag: u16, n: nat)
    requires tag < Protocol.P9_NOTAG
    ensures TagAt(tag, n) == (tag as int + n) % 0xFFFF
    decreases n
  {
    if n == 0 {
    } else {
      TagClosedForm(TagAfter(tag), n - 1);
      TagStep(tag, n);
    }
  }

  lemma TagStep(tag: u16, n: nat)
    requires tag < Protocol.P9_NOTAG && n > 0
    ensures (TagAfter(tag) as int + (n - 1)) % 0xFFFF == (tag as int + n) % 0xFFFF
  {
    if TagAfter(tag) == 0 {
      assert tag as int + n == (n - 1) + 0xFFFF;
    }
  }

  /** No tag is NOTAG, and any 65535 consecutive ones are pairwise distinct. */
  lemma TagsDiffer(tag: u16, i: nat, j: nat)
    requires tag < Protocol.P9_NOTAG && i < j < i + 0xFFFF
    ensures TagAt(tag, i) != TagAt(tag, j)
    ensures TagAt(tag, i) != Protocol.P9_NOTAG
  {
    TagClosedForm(tag, i);
    TagClosedForm(tag, j);
  }

  lemma FlushSize(tag: u16)
    ensures Protocol.Length(Protocol.Tflush(tag)) == 9
  {
    assert |Encode([F16(tag)])| == 2;
  }

  // ---- A new session ----

  /** From `at` on the log holds a request, which a server understands as `r`, and `seen`. */
  ghost predicate Asked(log: seq<Note>, at: nat, r: Protocol.Request, tag: u16, seen: seq<Note>) {
    && at + 1 + |seen| <= |log| && log[at + 1..at + 1 + |seen|] == seen
    && log[at].Asking? && Server.Parse(log[at].tx) == Server.Understood(r, tag)
  }

  lemma AskedNext(log0: seq<Note>, log: seq<Note>, r: Protocol.Request, tag: u16, seen: seq<Note>)
    requires Protocol.Issued(r, Protocol.P9_MSIZE) && Server.Trimmed(r) == r
    requires log0 + [Asking(Protocol.OnWire(r, tag))] + seen <= log
    ensures Asked(log, |log0|, r, tag, seen)
  {
    hide Protocol.OnWire, Server.Parse;
    Server.RequestUnderstood(r, tag, Protocol.P9_MSIZE);
    var all := log0 + [Asking(Protocol.OnWire(r, tag))] + seen;
    assert log[|log0|] == all[|log0|];
    assert log[|log0| + 1..|all|] == all[|log0| + 1..] == seen;
  }

  lemma AskedStays(log: seq<Note>, log': seq<Note>, at: nat, r: Protocol.Request, tag: u16, seen: seq<Note>)
    requires Asked(log, at, r, tag, seen) && log <= log'
    ensures Asked(log', at, r, tag, seen)
  {
    hide Server.Parse;
    assert log'[at] == log[at];
    assert log'[at + 1..at + 1 + |seen|] == log[at + 1..at + 1 + |seen|];
  }

  /** The last of the completions is a reply for this tag, of at least `need` bytes and no error. */
  ghost predicate Good(seen: seq<Note>, tag: u16, need: nat, msize: u32) {
    && seen != [] && seen[|seen| - 1].Completed? && |seen[|seen| - 1].rx| >= 11
    && Matches(seen[|seen| - 1].rx, tag, seen[|seen| - 1].len, msize)
    && Protocol.CheckError(seen[|seen| - 1].rx, seen[|seen| - 1].len) == 0 && seen[|seen| - 1].len >= need
  }

  lemma GoodReply(seen: seq<Note>, tag: u16, need: nat, msize: u32, rx: Bytes, len: u32)
    requires |rx| >= 11 && seen != [] && seen[|seen| - 1] == Completed(rx, len) && Matches(rx, tag, len, msize)
    ensures Good(seen, tag, need, msize) <==> Protocol.CheckError(rx, len) == 0 && len >= need
  {
  }

  lemma NoGoodReply(seen: seq<Note>, tag: u16, need: nat, msize: u32)
    requires Dropped(seen, tag, msize)
    ensures !Good(seen, tag, need, msize)
  {
    hide Matches, Protocol.CheckError;
  }

  /** A new session: whether the device came up, and the completions seen after the Tversion and
      after the Tattach. */
  datatype Greeting = Greeting(up: bool, version: seq<Note>, attach: seq<Note>)

  /** A device that is up is sent a Tversion, and after a good reply a Tattach of the root. */
  ghost predicate Said(g: Greeting, log0: seq<Note>, log: seq<Note>, root: u32, msize0: u32) {
    && (g.up ==> Asked(log, |log0|, Protocol.Tversion(524288), 0xFFFF, g.version))
    && (g.up && Good(g.version, 0xFFFF, 13, msize0) ==>
         Asked(log, |log0| + 1 + |g.version|, Protocol.Tattach(root), 1, g.attach))
  }

  lemma NothingSaid(log: seq<Note>, root: u32, msize: u32)
    ensures Said(Greeting(false, [], []), log, log, root, msize) && !Welcome(Greeting(false, [], []), msize, msize)
  {
  }

  /** Both replies are good. The first is judged by the msize before it, the second by the one
      it set. */
  ghost predicate Welcome(g: Greeting, msize0: u32, msize: u32) {
    && g.up && Good(g.version, 0xFFFF, 13, msize0) && Good(g.attach, 1, 0, msize)
    && msize == U32At(g.version[|g.version| - 1].rx, 7)
  }

  ghost function Parts(q: VQ.VirtQueue?): (objs: set<object>) {
    if q == null then {} else {q, q.desc, q.availRing, q.usedRing, q.cookies}
  }

  /** The queue, if there is one, is in order, and no cookie in it is NULL. */
  ghost predicate Sane(q: VQ.VirtQueue?)
    reads Parts(q)
  {
    q != null ==> q.Valid() && NonNull(q.ring)
  }

  /** A pool as FidPool_Create leaves it. */
  ghost predicate NewPool(p: FidPool?)
    reads p, if p == null then {} else {p.freeList}
    reads if p == null || p.orphanList == null then {} else {p.orphanList}
  {
    p != null && p.Valid() && p.View() == Pool(1, [], [])
  }

  lemma NoQueue()
    ensures Sane(null)
  {
  }

  class Handler {
    const txBuf: array<u8>
    const rxBuf: array<u8>
    const flushBuf: array<u8>
    const txPhys: u32
    const rxPhys: u32
    const flushPhys: u32
    const rootFid: u32
    const modernMode: bool
    var vq: VQ.VirtQueue?
    var msize: u32
    var nextTag: u16
    var inReset: bool
    var pool: FidPool?
    /** Transport resets begun, and those that failed. */
    ghost var resets: nat
    ghost var failures: nat
    /** Calls of GetBuf, and all that was noted. */
    ghost var polls: nat
    ghost var log: seq<Note>

    /** After V9P_InitVirtIO and before the first Tversion. */
    constructor (tx: array<u8>, rx: array<u8>, flush: array<u8>, txAddr: u32, rxAddr: u32, flushAddr: u32,
                 num: nat, modern: bool, fids: FidPool?)
      requires tx.Length == rx.Length == Protocol.P9_MSIZE && flush.Length == 16
      requires tx != rx && tx != flush && rx != flush && Ring.QueueSize(num)
      ensures Valid() && Quiescent() && !inReset && msize == Protocol.P9_MSIZE && fresh(Queue())
      ensures txBuf == tx && rxBuf == rx && flushBuf == flush && pool == fids
    {
      hide VQ.Represents, VQ.HeldIs, Ring.Inv;
      txBuf, rxBuf, flushBuf, txPhys, rxPhys, flushPhys := tx, rx, flush, txAddr, rxAddr, flushAddr;
      rootFid, modernMode, msize, nextTag, inReset, pool := 0, modern, Protocol.P9_MSIZE, 1, false, fids;
      vq := new VQ.VirtQueue(num, modern);
      resets, failures, polls, log := 0, 0, 0, [];
    }

    /** Nothing noted is forgotten. */
    ghost predicate Grew(polls0: nat, log0: seq<Note>)
      reads this
    {
      polls >= polls0 && log0 <= log
    }

    ghost function Queue(): (objs: set<object>)
      reads this
    {
      Parts(vq)
    }

    ghost predicate Valid()
      reads this, Queue()
    {
      && txBuf.Length == rxBuf.Length == Protocol.P9_MSIZE && flushBuf.Length == 16
      && txBuf != rxBuf && txBuf != flushBuf && rxBuf != flushBuf
      && nextTag < Protocol.P9_NOTAG
      && {this, txBuf, rxBuf, flushBuf} !! Queue() && Sane(vq)
    }

    /** The device holds no chain, so no buffer of ours can change under us. */
    ghost predicate Quiescent()
      reads this, Queue()
    {
      vq != null && vq.ring.chains == map[]
    }

    /** Any number of device moves: take a chain, write the receive buffer through a chain it
        holds, return a chain it holds, or append a corrupt entry. */
    method Device()
      requires Valid() && vq != null
      modifies rxBuf, vq, vq.usedRing
      ensures Valid() && Moved(old(vq.ring), vq.ring)
      ensures old(Quiescent()) ==> rxBuf[..] == old(rxBuf[..])
    {
      hide VQ.Represents, VQ.HeldIs, Ring.Inv;
      var moves: int := *;
      while moves > 0
        invariant Valid() && Moved(old(vq.ring), vq.ring)
        invariant old(Quiescent()) ==> rxBuf[..] == old(rxBuf[..])
      {
        moves := moves - 1;
        if
        case true => var _, _ := vq.DeviceTake();
        case vq.held != {} => Dma();
        case true =>
          var elem: Ring.UsedElem := *;
          Complete(elem);
      }
    }

    method Dma()
      requires Valid() && vq != null && vq.held != {}
      modifies rxBuf
      ensures Valid() && !Quiescent()
    {
      hide VQ.Represents, VQ.HeldIs, NonNull;
      vq.HeldHasChain();
      var at: int := *;
      var b: int := *;
      if 0 <= at < rxBuf.Length && 0 <= b < 0x100 {
        rxBuf[at] := b;
      }
    }

    method Complete(elem: Ring.UsedElem)
      requires Valid() && vq != null
      modifies vq, vq.usedRing
      ensures Valid() && Moved(old(vq.ring), vq.ring)
    {
      hide VQ.Represents;
      vq.Facts();
      var room := vq.DeviceHasRoom();
      if room && (elem.id >= vq.num || elem.id in vq.held) {
        vq.DeviceUse(elem);
      }
    }

    method NextTag() returns (tag: u16)
      requires nextTag < Protocol.P9_NOTAG
      modifies this`nextTag
      ensures tag == old(nextTag) && nextTag == TagAfter(old(nextTag)) && nextTag < Protocol.P9_NOTAG
    {
      tag := nextTag;
      nextTag := (nextTag as int + 1) % 0x1_0000;
      if nextTag == Protocol.P9_NOTAG {
        nextTag := 0;
      }
    }

    /** GetBuf on the handler's queue. */
    method Get() returns (cookie: nat, len: u32)
      requires Valid() && vq != null
      modifies Queue()
      ensures Valid() && Ring.Inv(old(vq.ring)) && vq.ring == Ring.Step(old(vq.ring), Ring.Poll).0
      ensures if Ring.Ready(old(vq.ring))
              then Ring.Step(old(vq.ring), Ring.Poll).1 == Ring.Returned(cookie, len) else cookie == 0
    {
      hide VQ.Represents, VQ.HeldIs, Ring.Inv, Shrunk;
      vq.Facts();
      SawNothing(vq.ring, 0, 0);
      PollShrinks(vq.ring, vq.ring);
      cookie, len := vq.GetBuf();
    }

    /** One poll: the device moves, GetBuf is called, and the device may move again. */
    method PollOnce(ghost r0: Ring.Ring) returns (cookie: nat, len: u32, ghost polled: Ring.Ring)
      requires Valid() && vq != null && Shrunk(r0, vq.ring)
      modifies this`polls, this`log, rxBuf, Queue()
      ensures Valid() && Shrunk(r0, vq.ring) && polls == old(polls) + 1
      ensures log == old(log) + if cookie != 0 then [Completed(rxBuf[..], len)] else []
      ensures Ring.Inv(polled) && Polled(old(vq.ring), polled, vq.ring, cookie, len)
      ensures cookie != 0 ==> Consumed(r0, vq.ring, len) && vq.ring.consumed == old(vq.ring).consumed + 1
      ensures cookie == 0 ==> vq.ring.consumed == old(vq.ring).consumed
    {
      hide Ring.Inv, Ring.Step, Ring.Ready, Shrunk, Moved, Consumed, Polled, NonNull, Sane;
      ghost var r := vq.ring;
      Device();
      QueueFacts();
      polled := vq.ring;
      cookie, len := Get();
      polls := polls + 1;
      ghost var after := vq.ring;
      Device();
      PollFacts(r0, r, polled, after, vq.ring, cookie, len);
      if cookie != 0 {
        log := log + [Completed(rxBuf[..], len)];
      }
    }

    lemma QueueFacts()
      requires Valid() && vq != null
      ensures Ring.Inv(vq.ring) && NonNull(vq.ring)
    {
      vq.Facts();
    }

    lemma Start(tag: u16)
      requires Valid() && vq != null
      ensures Shrunk(vq.ring, vq.ring) && Saw(vq.ring, vq.ring, []) && Dropped([], tag, msize)
    {
      vq.Facts();
      SawNothing(vq.ring, tag, msize);
    }

    /** The checks on a completion: its length, and the tag and size in the receive buffer. */
    method Accepts(expected: u16, len: u32) returns (ok: bool)
      requires rxBuf.Length >= 7
      ensures ok == Matches(rxBuf[..], expected, len, msize)
    {
      hide U16At, U32At;
      if !(7 <= len <= msize) {
        return false;
      }
      var tag, _ := ReadU16(rxBuf, 5);
      var size, _ := ReadU32(rxBuf, 0);
      ok := tag == expected && size == len;
    }

    /** The poll loop of V9P_Transact. The clock is looked at every 4096 polls; it passes the
        deadline at some look. */
    method AwaitReply(expected: u16) returns (written: u32, ghost seen: seq<Note>)
      requires Valid() && vq != null
      modifies this`polls, this`log, rxBuf, Queue()
      ensures Valid() && Shrunk(old(vq.ring), vq.ring) && |vq.ring.chains| <= |old(vq.ring).chains|
      ensures Saw(old(vq.ring), vq.ring, seen) && log == old(log) + seen && polls >= old(polls)
      ensures written == 0 ==> Dropped(seen, expected, msize) && polls >= old(polls) + 4096
      ensures written != 0 ==> seen != [] && Dropped(seen[..|seen| - 1], expected, msize)
      ensures written != 0 ==> seen[|seen| - 1] == Completed(rxBuf[..], written)
      ensures written != 0 ==> Matches(rxBuf[..], expected, written, msize) && Consumed(old(vq.ring), vq.ring, written)
    {
      hide VQ.Represents, VQ.HeldIs, Ring.Inv, Consumed, Shrunk, Polled, Saw, Dropped, Matches, NonNull, Sane;
      ghost var r0 := vq.ring;
      var looks: int := *;
      var count := 0;
      seen := [];
      Start(expected);
      while count < 4096 || count < 4096 * looks
        invariant Valid() && Shrunk(r0, vq.ring) && polls == old(polls) + count
        invariant Saw(r0, vq.ring, seen) && Dropped(seen, expected, msize) && log == old(log) + seen
        decreases 4096 + (if looks > 0 then 4096 * looks else 0) - count
      {
        ghost var r := vq.ring;
        var cookie, len, polled := PollOnce(r0);
        PolledFacts(r, polled, vq.ring, cookie, len);
        SawMore(r0, r, vq.ring, seen, if cookie != 0 then [Completed(rxBuf[..], len)] else []);
        assert seen + [] == seen;
        if cookie != 0 {
          var ok := Accepts(expected, len);
          DropMore(seen, Completed(rxBuf[..], len), expected, msize);
          seen := seen + [Completed(rxBuf[..], len)];
          if ok {
            ShrunkSize(r0, vq.ring);
            return len, seen;
          }
        }
        count := count + 1;
      }
      ShrunkSize(r0, vq.ring);
      written := 0;
    }

    /** AddBuf of one buffer to send and the receive buffer. */
    method Post(addr: u32, len: u32, cookie: nat) returns (ok: bool, ghost req: Ring.Request)
      requires Valid() && vq != null && cookie != 0
      modifies Queue()
      ensures Valid() && ok == (2 <= |old(vq.ring).free|)
      ensures req == Ring.Request([Ring.Sg(addr, len), Ring.Sg(rxPhys, msize)], 1, cookie)
      ensures vq.ring == if ok then Ring.Submitted(old(vq.ring), req) else old(vq.ring)
      ensures |vq.ring.chains| == |old(vq.ring).chains| + if ok then 1 else 0
    {
      hide VQ.Represents, VQ.HeldIs, Ring.Heads, Ring.Partition, Ring.AvailOk, Ring.UsedOk;
      vq.Facts();
      Ring.HeadsAreNotFree(vq.ring);
      var sg := [Ring.Sg(addr, len), Ring.Sg(rxPhys, msize)];
      req := Ring.Request(sg, 1, cookie);
      if |vq.ring.free| >= 2 {
        AddSize(vq.ring.chains, vq.ring.free[0], Ring.Chain(vq.ring.free[..2], req, |vq.ring.avail|));
      }
      var rc := vq.AddBuf(sg, 1, cookie);
      ok := rc >= 0;
    }

    /** The drain loop: wait up to twice for a completion. */
    method Drain() returns (drained: nat, ghost got: seq<Note>)
      requires Valid() && vq != null
      modifies this`polls, this`log, rxBuf, Queue()
      ensures Valid() && drained <= 2 && |vq.ring.chains| + drained == |old(vq.ring).chains|
      ensures polls >= old(polls) + if drained < 2 then 4096 else 0
      ensures drained == |got| && UpTo(2, got) && log == old(log) + got && Shrunk(old(vq.ring), vq.ring)
    {
      hide Sane, Consumed, Polled;
      ghost var r0 := vq.ring;
      drained, got := 0, [];
      var waiting := true;
      while drained < 2 && waiting
        invariant Valid() && Shrunk(r0, vq.ring) && drained <= 2
        invariant vq.ring.consumed == r0.consumed + drained
        invariant polls >= old(polls) + if waiting then 0 else 4096
        invariant drained == |got| && UpTo(2, got) && log == old(log) + got
        decreases 2 - drained, waiting
      {
        ghost var note;
        waiting, note := DrainOne(r0);
        if waiting {
          drained := drained + 1;
          got := got + [note];
        }
      }
    }

    /** Polls until a completion arrives or the clock, looked at every 4096 polls, is late. */
    method DrainOne(ghost r0: Ring.Ring) returns (got: bool, ghost note: Note)
      requires Valid() && vq != null && Shrunk(r0, vq.ring)
      modifies this`polls, this`log, rxBuf, Queue()
      ensures Valid() && Shrunk(r0, vq.ring)
      ensures vq.ring.consumed == old(vq.ring).consumed + if got then 1 else 0
      ensures polls >= old(polls) + if got then 1 else 4096
      ensures log == (if got then old(log) + [note] else old(log)) && (got ==> note.Completed?)
    {
      hide Sane, Consumed, Shrunk, Polled, Ring.Inv;
      var looks: int := *;
      var count := 0;
      while count < 4096 || count < 4096 * looks
        invariant Valid() && Shrunk(r0, vq.ring) && vq.ring.consumed == old(vq.ring).consumed
        invariant polls == old(polls) + count && log == old(log)
        decreases 4096 + (if looks > 0 then 4096 * looks else 0) - count
      {
        var cookie, len, _ := PollOnce(r0);
        if cookie != 0 {
          return true, Completed(rxBuf[..], len);
        }
        count := count + 1;
      }
      got, note := false, Flushing;
    }

    /** The flush buffer holds a message the server understands as a Tflush, with this tag, of the
        tag `stalled`. */
    ghost predicate FlushHolds(tag: u16, stalled: u16)
      reads flushBuf
    {
      flushBuf.Length >= 9 && Server.Parse(flushBuf[..9]) == Server.Understood(Protocol.Tflush(stalled), tag)
    }

    /** A Tflush for the stalled tag, built in its own buffer so that the
        stalled request is not overwritten, then the drain. */
    method Cancel(stalled: u16) returns (drained: nat, ghost got: seq<Note>, ghost asked: Ring.Ring)
      requires Valid() && vq != null
      modifies this`nextTag, this`polls, this`log, flushBuf, rxBuf, Queue()
      ensures Valid() && drained <= 2 && |vq.ring.chains| + drained <= |old(vq.ring).chains| + 1
      ensures polls >= old(polls) + if drained < 2 <= |old(vq.ring).free| then 4096 else 0
      ensures nextTag == TagAfter(old(nextTag)) && FlushHolds(old(nextTag), stalled)
      ensures drained == |got| && UpTo(2, got) && log == old(log) + [Flushing] + got
      ensures 2 <= |old(vq.ring).free| ==>
        Posted(old(vq.ring), asked, flushPhys, 9, rxPhys, msize, FLUSH_COOKIE) && Shrunk(asked, vq.ring)
    {
      hide Sane, Ring.Inv, Protocol.OnWire, Protocol.Length, Server.Parse, Shrunk;
      var tag := NextTag();
      FlushSize(stalled);
      Server.RequestUnderstood(Protocol.Tflush(stalled), tag, Protocol.P9_MSIZE);
      var end := Protocol.PutRequest(flushBuf, Protocol.Tflush(stalled), tag);
      log := log + [Flushing];
      drained, got := 0, [];
      var ok, _ := Post(flushPhys, end, FLUSH_COOKIE);
      asked := vq.ring;
      if ok {
        drained, got := Drain();
      }
    }

    /** V9P_Transact. From a quiescent queue outside a reset it returns to a quiescent queue,
        unless a transport reset it had to make failed; and a reply it returns is the
        completion of the request just sent, with its tag and size. The log tells the rest: it
        returns the first completion that matches; without one, after 4096 polls, it sends a
        Tflush, and begins a reset exactly if then fewer than two completions arrive. */
    method Transact(txSize: u32)
      returns (written: u32, ghost asked: Ring.Ring, ghost polled: Ring.Ring, ghost seen: seq<Note>,
               ghost drained: seq<Note>)
      requires Valid() && vq != null && 7 <= txSize <= txBuf.Length
      modifies this, txBuf, rxBuf, flushBuf, Queue()
      ensures Valid() && inReset == old(inReset) && fresh(Queue() - old(Queue()))
      ensures Escalation(old(resets), old(failures), old(inReset))
      ensures resets == old(resets) ==>
        vq == old(vq) && msize == old(msize) && pool == old(pool) && txBuf[..] == old(txBuf[..])
      ensures written != 0 ==> resets == old(resets) && nextTag == old(nextTag)
      ensures written != 0 ==> Matches(rxBuf[..], U16At(old(txBuf[..]), 5), written, msize)
      ensures written != 0 && msize <= Protocol.P9_MSIZE ==> written <= rxBuf.Length
      ensures old(log) + [Asking(old(txBuf[..txSize]))] + seen <= log && UpTo(|seen|, seen)
      ensures 2 > |old(vq.ring).free| ==> written == 0 && seen == [] && resets == old(resets)
      ensures 2 > |old(vq.ring).free| ==> log == old(log) + [Asking(old(txBuf[..txSize]))]
      ensures 2 <= |old(vq.ring).free| ==>
        Posted(old(vq.ring), asked, txPhys, txSize, rxPhys, old(msize), TX_COOKIE) && Shrunk(asked, polled)
      ensures 2 <= |old(vq.ring).free| ==> Saw(old(vq.ring), polled, seen)
      ensures written != 0 ==> log == old(log) + [Asking(old(txBuf[..txSize]))] + seen
      ensures written != 0 ==> seen != [] && seen[|seen| - 1] == Completed(rxBuf[..], written)
      ensures written != 0 ==> Dropped(seen[..|seen| - 1], U16At(old(txBuf[..]), 5), msize)
      ensures written == 0 && 2 <= |old(vq.ring).free| ==>
        Dropped(seen, U16At(old(txBuf[..]), 5), old(msize)) && polls >= old(polls) + 4096
      ensures written == 0 && 2 <= |old(vq.ring).free| ==>
        Recovered(old(log) + [Asking(old(txBuf[..txSize]))] + seen, drained, old(resets), old(inReset))
      ensures written == 0 && old(Quiescent()) && seen != [] && !old(inReset) ==> resets == old(resets) + 1
      ensures Grew(old(polls), old(log))
      ensures written == 0 && resets == old(resets) && 2 <= |old(vq.ring).free| ==>
        FlushHolds(old(nextTag), U16At(old(txBuf[..]), 5))
      ensures written != 0 && old(Quiescent()) ==> Answered(old(vq.ring), vq.ring, written)
      ensures old(Quiescent()) && !old(inReset) ==> Quiescent() || failures > old(failures)
      ensures resets > old(resets) && failures == old(failures) ==> Quiescent()
      decreases if inReset then 0 else 5, 1
    {
      hide Sane, Answered, Matches, U16At, FlushHolds, Dropped, Saw, UpTo, Posted, Shrunk;
      var expected, _ := ReadU16(txBuf, 5);
      drained := [];
      var posted;
      posted, written, asked, seen := Send(txSize, expected);
      polled := vq.ring;
      SeenCompletions(old(vq.ring), polled, seen);
      if posted && written == 0 {
        drained := Recover(expected);
      }
    }

    /** The first half of V9P_Transact: post the request and poll for its reply. */
    method Send(txSize: u32, expected: u16)
      returns (posted: bool, written: u32, ghost asked: Ring.Ring, ghost seen: seq<Note>)
      requires Valid() && vq != null && txSize <= txBuf.Length
      modifies this`polls, this`log, rxBuf, Queue()
      ensures Valid() && posted == (2 <= |old(vq.ring).free|) && polls >= old(polls)
      ensures log == old(log) + [Asking(txBuf[..txSize])] + seen
      ensures !posted ==> written == 0 && seen == [] && vq.ring == old(vq.ring)
      ensures posted ==>
        Posted(old(vq.ring), asked, txPhys, txSize, rxPhys, msize, TX_COOKIE) && Shrunk(asked, vq.ring)
      ensures posted ==> Saw(old(vq.ring), vq.ring, seen)
      ensures posted && written == 0 ==> Dropped(seen, expected, msize) && polls >= old(polls) + 4096
      ensures written != 0 ==> Matches(rxBuf[..], expected, written, msize) && written <= msize
      ensures written != 0 ==> seen != [] && seen[|seen| - 1] == Completed(rxBuf[..], written)
      ensures written != 0 ==> Dropped(seen[..|seen| - 1], expected, msize)
      ensures written != 0 && old(Quiescent()) ==> Answered(old(vq.ring), vq.ring, written) && Quiescent()
      ensures old(Quiescent()) ==> |vq.ring.chains| <= 1 && (seen != [] ==> |vq.ring.chains| == 0)
    {
      hide Sane, Ring.Inv, Shrunk, Consumed, Answered, Matches, Dropped, Saw;
      ghost var r := vq.ring;
      seen := [];
      log := log + [Asking(txBuf[..txSize])];
      var ok, req := Post(txPhys, txSize, TX_COOKIE);
      asked := vq.ring;
      if !ok {
        return false, 0, asked, [];
      }
      posted := true;
      written, seen := AwaitReply(expected);
      SeenBefore(r, req, vq.ring, seen);
      if written != 0 {
        MatchFits(rxBuf[..], expected, written, msize);
        if r.chains == map[] {
          OwnAnswer(r, req, vq.ring, written);
          NoChains(r, vq.ring, written);
        }
      }
      if r.chains == map[] && seen != [] {
        OwnDropped(r, req, vq.ring, seen);
      }
    }

    /** The timeout path: cancel, and reset the transport unless both chains came back or a
        reset is already under way. */
    method Recover(stalled: u16) returns (ghost drained: seq<Note>)
      requires Valid() && vq != null
      modifies this, txBuf, rxBuf, flushBuf, Queue()
      ensures Valid() && inReset == old(inReset) && fresh(Queue() - old(Queue()))
      ensures Escalation(old(resets), old(failures), old(inReset)) && Grew(old(polls), old(log))
      ensures Recovered(old(log), drained, old(resets), old(inReset))
      ensures |old(vq.ring).chains| == 0 && !old(inReset) ==> resets == old(resets) + 1
      ensures resets == old(resets) ==>
        vq == old(vq) && msize == old(msize) && pool == old(pool) && txBuf[..] == old(txBuf[..])
      ensures resets == old(resets) ==> FlushHolds(old(nextTag), stalled)
      ensures |old(vq.ring).chains| <= 1 && !old(inReset) ==> Quiescent() || failures > old(failures)
      ensures resets > old(resets) && failures == old(failures) ==> Quiescent()
      decreases if inReset then 0 else 4, 0
    {
      hide Sane, FlushHolds, UpTo, Posted, Shrunk, Said, Welcome, NewPool;
      var count;
      ghost var asked;
      count, drained, asked := Cancel(stalled);
      if count < 2 && !inReset {
        var _, _ := Reset();
      }
    }

    /** What the timeout path notes: a Tflush, then up to two completions, then a reset exactly
        if there were fewer and no reset was under way. */
    ghost predicate Recovered(log0: seq<Note>, drained: seq<Note>, resets0: nat, inReset0: bool)
      reads this
    {
      UpTo(2, drained)
      && if |drained| < 2 && !inReset0
         then log0 + [Flushing] + drained + [Resetting] <= log && resets == resets0 + 1
         else log == log0 + [Flushing] + drained && resets == resets0
    }

    /** At most one reset begun, none inside a reset, and no failure without one. */
    ghost predicate Escalation(resets0: nat, failures0: nat, inReset0: bool)
      reads this
    {
      && resets0 <= resets <= (if inReset0 then resets0 else resets0 + 1)
      && failures0 <= failures <= failures0 + (resets - resets0)
    }

    /** V9P_Reset: the old queue and all its chains are revoked; a new queue and a new session
        replace them, or the reset fails. */
    method Reset() returns (ok: bool, ghost g: Greeting)
      requires Valid()
      modifies this, txBuf, rxBuf, flushBuf
      ensures Valid() && inReset == old(inReset) && fresh(Queue() - old(Queue()))
      ensures Grew(old(polls), old(log))
      ensures if old(inReset) then log == old(log) else old(log) + [Resetting] <= log
      ensures old(inReset) ==> !ok && vq == old(vq) && resets == old(resets) && failures == old(failures)
      ensures !old(inReset) ==> resets == old(resets) + 1 && failures == old(failures) + if ok then 0 else 1
      ensures ok ==> Quiescent() && nextTag == 2
      ensures ok && old(pool) != null ==> NewPool(pool)
      ensures !old(inReset) ==> Said(g, old(log) + [Resetting], log, rootFid, old(msize))
      ensures !old(inReset) ==>
        (ok <==> Welcome(g, old(msize), msize) && (old(pool) == null || pool != null))
      decreases if inReset then 0 else 3
    {
      hide Sane, NewPool, Said, Welcome;
      g := Greeting(false, [], []);
      if inReset {
        return false, g;
      }
      inReset := true;
      resets := resets + 1;
      log := log + [Resetting];
      ok, g := NewSession();
      inReset := false;
      if !ok {
        failures := failures + 1;
      }
    }

    /** The body of V9P_Reset: tear down, initialise, Tversion, Tattach, new pool. */
    method NewSession() returns (ok: bool, ghost g: Greeting)
      requires Valid() && inReset
      modifies this, txBuf, rxBuf, flushBuf
      ensures Valid() && inReset && fresh(Queue() - old(Queue()))
      ensures resets == old(resets) && failures == old(failures) && Grew(old(polls), old(log))
      ensures ok ==> Quiescent() && nextTag == 2
      ensures ok && old(pool) != null ==> NewPool(pool)
      ensures Said(g, old(log), log, rootFid, old(msize))
      ensures ok <==> Welcome(g, old(msize), msize) && (old(pool) == null || pool != null)
      decreases 2
    {
      hide Sane, Said, Welcome, NewPool;
      NoQueue();
      NothingSaid(log, rootFid, msize);
      vq := null;
      var up: bool := *;
      g := Greeting(up, [], []);
      if !up {
        return false, g;
      }
      ChooseQueue();
      ok, g := Handshake();
      if !ok {
        return;
      }
      if pool != null {
        ok := Refill();
      }
    }

    /** A new pool for the new session, with or without memory. */
    method Refill() returns (ok: bool)
      requires Valid() && pool != null
      modifies this`pool
      ensures Valid() && ok == (pool != null) && (ok ==> NewPool(pool))
    {
      hide Sane;
      var forPool: bool, forStack: bool := *, *;
      pool := Create(forPool, forStack);
      ok := pool != null;
    }

    /** The device is up: Tversion with no tag, then Tattach of the root with tag 1. It succeeds
        exactly if both replies are good. */
    method Handshake() returns (ok: bool, ghost g: Greeting)
      requires Valid() && inReset && vq != null
      modifies this, txBuf, rxBuf, flushBuf, Queue()
      ensures Valid() && inReset && fresh(Queue() - old(Queue()))
      ensures resets == old(resets) && failures == old(failures) && Grew(old(polls), old(log))
      ensures ok ==> nextTag == 2 && pool == old(pool) && (old(Quiescent()) ==> Quiescent())
      ensures g.up && Said(g, old(log), log, rootFid, old(msize)) && (ok <==> Welcome(g, old(msize), msize))
      decreases 1, 2
    {
      hide Sane, Good, Asked, U32At;
      nextTag := 1;
      ghost var log0 := log;
      var versionErr, _, v := Version();
      g := Greeting(true, v, []);
      if versionErr != 0 {
        return false, g;
      }
      ghost var log1 := log;
      var attachErr, _, a := Attach(rootFid);
      g := Greeting(true, v, a);
      AskedStays(log1, log, |log0|, Protocol.Tversion(524288), 0xFFFF, v);
      ok := attachErr == 0;
    }

    /** V9P_InitVirtIO when it succeeds: a new queue of the size the device offers. */
    method ChooseQueue()
      requires Valid() && vq == null
      modifies this`vq
      ensures Valid() && Quiescent() && fresh(Queue())
    {
      hide VQ.Represents, VQ.HeldIs, Ring.Inv;
      assert Ring.QueueSize(1);
      var num: nat :| Ring.QueueSize(num);
      vq := new VQ.VirtQueue(num, modernMode);
    }

    /** Builds a request in the transmit buffer and transacts it. The log tells what was asked and
        what came back. */
    method Exchange(r: Protocol.Request, tag: u16) returns (len: u32, ghost seen: seq<Note>)
      requires Valid() && vq != null && Protocol.Length(r) <= txBuf.Length
      modifies this, txBuf, rxBuf, flushBuf, Queue()
      ensures Valid() && inReset == old(inReset) && fresh(Queue() - old(Queue()))
      ensures Escalation(old(resets), old(failures), old(inReset)) && Grew(old(polls), old(log))
      ensures resets == old(resets) ==> vq == old(vq) && msize == old(msize) && pool == old(pool)
      ensures old(log) + [Asking(Protocol.OnWire(r, tag))] + seen <= log && UpTo(|seen|, seen)
      ensures len != 0 ==> resets == old(resets) && nextTag == old(nextTag)
      ensures len != 0 ==> Matches(rxBuf[..], tag, len, msize)
      ensures len != 0 ==> log == old(log) + [Asking(Protocol.OnWire(r, tag))] + seen
      ensures len != 0 ==> seen != [] && seen[|seen| - 1] == Completed(rxBuf[..], len)
      ensures len == 0 ==> Dropped(seen, tag, old(msize))
      ensures len != 0 && old(Quiescent()) ==> Answered(old(vq.ring), vq.ring, len)
      ensures old(Quiescent()) && !old(inReset) ==> Quiescent() || failures > old(failures)
      decreases if inReset then 1 else 6, 0
    {
      hide Sane, Matches, Answered, Recovered, Saw, Dropped, FlushHolds, UpTo, U16At, Protocol.OnWire, Protocol.Length;
      hide Posted, Shrunk;
      NoneDropped(tag, msize);
      var end := Protocol.PutRequest(txBuf, r, tag);
      AtLeastHeader(r);
      Protocol.RequestTag(txBuf[..], r, tag);
      var rxLen, _, _, found, _ := Transact(end);
      len, seen := rxLen, found;
    }

    lemma NoneDropped(tag: u16, size: u32)
      ensures Dropped([], tag, size)
    {
    }

    lemma AtLeastHeader(r: Protocol.Request)
      ensures Protocol.Length(r) >= 7
    {
    }

    /** What a client call without further decoding returns for a reply of `len` bytes. */
    function ReplyError(len: u32, need: nat): (err: int)
      requires 11 <= rxBuf.Length
      reads rxBuf
    {
      if len == 0 then -5
      else if Protocol.CheckError(rxBuf[..], len) != 0 then Protocol.CheckError(rxBuf[..], len)
      else if len < need then -5
      else 0
    }

    /** P9_Version. The server's msize is taken as it comes. */
    method Version() returns (err: int, ghost len: u32, ghost seen: seq<Note>)
      requires Valid() && vq != null
      modifies this, txBuf, rxBuf, flushBuf, Queue()
      ensures Valid() && inReset == old(inReset) && fresh(Queue() - old(Queue()))
      ensures Escalation(old(resets), old(failures), old(inReset)) && Grew(old(polls), old(log))
      ensures err == 0 ==> resets == old(resets) && vq == old(vq) && nextTag == old(nextTag) && pool == old(pool)
      ensures err == ReplyError(len, 13) && (len != 0 ==> Matches(rxBuf[..], Protocol.P9_NOTAG, len, old(msize)))
      ensures resets == old(resets) ==> msize == if err == 0 then U32At(rxBuf[..], 7) else old(msize)
      ensures old(Quiescent()) && (err == 0 || !old(inReset)) ==> Quiescent() || failures > old(failures)
      ensures Asked(log, |old(log)|, Protocol.Tversion(524288), 0xFFFF, seen)
      ensures err == 0 <==> Good(seen, 0xFFFF, 13, old(msize))
      ensures err == 0 ==> |log| == |old(log)| + 1 + |seen| && seen[|seen| - 1].rx == rxBuf[..]
      decreases if inReset then 1 else 6, 1
    {
      hide Sane, Matches, U32At, Protocol.CheckError, Protocol.OnWire, Protocol.Length, UpTo, Asked, Good, Dropped;
      ghost var log0 := log;
      var request := Protocol.Tversion(Protocol.P9_MSIZE);
      Protocol.RequestFits(request, Protocol.P9_MSIZE);
      var rxLen;
      rxLen, seen := Exchange(request, Protocol.P9_NOTAG);
      len := rxLen;
      AskedNext(log0, log, request, 0xFFFF, seen);
      if rxLen == 0 {
        NoGoodReply(seen, 0xFFFF, 13, old(msize));
        return -5, len, seen;
      }
      GoodReply(seen, 0xFFFF, 13, old(msize), rxBuf[..], rxLen);
      err := Protocol.CheckError(rxBuf[..], rxLen);
      if err != 0 {
        return;
      }
      if rxLen < 13 {
        return -5, len, seen;
      }
      var size, _ := ReadU32(rxBuf, 7);
      msize := size;
    }

    /** P9_Attach */
    method Attach(fid: u32) returns (err: int, ghost len: u32, ghost seen: seq<Note>)
      requires Valid() && vq != null
      modifies this, txBuf, rxBuf, flushBuf, Queue()
      ensures Valid() && inReset == old(inReset) && fresh(Queue() - old(Queue()))
      ensures Escalation(old(resets), old(failures), old(inReset)) && Grew(old(polls), old(log))
      ensures err == 0 ==> resets == old(resets) && vq == old(vq) && pool == old(pool)
      ensures err == 0 ==> nextTag == TagAfter(old(nextTag))
      ensures err == ReplyError(len, 0) && (len != 0 ==> Matches(rxBuf[..], old(nextTag), len, msize))
      ensures old(Quiescent()) && (err == 0 || !old(inReset)) ==> Quiescent() || failures > old(failures)
      ensures Asked(log, |old(log)|, Protocol.Tattach(fid), old(nextTag), seen)
      ensures err == 0 <==> Good(seen, old(nextTag), 0, old(msize))
      ensures err == 0 ==> |log| == |old(log)| + 1 + |seen|
      ensures resets == old(resets) ==> msize == old(msize)
      decreases if inReset then 1 else 6, 1
    {
      hide Sane, Matches, Protocol.CheckError, Protocol.OnWire, Protocol.Length, UpTo, Asked, Good, Dropped;
      ghost var log0 := log;
      Protocol.RequestFits(Protocol.Tattach(fid), Protocol.P9_MSIZE);
      var tag := NextTag();
      var rxLen;
      rxLen, seen := Exchange(Protocol.Tattach(fid), tag);
      len := rxLen;
      AskedNext(log0, log, Protocol.Tattach(fid), tag, seen);
      if rxLen == 0 {
        NoGoodReply(seen, tag, 0, old(msize));
        return -5, len, seen;
      }
      GoodReply(seen, tag, 0, old(msize), rxBuf[..], rxLen);
      err := Protocol.CheckError(rxBuf[..], rxLen);
    }

    /** The client writes anything into the transmit buffer. */
    method AnyRequest()
      requires Valid()
      modifies txBuf
      ensures Valid() && (old(Quiescent()) ==> Quiescent())
    {
      hide Sane;
      var more: int := *;
      while more > 0
        invariant Valid() && (old(Quiescent()) ==> Quiescent())
      {
        more := more - 1;
        var at: int := *;
        var b: int := *;
        if 0 <= at < txBuf.Length && 0 <= b < 0x100 {
          txBuf[at] := b;
        }
      }
    }

    /** The device moves while the caller parses the reply. From a quiescent queue the receive
        buffer stays as it is. */
    method Rest()
      requires Valid() && vq != null
      modifies rxBuf, Queue()
      ensures Valid()
      ensures old(Quiescent()) ==> Quiescent() && rxBuf[..] == old(rxBuf[..])
    {
      hide Sane;
      Device();
    }

    /** One transaction with any request, and the device's moves while its reply, in the receive
        buffer `rx`, is parsed. */
    method OneTransaction() returns (ghost rx: Bytes)
      requires Valid() && vq != null && !inReset
      modifies this, txBuf, rxBuf, flushBuf, Queue()
      ensures Valid() && !inReset && fresh(Queue() - old(Queue())) && failures >= old(failures)
      ensures old(Quiescent()) && failures == old(failures) ==> Quiescent() && rxBuf[..] == rx
    {
      hide Sane, Matches, Answered, Recovered, Saw, Dropped, FlushHolds;
      AnyRequest();
      var size: int := *;
      var _, _, _, _, _ := Transact(if 7 <= size <= txBuf.Length then size else 7);
      rx := rxBuf[..];
      if vq != null {
        Rest();
      }
    }

    /** Any number of transactions, each with a new request and a device that also moves between
        them: as long as no reset fails, the queue is quiescent between them, no transaction is
        left inside a reset, and the receive buffer the caller parses (`later`) is the one the
        transaction returned (`returned`). */
    method Transactions(n: nat) returns (ghost returned: seq<Bytes>, ghost later: seq<Bytes>)
      requires Valid() && Quiescent() && !inReset
      modifies this, txBuf, rxBuf, flushBuf, Queue()
      ensures Valid() && !inReset && (Quiescent() || failures > old(failures))
      ensures |returned| == |later| <= n && (failures == old(failures) ==> |returned| == n && returned == later)
    {
      hide Sane;
      returned, later := [], [];
      for i := 0 to n
        invariant Valid() && !inReset && fresh(Queue() - old(Queue()))
        invariant Quiescent() || failures > old(failures)
        invariant failures >= old(failures)
        invariant |returned| == |later| <= i && (failures == old(failures) ==> |returned| == i && returned == later)
      {
        if vq != null {
          ghost var rx := OneTransaction();
          returned, later := returned + [rx], later + [rxBuf[..]];
        }
      }
    }
  }
}
