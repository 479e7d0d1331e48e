/** The fids of one session: the pool on this side, the bindings on the server's, and the
    FUSE callbacks that walk, use and clunk them. A reset starts another session. */
module Session {
  import opened FidPool
  import opened Machine

  /** How a Twalk can end: no usable reply (timeout or truncated), whether or not the server
      acted; an error reply, with what p9_check_error makes of its code; or an Rwalk with
      `nwqid` qids, after which a partly walked fid may still be bound (`keeps`). */
  datatype WalkOutcome = NoReply(processed: bool) | Refused(code: int) | Walked(nwqid: nat, keeps: bool)

  /** What became of a request: answered, processed with the reply lost, or lost itself. */
  datatype Delivery = Answered | Processed | Lost

  /** One walk to a path of `nwname` names: how it ends, with which code the server refuses a
      fid in use, and the fate of the Tclunk that undoes a short walk. */
  datatype Walking = Walking(nwname: nat, outcome: WalkOutcome, busy: int, undo: Delivery)

  /** The server refuses to walk to a fid it has bound. */
  function Met(w: Walking, inUse: bool): (o: WalkOutcome) {
    if inUse && w.outcome.Walked? then Refused(w.busy) else w.outcome
  }

  /** What P9_Walk returns. An error reply with code 0 passes for an Rwalk with no qids. */
  function WalkError(o: WalkOutcome, nwname: nat): (err: int) {
    match o
    case NoReply(_) => -5
    case Refused(code) => if code != 0 then code else if nwname == 0 then 0 else -2
    case Walked(nwqid, _) => if nwqid == nwname then 0 else -2
  }

  // ---- The books ----

  /** The server's bound fids, those given to MarkOrphan, those left bound for want of a Tclunk
      (lost, or never sent), those leaked for want of memory, and how often a request got no
      reply or a Tclunk was not sent. */
  datatype Ledger = Ledger(
    bound: set<u32>, orphaned: set<u32>, unclunked: set<u32>, dropped: set<u32>, losses: nat)

  /** `held` is taken from the pool. Every bound fid is the root, held, an orphan, or lacks a
      Tclunk; every fid ever handed out is held, free, an orphan, or was dropped. */
  ghost predicate Books(p: Pool, l: Ledger, held: set<u32>) {
    && Sound(p, held)
    && 0 in l.bound && l.bound <= {0} + held + l.orphaned + l.unclunked
    && (forall f :: f in l.orphaned ==> 1 <= f < p.next && f !in p.free && f !in held)
    && (forall f :: f in p.orphans ==> f in l.orphaned)
    && (forall f :: f in l.unclunked ==> 1 <= f < p.next)
    && (forall f :: 1 <= f < p.next ==> f in held || f in p.free || f in l.orphaned || f in l.dropped)
    && (l.losses == 0 ==> l.bound <= {0} + held)
  }

  /** A fid that may go back to the pool: not bound, unless it lacks a Tclunk. */
  predicate Settled(l: Ledger, fid: u32) {
    fid in l.bound ==> fid in l.unclunked && l.losses > 0
  }

  function Clunked(l: Ledger, fid: u32, sent: Delivery): (l': Ledger) {
    Ledger(
      if sent.Lost? then l.bound else l.bound - {fid}, l.orphaned,
      if sent.Lost? then l.unclunked + {fid} else l.unclunked, l.dropped,
      if sent.Answered? then l.losses else l.losses + 1)
  }

  /** The fid of an Rwalk with no qids to a longer walk, left bound: P9_Walk sends no Tclunk. */
  function Lingering(l: Ledger, fid: u32): (l': Ledger) {
    l.(bound := l.bound + {fid}, unclunked := l.unclunked + {fid}, losses := l.losses + 1)
  }

  /** The books after P9_Walk. */
  function AfterWalk(l: Ledger, fid: u32, o: WalkOutcome, nwname: nat, undo: Delivery): (l': Ledger) {
    match o
    case NoReply(processed) =>
      l.(bound := if processed then l.bound + {fid} else l.bound, losses := l.losses + 1)
    case Refused(_) => l
    case Walked(nwqid, keeps) =>
      if nwqid == nwname then l.(bound := l.bound + {fid})
      else if nwqid == 0 then if keeps then Lingering(l, fid) else l
      else Clunked(if keeps then l.(bound := l.bound + {fid}) else l, fid, undo)
  }

  /** The result of walk_to with this fid, and the books after it. */
  function Got(l: Ledger, fid: u32, w: Walking): (err: int) {
    WalkError(Met(w, fid in l.bound), w.nwname)
  }

  function Tried(l: Ledger, fid: u32, w: Walking): (l': Ledger) {
    var l1 := AfterWalk(l, fid, Met(w, fid in l.bound), w.nwname, w.undo);
    if Got(l, fid, w) == -5 then l1.(orphaned := l1.orphaned + {fid}) else l1
  }

  /** The books after a callback with one walk, whose fid is clunked in the end. */
  function PathBook(l: Ledger, fid: u32, w: Walking, sent: Delivery): (l': Ledger) {
    if Got(l, fid, w) == 0 then Clunked(Tried(l, fid, w), fid, sent) else Tried(l, fid, w)
  }

  /** The books after the second half of rename (`a` is clunked first) or link (`b` is). */
  function RestBook(l: Ledger, a: u32, b: u32, w: Walking, linking: bool, s1: Delivery, s2: Delivery): (l': Ledger) {
    var l2 := Tried(l, b, w);
    if Got(l, b, w) != 0 then Clunked(l2, a, s1)
    else if linking then Clunked(Clunked(l2, b, s1), a, s2)
    else Clunked(Clunked(l2, a, s1), b, s2)
  }

  function TwoBook(l: Ledger, a: u32, b: u32, w1: Walking, w2: Walking, linking: bool, s1: Delivery, s2: Delivery)
    : (l': Ledger)
  {
    if Got(l, a, w1) != 0 then Tried(l, a, w1) else RestBook(Tried(l, a, w1), a, b, w2, linking, s1, s2)
  }

  lemma ClunkKeeps(p: Pool, l: Ledger, fid: u32, sent: Delivery, held: set<u32>)
    requires Books(p, l, held) && fid in held
    ensures Books(p, Clunked(l, fid, sent), held) && Settled(Clunked(l, fid, sent), fid)
  {
  }

  lemma BindKeeps(p: Pool, l: Ledger, fid: u32, held: set<u32>)
    requires Books(p, l, held) && fid in held
    ensures Books(p, l.(bound := l.bound + {fid}), held)
  {
  }

  lemma WalkKeeps(p: Pool, l: Ledger, fid: u32, o: WalkOutcome, nwname: nat, undo: Delivery, held: set<u32>)
    requires Books(p, l, held) && fid in held && Settled(l, fid) && (o.Walked? ==> fid !in l.bound)
    ensures var l' := AfterWalk(l, fid, o, nwname, undo);
      && Books(p, l', held)
      && (WalkError(o, nwname) !in {0, -5} ==> Settled(l', fid))
      && (l'.losses == 0 && WalkError(o, nwname) != 0 ==> fid !in l'.bound)
  {
  }

  lemma FreeKeeps(p: Pool, l: Ledger, fid: u32, grown: bool, held: set<u32>)
    requires Books(p, l, held) && fid in held && Settled(l, fid)
    ensures Books(Next(p, Event.Free(fid, grown)), if grown then l else l.(dropped := l.dropped + {fid}), held - {fid})
  {
    var p' := Next(p, Event.Free(fid, grown));
    assert grown ==> p'.free[|p.free|] == fid;
    assert forall f :: f in p.free ==> f in p'.free;
  }

  lemma OrphanKeeps(p: Pool, l: Ledger, fid: u32, grown: bool, held: set<u32>)
    requires Books(p, l, held) && fid in held && (l.losses == 0 ==> fid !in l.bound)
    ensures Books(Next(p, Event.Orphan(fid, grown)), l.(orphaned := l.orphaned + {fid}), held - {fid})
  {
  }

  /** A taken fid is proper, not held, and bound at the server only if it lacks a Tclunk. */
  lemma TakeKeeps(p: Pool, l: Ledger, held: set<u32>)
    requires Books(p, l, held) && Available(p)
    ensures Books(Allocated(p).1, l, held + {Allocated(p).0})
    ensures 0 < Allocated(p).0 < NOFID && Allocated(p).0 !in held && Settled(l, Allocated(p).0)
    ensures Allocated(p).0 !in l.orphaned
  {
    AllocExact(p, held);
    if p.free != [] {
      Popped(p.free);
      assert p.free == p.free[..|p.free| - 1] + [p.free[|p.free| - 1]];
    }
  }

  // ---- What the world decides about one callback ----

  /** A callback and what happens to its requests. `op` is the result of the request made on the
      walked fid, `sent` the fate of the Tclunk in the end. */
  datatype Callback =
    | Path(w: Walking, op: int, sent: Delivery)
    | Resize(w: Walking, op: int, size: i64, sent: Delivery)
    | Modes(w: Walking, op: int, op2: int, sent: Delivery)
    | Opening(w: Walking, op: int, sent: Delivery)
    | Closing(fh: u32, sent: Delivery)
    | Pair(linking: bool, w: Walking, w2: Walking, op: int, sent: Delivery, sent2: Delivery)

  /** An Rwalk with no qids to a longer walk that leaves its fid bound. */
  predicate Lingers(w: Walking) {
    w.outcome.Walked? && w.outcome.nwqid == 0 < w.nwname && w.outcome.keeps
  }

  /** What leaves a fid bound that walk_to then frees: a short walk that binds, and is not undone
      or whose Tclunk is lost. */
  predicate StaysBound(w: Walking) {
    w.outcome.Walked? && w.outcome.nwqid != w.nwname && w.outcome.keeps && (w.outcome.nwqid == 0 || w.undo.Lost?)
  }

  predicate Undone(w: Walking) {
    !w.undo.Lost? && !Lingers(w)
  }

  /** Every fid to be released gets a Tclunk that reaches the server. */
  predicate ClunksArrive(c: Callback) {
    !c.sent.Lost? && (!c.Closing? ==> Undone(c.w)) && (c.Pair? ==> Undone(c.w2) && !c.sent2.Lost?)
  }

  predicate Replied(w: Walking) {
    !w.outcome.NoReply? && w.undo.Answered? && !Lingers(w)
  }

  /** No Twalk and no Tclunk times out, and no Tclunk is left unsent. */
  predicate AllReplied(c: Callback) {
    c.sent.Answered? && (!c.Closing? ==> Replied(c.w)) && (c.Pair? ==> Replied(c.w2) && c.sent2.Answered?)
  }

  /** No open is answered with an error whose code is 0. */
  predicate ProperCodes(c: Callback) {
    c.Opening? && c.w.nwname == 0 ==> c.w.outcome != Refused(0) && c.w.busy != 0
  }

  /** With a fid in use the callback's first walk fails, and not for want of a reply. */
  predicate Hopeless(c: Callback) {
    !c.Closing? && WalkError(Met(c.w, true), c.w.nwname) !in {0, -5}
  }

  /** How many fids the callback takes. */
  function Needs(c: Callback): (n: nat) {
    if c.Closing? then 0 else if c.Pair? then 2 else 1
  }

  lemma TriedCalm(l: Ledger, fid: u32, w: Walking)
    ensures Undone(w) ==> Tried(l, fid, w).unclunked == l.unclunked
    ensures Replied(w) ==> Tried(l, fid, w).losses == l.losses
    ensures l.orphaned <= Tried(l, fid, w).orphaned
  {
  }

  lemma PathCalm(l: Ledger, fid: u32, c: Callback)
    requires !c.Closing? && !c.Pair?
    ensures var l' := PathBook(l, fid, c.w, c.sent);
      (ClunksArrive(c) ==> l'.unclunked == l.unclunked) && (AllReplied(c) ==> l'.losses == l.losses)
    ensures var l' := Tried(l, fid, c.w);
      (ClunksArrive(c) ==> l'.unclunked == l.unclunked) && (AllReplied(c) ==> l'.losses == l.losses)
  {
    TriedCalm(l, fid, c.w);
  }

  lemma TwoCalm(l: Ledger, a: u32, b: u32, c: Callback)
    requires c.Pair?
    ensures var l' := TwoBook(l, a, b, c.w, c.w2, c.linking, c.sent, c.sent2);
      (ClunksArrive(c) ==> l'.unclunked == l.unclunked) && (AllReplied(c) ==> l'.losses == l.losses)
  {
    TriedCalm(l, a, c.w);
    TriedCalm(Tried(l, a, c.w), b, c.w2);
  }

  /** A fid in use is refused, and nothing changes. */
  lemma Refusal(l: Ledger, fid: u32, c: Callback)
    requires Hopeless(c) && fid in l.bound
    ensures !c.Closing? && Got(l, fid, c.w) !in {0, -5} && Tried(l, fid, c.w) == l
  {
  }

  /** After an error other than -5 the fid, which walk_to frees, is bound exactly in that case. */
  lemma FreedButBound(l: Ledger, fid: u32, w: Walking)
    requires fid !in l.bound && Got(l, fid, w) !in {0, -5}
    ensures fid in Tried(l, fid, w).bound <==> StaysBound(w)
  {
  }

  /** Every request answered, and the freed fid is bound all the same. */
  lemma EmptyWalkLingers(l: Ledger, fid: u32)
    requires fid !in l.bound
    ensures var w := Walking(3, Walked(0, true), -9, Answered);
      Got(l, fid, w) == -2 && fid in Tried(l, fid, w).bound && StaysBound(w)
  {
  }

  /** A walk that succeeds with proper codes binds its fid. */
  lemma ProperWalk(l: Ledger, fid: u32, c: Callback)
    requires c.Opening? && ProperCodes(c) && Got(l, fid, c.w) == 0
    ensures Met(c.w, fid in l.bound).Walked?
  {
  }

  /** A walk changes only its own fid's binding, and binds it exactly if the server walked. */
  lemma TriedBound(l: Ledger, fid: u32, w: Walking)
    ensures var l' := Tried(l, fid, w);
      && (forall f :: f != fid ==> (f in l'.bound <==> f in l.bound))
      && (Got(l, fid, w) == 0 ==> l'.bound == if Met(w, fid in l.bound).Walked? then l.bound + {fid} else l.bound)
      && (Got(l, fid, w) !in {0, -5} && fid in l.bound ==> l' == l)
  {
  }

  lemma RestDropped(l: Ledger, dropped: set<u32>, a: u32, b: u32, w: Walking, linking: bool, s1: Delivery, s2: Delivery)
    ensures RestBook(l.(dropped := dropped), a, b, w, linking, s1, s2)
            == RestBook(l, a, b, w, linking, s1, s2).(dropped := dropped)
    ensures Got(l.(dropped := dropped), b, w) == Got(l, b, w)
  {
  }

  lemma TwoBound(l: Ledger, a: u32, b: u32, w1: Walking, w2: Walking, linking: bool, s1: Delivery, s2: Delivery)
    ensures var l' := TwoBook(l, a, b, w1, w2, linking, s1, s2);
      forall f :: f !in {a, b} ==> (f in l'.bound <==> f in l.bound)
  {
    hide Tried, Got;
    TriedBound(l, a, w1);
    TriedBound(Tried(l, a, w1), b, w2);
  }

  class Session {
    const pool: FidPool
    /** The server's bound fids; fid 0 is the root. */
    var bound: set<u32>
    /** The fids stored in open file handles. */
    var handles: set<u32>
    ghost var orphaned: set<u32>
    ghost var unclunked: set<u32>
    ghost var dropped: set<u32>
    ghost var losses: nat
    /** The handles whose walk was answered with an error of code 0: the server never bound them. */
    ghost var phantoms: set<u32>

    ghost function Objects(): (objs: set<object>)
      reads this, pool
    {
      {this, pool, pool.freeList} + (if pool.orphanList == null then {} else {pool.orphanList as object})
    }

    ghost function Book(): (l: Ledger)
      reads this
    {
      Ledger(bound, orphaned, unclunked, dropped, losses)
    }

    ghost predicate State(held: set<u32>)
      reads Objects()
    {
      pool.Valid() && Books(pool.View(), Book(), held)
    }

    /** Between callbacks. */
    ghost predicate Inv()
      reads Objects()
    {
      State(handles) && phantoms <= handles && handles - phantoms <= bound
    }

    /** The fids that can still be taken. */
    function Left(): (n: int)
      reads this, pool
    {
      pool.freeCount as int + (NOFID as int - pool.nextFid as int)
    }

    /** The next fid taken will be one the server has bound. */
    ghost predicate Jammed()
      reads Objects()
    {
      pool.Valid() && pool.View().free != [] && Allocated(pool.View()).0 in bound
    }

    /** After Tattach, with a new pool. */
    constructor (pool: FidPool)
      requires pool.Valid() && pool.View() == Pool(1, [], [])
      ensures Inv() && this.pool == pool && handles == {} && phantoms == {} && Book() == Ledger({0}, {}, {}, {}, 0)
    {
      this.pool := pool;
      bound, handles, orphaned, unclunked, dropped, losses, phantoms := {0}, {}, {}, {}, {}, 0, {};
    }

    /** P9_Clunk. A processed or answered clunk unbinds the fid, even with an error reply. */
    method Clunk(fid: u32, sent: Delivery, ghost held: set<u32>) returns (err: int)
      requires State(held) && fid in held
      modifies this`bound, this`unclunked, this`losses
      ensures State(held) && Book() == Clunked(old(Book()), fid, sent) && Settled(Book(), fid)
      ensures !sent.Answered? ==> err == -5
    {
      hide Books;
      ClunkKeeps(pool.View(), Book(), fid, sent, held);
      err := *;
      if sent.Lost? {
        unclunked := unclunked + {fid};
      } else {
        bound := bound - {fid};
      }
      if !sent.Answered? {
        losses := losses + 1;
        err := -5;
      }
    }

    /** P9_Walk from the root to a path of `nwname` names. A short walk is undone with a clunk. */
    method Walk(newfid: u32, nwname: nat, o: WalkOutcome, undo: Delivery, ghost held: set<u32>) returns (err: int)
      requires State(held) && newfid in held && Settled(Book(), newfid) && (o.Walked? ==> newfid !in bound)
      modifies this`bound, this`unclunked, this`losses
      ensures State(held) && err == WalkError(o, nwname)
      ensures o.NoReply? ==> err == -5
      ensures o.Refused? && o.code != 0 ==> err == o.code
      ensures o.Refused? && o.code == 0 ==> err == if nwname == 0 then 0 else -2
      ensures o.Walked? ==> err == if o.nwqid == nwname then 0 else -2
      ensures Book() == AfterWalk(old(Book()), newfid, o, nwname, undo)
      ensures err !in {0, -5} ==> Settled(Book(), newfid)
      ensures err != 0 && losses == 0 ==> newfid !in bound
    {
      hide Books;
      WalkKeeps(pool.View(), Book(), newfid, o, nwname, undo, held);
      var nwqid: int;
      match o {
        case NoReply(processed) =>
          losses := losses + 1;
          if processed {
            bound := bound + {newfid};
          }
          return -5;
        case Refused(code) =>
          if code != 0 {
            return code;
          }
          nwqid := 0;
        case Walked(n, keeps) =>
          nwqid := n;
          if n == nwname || keeps {
            BindKeeps(pool.View(), Book(), newfid, held);
            bound := bound + {newfid};
          }
          if n == 0 < nwname && keeps {
            unclunked, losses := unclunked + {newfid}, losses + 1;
          }
      }
      if nwqid != nwname {
        if nwqid > 0 {
          var _ := Clunk(newfid, undo, held);
        }
        return -2;
      }
      err := 0;
    }

    /** FidPool_Free of a settled fid. Only a full free list that cannot grow leaks it. */
    method Free(fid: u32, ghost held: set<u32>)
      requires State(held) && fid in held && Settled(Book(), fid)
      modifies Objects()
      ensures State(held - {fid}) && fresh(Objects() - old(Objects()))
      ensures handles == old(handles) && phantoms == old(phantoms) && Left() >= old(Left())
      ensures Book() == old(Book()).(dropped := dropped)
      ensures if old(pool.freeCount) < old(pool.freeCapacity)
              then dropped == old(dropped) && pool.View() == Next(old(pool.View()), Event.Free(fid, true))
              else old(dropped) <= dropped <= old(dropped) + {fid}
      ensures fid in dropped || fid in pool.View().free
    {
      hide Books;
      FreeKeeps(pool.View(), Book(), fid, true, held);
      FreeKeeps(pool.View(), Book(), fid, false, held);
      ghost var p := pool.View();
      var enough: bool := *;
      pool.Free(fid, enough);
      if pool.View() == Next(p, Event.Free(fid, false)) {
        dropped := dropped + {fid};
      }
      CountOf(p, pool.View(), fid);
    }

    method TakeFid(ghost held: set<u32>) returns (fid: u32)
      requires State(held) && Left() >= 1
      modifies pool
      ensures State(held + {fid}) && 0 < fid < NOFID && fid !in held && Settled(Book(), fid) && fid !in orphaned
      ensures pool.Valid() && (fid, pool.View()) == Allocated(old(pool.View()))
      ensures Objects() == old(Objects()) && Left() == old(Left()) - 1
      ensures old(pool.freeCount) > 0 ==> pool.freeCount < pool.freeCapacity
    {
      hide Books;
      TakeKeeps(pool.View(), Book(), held);
      fid := pool.Alloc();
    }

    /** FidPool_MarkOrphan of a fid that may be bound. */
    method Orphan(fid: u32, ghost held: set<u32>)
      requires State(held) && fid in held && (losses == 0 ==> fid !in bound)
      modifies Objects()
      ensures State(held - {fid}) && fresh(Objects() - old(Objects()))
      ensures handles == old(handles) && phantoms == old(phantoms) && Left() >= old(Left())
      ensures Book() == old(Book()).(orphaned := old(orphaned) + {fid})
    {
      hide Books;
      OrphanKeeps(pool.View(), Book(), fid, true, held);
      OrphanKeeps(pool.View(), Book(), fid, false, held);
      var enough: bool := *;
      pool.MarkOrphan(fid, enough);
      orphaned := orphaned + {fid};
    }

    /** walk_to: a fid and the walk's result. After -5 the fid may be bound, so it is kept away as
        an orphan; after any other error it is freed. A fid from the free list that is refused
        goes back to where it was. */
    method WalkTo(w: Walking, ghost held: set<u32>) returns (err: int, fid: u32)
      requires State(held) && Left() >= 1
      modifies Objects()
      ensures fresh(Objects() - old(Objects())) && handles == old(handles) && phantoms == old(phantoms)
      ensures fid == Allocated(old(pool.View())).0 && 0 < fid < NOFID && fid !in held
      ensures err == Got(old(Book()), fid, w) && Settled(old(Book()), fid)
      ensures Book() == Tried(old(Book()), fid, w).(dropped := dropped)
      ensures State(if err == 0 then held + {fid} else held) && Left() >= old(Left()) - 1
      ensures old(dropped) <= dropped <= old(dropped) + {fid}
      ensures old(pool.freeCount) > 0 && err !in {0, -5} ==> pool.View() == old(pool.View()) && dropped == old(dropped)
      ensures err !in {0, -5} && fid !in old(bound) ==> (fid in bound <==> StaysBound(w))
      ensures fid !in old(orphaned)
      ensures var o := Met(w, fid in old(bound));
        && orphaned == old(orphaned) + (if o.NoReply? || o == Refused(-5) then {fid} else {})
        && (o.Walked? && o.nwqid == w.nwname ==> err == 0)
        && (o.Walked? && o.nwqid != w.nwname ==> err == -2 && (fid in pool.View().free || fid in dropped))
    {
      hide Books, Tried, Got, Met, Allocated, Next, Settled, StaysBound;
      PutBack(pool.View());
      fid := TakeFid(held);
      if fid !in bound && Got(Book(), fid, w) !in {0, -5} {
        FreedButBound(Book(), fid, w);
      }
      err := WalkWith(fid, w, held);
    }

    /** The rest of walk_to, once it has a fid. */
    method WalkWith(fid: u32, w: Walking, ghost held: set<u32>) returns (err: int)
      requires State(held + {fid}) && fid !in held && Settled(Book(), fid)
      modifies Objects()
      ensures fresh(Objects() - old(Objects())) && handles == old(handles) && phantoms == old(phantoms)
      ensures err == Got(old(Book()), fid, w) && Book() == Tried(old(Book()), fid, w).(dropped := dropped)
      ensures State(if err == 0 then held + {fid} else held) && Left() >= old(Left())
      ensures old(dropped) <= dropped <= old(dropped) + {fid}
      ensures err !in {0, -5} && old(pool.freeCount) < old(pool.freeCapacity) ==>
        pool.View() == Next(old(pool.View()), Event.Free(fid, true)) && dropped == old(dropped)
      ensures var o := Met(w, fid in old(bound));
        && orphaned == old(orphaned) + (if o.NoReply? || o == Refused(-5) then {fid} else {})
        && (o.Walked? && o.nwqid == w.nwname ==> err == 0)
        && (o.Walked? && o.nwqid != w.nwname ==> err == -2 && (fid in pool.View().free || fid in dropped))
    {
      hide Books, AfterWalk, WalkError, Next, Settled;
      assert held + {fid} - {fid} == held;
      err := Walk(fid, w.nwname, Met(w, fid in bound), w.undo, held + {fid});
      if err == -5 {
        Orphan(fid, held + {fid});
      } else if err != 0 {
        Free(fid, held + {fid});
      }
    }

    /** P9_Clunk whose result is ignored, then FidPool_Free: the freed fid is still bound
        exactly when it was and its Tclunk was lost; then, unless the free list was full, it is
        the next to be taken. */
    method ClunkAndFree(fid: u32, sent: Delivery, ghost held: set<u32>)
      requires State(held) && fid in held
      modifies Objects()
      ensures State(held - {fid}) && fresh(Objects() - old(Objects()))
      ensures handles == old(handles) && phantoms == old(phantoms) && Left() >= old(Left())
      ensures Book() == Clunked(old(Book()), fid, sent).(dropped := dropped) && old(dropped) <= dropped
      ensures fid in bound <==> fid in old(bound) && sent.Lost?
      ensures old(pool.freeCount) < old(pool.freeCapacity) && fid in bound ==>
        Jammed() && Allocated(pool.View()).0 == fid
    {
      hide Books;
      var _ := Clunk(fid, sent, held);
      Free(fid, held);
    }

    /** The end of rename and link: both fids clunked, then both freed, in the same order. */
    method ClunkBoth(a: u32, b: u32, first: Delivery, second: Delivery, ghost held: set<u32>)
      requires State(held) && a in held && b in held && a != b
      modifies Objects()
      ensures State(held - {a} - {b}) && fresh(Objects() - old(Objects()))
      ensures handles == old(handles) && phantoms == old(phantoms) && Left() >= old(Left())
      ensures Book() == Clunked(Clunked(old(Book()), a, first), b, second).(dropped := dropped)
    {
      hide State;
      var _ := Clunk(a, first, held);
      var _ := Clunk(b, second, held);
      Free(a, held);
      Free(b, held - {a});
    }

    // ---- The callbacks ----

    /** One walk, one request, clunk: getattr, mkdir, unlink, rmdir, utimens, symlink, readlink
        and chown. When the clunk reached the server, its bindings are again what they were. */
    method PathOp(w: Walking, op: int, sent: Delivery) returns (err: int, ghost fid: u32)
      requires Inv() && Left() >= 1
      modifies Objects()
      ensures Inv() && fresh(Objects() - old(Objects())) && handles == old(handles) && phantoms == old(phantoms)
      ensures fid == Allocated(old(pool.View())).0 && Settled(old(Book()), fid)
      ensures err == if Got(old(Book()), fid, w) != 0 then Got(old(Book()), fid, w) else op
      ensures Book() == PathBook(old(Book()), fid, w, sent).(dropped := dropped)
      ensures Got(old(Book()), fid, w) == 0 && !sent.Lost? ==> bound == old(bound) - {fid}
      ensures old(pool.freeCount) > 0 && Got(old(Book()), fid, w) !in {0, -5} ==>
        pool.View() == old(pool.View()) && dropped == old(dropped)
    {
      hide Books;
      var f;
      err, f := WalkTo(w, handles);
      fid := f;
      if err != 0 {
        return;
      }
      err := op;
      assert handles + {f} - {f} == handles;
      ClunkAndFree(f, sent, handles + {f});
    }

    /** truncate: like the others, but success is reported as the size, cut to 32 bits. */
    method Truncate(w: Walking, op: int, size: i64, sent: Delivery)
      returns (result: int, ghost err: int, ghost fid: u32)
      requires Inv() && Left() >= 1
      modifies Objects()
      ensures Inv() && fresh(Objects() - old(Objects())) && handles == old(handles) && phantoms == old(phantoms)
      ensures fid == Allocated(old(pool.View())).0 && Settled(old(Book()), fid)
      ensures err == if Got(old(Book()), fid, w) != 0 then Got(old(Book()), fid, w) else op
      ensures Book() == PathBook(old(Book()), fid, w, sent).(dropped := dropped)
      ensures old(pool.freeCount) > 0 && Got(old(Book()), fid, w) !in {0, -5} ==>
        pool.View() == old(pool.View()) && dropped == old(dropped)
      ensures err != 0 ==> result == err
      ensures err == 0 ==> (result == size <==> -0x8000_0000 <= size < 0x8000_0000)
    {
      hide Inv, PathBook, Got, Settled, Allocated;
      var e;
      e, fid := PathOp(w, op, sent);
      err := e;
      result := if e != 0 then e else AsInt(size % 0x1_0000_0000);
    }

    /** chmod: two requests on the walked fid; the second only if the first succeeded. */
    method Chmod(w: Walking, op: int, op2: int, sent: Delivery) returns (err: int, ghost fid: u32)
      requires Inv() && Left() >= 1
      modifies Objects()
      ensures Inv() && fresh(Objects() - old(Objects())) && handles == old(handles) && phantoms == old(phantoms)
      ensures fid == Allocated(old(pool.View())).0 && Settled(old(Book()), fid)
      ensures var walk := Got(old(Book()), fid, w);
        err == if walk != 0 then walk else if op != 0 then op else op2
      ensures Book() == PathBook(old(Book()), fid, w, sent).(dropped := dropped)
      ensures old(pool.freeCount) > 0 && Got(old(Book()), fid, w) !in {0, -5} ==>
        pool.View() == old(pool.View()) && dropped == old(dropped)
    {
      hide Books, Tried, Got, Allocated, Settled;
      TriedBound(Book(), Allocated(pool.View()).0, w);
      var f;
      err, f := WalkTo(w, handles);
      fid := f;
      if err != 0 {
        return;
      }
      assert handles + {f} - {f} == handles;
      err := op;
      if err != 0 {
        ClunkAndFree(f, sent, handles + {f});
        return;
      }
      err := op2;
      ClunkAndFree(f, sent, handles + {f});
    }

    /** open, opendir and create: on success the walked fid becomes the handle, bound at the
        server unless the walk was answered with an error of code 0. */
    method Open(w: Walking, op: int, sent: Delivery) returns (err: int, fh: u32)
      requires Inv() && Left() >= 1
      modifies Objects()
      ensures Inv() && fresh(Objects() - old(Objects()))
      ensures fh == Allocated(old(pool.View())).0 && Settled(old(Book()), fh)
      ensures err == if Got(old(Book()), fh, w) != 0 then Got(old(Book()), fh, w) else op
      ensures err == 0 ==> 0 < fh < NOFID && fh !in old(handles) && handles == old(handles) + {fh}
      ensures err == 0 ==> Book() == Tried(old(Book()), fh, w).(dropped := dropped)
      ensures err != 0 ==> handles == old(handles) && Book() == PathBook(old(Book()), fh, w, sent).(dropped := dropped)
      ensures phantoms == if err == 0 && !Met(w, fh in old(bound)).Walked? then old(phantoms) + {fh} else old(phantoms)
      ensures old(pool.freeCount) > 0 && Got(old(Book()), fh, w) !in {0, -5} ==>
        pool.View() == old(pool.View()) && dropped == old(dropped)
    {
      hide Books, Tried, Got, Allocated, Settled, Met;
      TriedBound(Book(), Allocated(pool.View()).0, w);
      ghost var walked := Met(w, Allocated(pool.View()).0 in bound).Walked?;
      err, fh := WalkTo(w, handles);
      if err != 0 {
        return;
      }
      assert handles + {fh} - {fh} == handles;
      err := op;
      if err != 0 {
        ClunkAndFree(fh, sent, handles + {fh});
      } else {
        handles := handles + {fh};
        if !walked {
          phantoms := phantoms + {fh};
        }
      }
    }

    /** release and releasedir. */
    method Release(fh: u32, sent: Delivery)
      requires Inv() && fh in handles
      modifies Objects()
      ensures Inv() && fresh(Objects() - old(Objects()))
      ensures handles == old(handles) - {fh} && phantoms == old(phantoms) - {fh}
      ensures Book() == Clunked(old(Book()), fh, sent).(dropped := dropped)
      ensures sent.Lost? && fh in old(bound) && old(pool.freeCount) < old(pool.freeCapacity) ==>
        Jammed() && Allocated(pool.View()).0 == fh
    {
      hide Books;
      ClunkAndFree(fh, sent, handles);
      handles, phantoms := handles - {fh}, phantoms - {fh};
    }

    /** rename and link: two walks and one request; a failed second walk undoes the first. */
    method TwoWalks(linking: bool, w1: Walking, w2: Walking, op: int, first: Delivery, second: Delivery)
      returns (err: int, ghost a: u32, ghost b: u32)
      requires Inv() && Left() >= 2
      modifies Objects()
      ensures Inv() && fresh(Objects() - old(Objects())) && handles == old(handles) && phantoms == old(phantoms)
      ensures a == Allocated(old(pool.View())).0 && Settled(old(Book()), a)
      ensures var l := old(Book()); var l1 := Tried(l, a, w1);
        err == if Got(l, a, w1) != 0 then Got(l, a, w1) else if Got(l1, b, w2) != 0 then Got(l1, b, w2) else op
      ensures Book() == TwoBook(old(Book()), a, b, w1, w2, linking, first, second).(dropped := dropped)
      ensures old(pool.freeCount) > 0 && Got(old(Book()), a, w1) !in {0, -5} ==>
        pool.View() == old(pool.View()) && dropped == old(dropped)
    {
      hide Books, Tried, Got, Allocated, Settled, RestBook;
      ghost var l := Book();
      TriedBound(l, Allocated(pool.View()).0, w1);
      var x;
      err, x := WalkTo(w1, handles);
      a, b := x, 0;
      if err != 0 {
        return;
      }
      ghost var d := dropped;
      err, b := SecondWalk(x, linking, w2, op, first, second);
      RestDropped(Tried(l, x, w1), d, x, b, w2, linking, first, second);
      TwoBound(l, x, b, w1, w2, linking, first, second);
    }

    /** The second half of rename and link, with the first fid walked. */
    method SecondWalk(x: u32, linking: bool, w: Walking, op: int, first: Delivery, second: Delivery)
      returns (err: int, ghost b: u32)
      requires State(handles + {x}) && x !in handles && Left() >= 1
      modifies Objects()
      ensures State(handles) && fresh(Objects() - old(Objects()))
      ensures handles == old(handles) && phantoms == old(phantoms)
      ensures b !in handles && err == if Got(old(Book()), b, w) != 0 then Got(old(Book()), b, w) else op
      ensures Book() == RestBook(old(Book()), x, b, w, linking, first, second).(dropped := dropped)
    {
      hide Books, Tried, Got, Allocated, Settled;
      ghost var one := handles + {x};
      assert one - {x} == handles;
      var y;
      err, y := WalkTo(w, one);
      b := y;
      if err != 0 {
        ClunkAndFree(x, first, one);
        return;
      }
      err := op;
      assert one + {y} - {x} - {y} == handles && one + {y} - {y} - {x} == handles;
      if linking {
        ClunkBoth(y, x, first, second, one + {y});
      } else {
        ClunkBoth(x, y, first, second, one + {y});
      }
    }

    /** One callback, with a fid for each of its walks. A jammed pool stays jammed: the callback
        takes the fid in use, is refused, and puts it back. */
    method Call(c: Callback) returns (err: int)
      requires Inv() && Left() >= Needs(c)
      modifies Objects()
      ensures Inv() && fresh(Objects() - old(Objects()))
      ensures ClunksArrive(c) ==> unclunked == old(unclunked)
      ensures AllReplied(c) ==> losses == old(losses)
      ensures ProperCodes(c) ==> phantoms <= old(phantoms)
      ensures old(Jammed()) && Hopeless(c) ==> err != 0 && pool.View() == old(pool.View()) && Book() == old(Book())
      ensures Hopeless(c) && old(Jammed()) ==> handles == old(handles) && phantoms == old(phantoms)
    {
      hide Books, Tried, Got, RestBook, Allocated, Met, WalkError, Next, ProperCodes, Hopeless;
      ghost var l, f := Book(), Allocated(pool.View()).0;
      err := 0;
      if f in bound && Hopeless(c) {
        Refusal(l, f, c);
      }
      if c.Opening? && ProperCodes(c) && Got(l, f, c.w) == 0 {
        ProperWalk(l, f, c);
      }
      match c {
        case Path(w, op, sent) =>
          PathCalm(l, f, c);
          var e, _ := PathOp(w, op, sent);
          err := e;
        case Resize(w, op, size, sent) =>
          PathCalm(l, f, c);
          var e, _, _ := Truncate(w, op, size, sent);
          err := e;
        case Modes(w, op, op2, sent) =>
          PathCalm(l, f, c);
          var e, _ := Chmod(w, op, op2, sent);
          err := e;
        case Opening(w, op, sent) =>
          PathCalm(l, f, c);
          var e, _ := Open(w, op, sent);
          err := e;
        case Pair(linking, w, w2, op, sent, sent2) =>
          ghost var a, b;
          err, a, b := TwoWalks(linking, w, w2, op, sent, sent2);
          TwoCalm(l, a, b, c);
        case Closing(fh, sent) =>
          if fh in handles {
            Release(fh, sent);
          }
      }
    }

    /** A run of callbacks, whatever the server and the transport do, as long as there are fids.
        If every Tclunk arrives, only the root, the open handles and the orphans are bound; if
        also every Twalk and Tclunk is answered, with a proper code if with an error, exactly the
        root and the open handles are. From a jammed pool every callback that walks fails. */
    method Serve(cs: seq<Callback>) returns (served: nat, errs: seq<int>)
      requires Inv()
      modifies Objects()
      ensures Inv() && fresh(Objects() - old(Objects()))
      ensures served == |errs| <= |cs| && (served < |cs| ==> Left() < Needs(cs[served]))
      ensures old(unclunked) == {} && (forall i :: 0 <= i < served ==> ClunksArrive(cs[i])) ==>
        bound <= {0} + handles + orphaned
      ensures old(losses) == 0 && old(phantoms) == {}
              && (forall i :: 0 <= i < served ==> AllReplied(cs[i]) && ProperCodes(cs[i])) ==>
        bound == {0} + handles
      ensures old(Jammed()) && (forall i :: 0 <= i < served ==> Hopeless(cs[i])) ==>
        pool.View() == old(pool.View()) && Book() == old(Book()) && handles == old(handles)
        && forall i :: 0 <= i < served ==> errs[i] != 0
    {
      hide Books, Allocated, ClunksArrive, AllReplied, ProperCodes, Hopeless;
      served, errs := 0, [];
      while served < |cs| && Left() >= Needs(cs[served])
        invariant Inv() && fresh(Objects() - old(Objects()))
        invariant served == |errs| <= |cs|
        invariant (forall i :: 0 <= i < served ==> ClunksArrive(cs[i])) ==> unclunked == old(unclunked)
        invariant (forall i :: 0 <= i < served ==> AllReplied(cs[i])) ==> losses == old(losses)
        invariant (forall i :: 0 <= i < served ==> ProperCodes(cs[i])) ==> phantoms <= old(phantoms)
        invariant old(Jammed()) && (forall i :: 0 <= i < served ==> Hopeless(cs[i])) ==>
          pool.View() == old(pool.View()) && Book() == old(Book()) && handles == old(handles) && Jammed()
        invariant old(Jammed()) && (forall i :: 0 <= i < served ==> Hopeless(cs[i])) ==>
          forall i :: 0 <= i < served ==> errs[i] != 0
      {
        var err := Call(cs[served]);
        errs := errs + [err];
        served := served + 1;
      }
      BoundFids();
    }

    /** What the invariant is for: a fid the pool may hand out again is not bound at the server
        unless it lacks a Tclunk; and every fid ever handed out is an open handle, free
        again, an orphan, or was dropped for want of memory. */
    lemma BoundFids()
      requires Inv()
      ensures unclunked == {} ==> bound <= {0} + handles + orphaned
      ensures losses == 0 && phantoms == {} ==> bound == {0} + handles
      ensures forall f :: f in pool.View().free && f in bound ==> f in unclunked
      ensures forall f: u32 :: f >= pool.nextFid ==> f !in bound
      ensures forall f: u32 :: 1 <= f < pool.nextFid ==>
        f in handles || f in pool.View().free || f in orphaned || f in dropped
    {
    }
  }

  lemma CountOf(p: Pool, p': Pool, fid: u32)
    requires p' in {Next(p, Event.Free(fid, true)), Next(p, Event.Free(fid, false))}
    ensures |p'.free| >= |p.free| && p'.next == p.next
  {
  }

  /** Freeing the fid just popped restores the pool. */
  lemma PutBack(p: Pool)
    ensures p.free != [] ==> Next(Allocated(p).1, Event.Free(Allocated(p).0, true)) == p
  {
    if p.free != [] {
      assert p.free == p.free[..|p.free| - 1] + [p.free[|p.free| - 1]];
    }
  }
}
