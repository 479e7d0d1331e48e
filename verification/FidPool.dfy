/** The fid allocator: a counter, a stack of freed fids and a list of orphans. */
module FidPool {
  import opened Counting
  import opened Machine

  const FID_POOL_INITIAL_CAPACITY: u32 := 64
  const NOFID: u32 := 0xFFFF_FFFF

  /** The pool on values. */
  datatype Pool = Pool(next: u32, free: seq<u32>, orphans: seq<u32>)

  /** What Alloc hands out and leaves; the counter is 32 bits wide. */
  function Allocated(p: Pool): (result: (u32, Pool)) {
    if p.free != [] then
      (p.free[|p.free| - 1], p.(free := p.free[..|p.free| - 1]))
    else
      (p.next, p.(next := (p.next as int + 1) % 0x1_0000_0000))
  }

  /** With `held` the fids in use: free, orphaned and held fids were all handed out before,
      and no fid is two of these. */
  ghost predicate Sound(p: Pool, held: set<u32>) {
    && 1 <= p.next
    && NoDup(p.free)
    && (forall f :: f in p.free ==> 1 <= f < p.next && f !in p.orphans && f !in held)
    && (forall f :: f in p.orphans ==> 1 <= f < p.next && f !in held)
    && (forall f :: f in held ==> 1 <= f < p.next)
  }

  /** A fid is still available: 2^32 - 2 fresh ones exist. */
  predicate Available(p: Pool) {
    p.free != [] || p.next < NOFID
  }

  lemma Popped(free: seq<u32>)
    requires NoDup(free) && free != []
    ensures var front, last := free[..|free| - 1], free[|free| - 1];
      NoDup(front) && last in free && last !in front && forall f :: f in front ==> f in free
  {
    var front := free[..|free| - 1];
    forall i | 0 <= i < |front|
      ensures front[i] in free && front[i] != free[|free| - 1]
    {
      assert front[i] == free[i];
    }
  }

  /** Alloc hands out a proper fid, neither root nor NOFID, exactly while one is available;
      then it is neither held nor an orphan. */
  lemma AllocExact(p: Pool, held: set<u32>)
    requires Sound(p, held)
    ensures 0 < Allocated(p).0 < NOFID <==> Available(p)
    ensures Allocated(p).0 !in held && Allocated(p).0 !in p.orphans
    ensures Available(p) ==> Sound(Allocated(p).1, held + {Allocated(p).0})
  {
    hide NoDup;
    if p.free != [] {
      Popped(p.free);
    }
  }

  /** What the pool can be asked to do. Growing a list needs memory; `grown` says whether
      the fid found a place or was leaked. */
  datatype Event = Alloc | Free(fid: u32, grown: bool) | Orphan(fid: u32, grown: bool)

  function Next(p: Pool, e: Event): (p': Pool) {
    match e
    case Alloc => Allocated(p).1
    case Free(fid, grown) => if grown then p.(free := p.free + [fid]) else p
    case Orphan(fid, grown) => if grown then p.(orphans := p.orphans + [fid]) else p
  }

  function Held(p: Pool, held: set<u32>, e: Event): (held': set<u32>) {
    match e
    case Alloc => held + {Allocated(p).0}
    case Free(fid, _) => held - {fid}
    case Orphan(fid, _) => held - {fid}
  }

  /** The client releases only fids it holds and asks for no more than exist. */
  ghost predicate Proper(p: Pool, held: set<u32>, es: seq<Event>)
    decreases |es|
  {
    es == []
    || ((match es[0]
         case Alloc => Available(p)
         case Free(fid, _) => fid in held
         case Orphan(fid, _) => fid in held)
        && Proper(Next(p, es[0]), Held(p, held, es[0]), es[1..]))
  }

  /** The fids orphaned so far, recorded or not. */
  function Retired(gone: set<u32>, e: Event): (gone': set<u32>) {
    if e.Orphan? then gone + {e.fid} else gone
  }

  /** Retired fids were handed out before and are neither free nor held. */
  ghost predicate Apart(p: Pool, held: set<u32>, gone: set<u32>) {
    && (forall f :: f in gone ==> 1 <= f < p.next && f !in p.free && f !in held)
    && (forall f :: f in p.orphans ==> f in gone)
  }

  /** Every Alloc of the run hands out a fid that is not 0, not held and never was orphaned. */
  ghost predicate Unique(p: Pool, held: set<u32>, gone: set<u32>, es: seq<Event>)
    decreases |es|
  {
    es == []
    || ((es[0].Alloc? ==>
           0 < Allocated(p).0 < NOFID && Allocated(p).0 !in held && Allocated(p).0 !in gone)
        && Unique(Next(p, es[0]), Held(p, held, es[0]), Retired(gone, es[0]), es[1..]))
  }

  lemma NextKeeps(p: Pool, held: set<u32>, gone: set<u32>, e: Event)
    requires Sound(p, held) && Apart(p, held, gone)
    requires match e case Alloc => Available(p) case Free(fid, _) => fid in held case Orphan(fid, _) => fid in held
    ensures Sound(Next(p, e), Held(p, held, e)) && Apart(Next(p, e), Held(p, held, e), Retired(gone, e))
    ensures e.Alloc? ==> 0 < Allocated(p).0 < NOFID && Allocated(p).0 !in held && Allocated(p).0 !in gone
  {
    match e
    case Alloc =>
      AllocExact(p, held);
      if p.free != [] {
        Popped(p.free);
      }
    case Free(fid, grown) =>
    case Orphan(fid, grown) =>
  }

  lemma {:induction false} FidsStayUnique(p: Pool, held: set<u32>, gone: set<u32>, es: seq<Event>)
    requires Sound(p, held) && Apart(p, held, gone) && Proper(p, held, es)
    ensures Unique(p, held, gone, es)
    decreases |es|
  {
    if es == [] {
    } else {
      NextKeeps(p, held, gone, es[0]);
      FidsStayUnique(Next(p, es[0]), Held(p, held, es[0]), Retired(gone, es[0]), es[1..]);
    }
  }

  /** AllocVec for `n` words, with or without enough memory; 32-bit sizes cannot reach 4 GiB. */
  method AllocWords(n: nat, enough: bool) returns (a: array?<u32>)
    ensures a != null <==> enough && 4 * n < 0x1_0000_0000
    ensures a != null ==> fresh(a) && a.Length == n
  {
    a := null;
    if enough && 4 * n < 0x1_0000_0000 {
      a := new u32[n](_ => 0);
    }
  }

  /** A stack of words in an array that doubles when full. */
  class FidPool {
    var nextFid: u32
    var freeList: array<u32>
    var freeCount: u32
    var freeCapacity: u32
    var orphanList: array?<u32>
    var orphanCount: u32
    var orphanCapacity: u32

    ghost predicate Valid()
      reads this
    {
      && freeCount <= freeCapacity == freeList.Length && freeCapacity >= 1
      && (orphanList == null ==> orphanCount == 0)
      && (orphanList != null ==> orphanCount <= orphanCapacity == orphanList.Length && orphanCapacity >= 1)
      && freeList != orphanList
    }

    ghost function View(): (p: Pool)
      requires Valid()
      reads this, freeList, orphanList
    {
      Pool(nextFid, freeList[..freeCount], if orphanList == null then [] else orphanList[..orphanCount])
    }

    /** FidPool_Create with memory available. */
    constructor (list: array<u32>)
      requires list.Length == FID_POOL_INITIAL_CAPACITY
      ensures Valid() && View() == Pool(1, [], []) && freeList == list && orphanList == null
    {
      nextFid, freeList, freeCount, freeCapacity := 1, list, 0, FID_POOL_INITIAL_CAPACITY;
      orphanList, orphanCount, orphanCapacity := null, 0, 0;
    }

    method Alloc() returns (fid: u32)
      requires Valid()
      modifies this
      ensures Valid() && (fid, View()) == Allocated(old(View()))
      ensures freeList == old(freeList) && orphanList == old(orphanList)
    {
      if freeCount > 0 {
        freeCount := freeCount - 1;
        assert freeList[..freeCount] == old(freeList[..freeCount])[..freeCount];
        return freeList[freeCount];
      }
      fid := nextFid;
      nextFid := (nextFid as int + 1) % 0x1_0000_0000;
    }

    /** A full stack is copied to one twice the size; without memory for it, and only then, the
        fid is leaked. */
    method Free(fid: u32, enough: bool)
      requires Valid()
      modifies this, freeList
      ensures Valid() && fresh({freeList} - {old(freeList)}) && orphanList == old(orphanList)
      ensures var full := |old(View()).free| == old(freeCapacity);
              var grown := full && enough && 8 * old(freeCapacity) as int < 0x1_0000_0000;
        && View() == Next(old(View()), Event.Free(fid, !full || grown))
        && freeCapacity as int == old(freeCapacity) as int * if grown then 2 else 1
    {
      if freeCount >= freeCapacity {
        var list := AllocWords(freeCapacity as int * 2, enough);
        if list == null {
          return;
        }
        for i := 0 to freeCount
          invariant list[..i] == freeList[..i]
          modifies list
        {
          list[i] := freeList[i];
        }
        freeList, freeCapacity := list, freeCapacity as int * 2;
      }
      freeList[freeCount] := fid;
      freeCount := freeCount + 1;
      assert freeList[..freeCount] == old(freeList[..freeCount]) + [fid];
    }

    /** The same for the orphans, whose stack is made for the first of them. */
    method MarkOrphan(fid: u32, enough: bool)
      requires Valid()
      modifies this, orphanList
      ensures Valid() && fresh({orphanList} - {old(orphanList)}) && freeList == old(freeList)
      ensures old(orphanList) == null ==> View() == Next(old(View()), Event.Orphan(fid, enough))
      ensures old(orphanList) != null ==>
        var full := |old(View()).orphans| == old(orphanCapacity);
        var grown := full && enough && 8 * old(orphanCapacity) as int < 0x1_0000_0000;
        && View() == Next(old(View()), Event.Orphan(fid, !full || grown))
        && orphanCapacity as int == old(orphanCapacity) as int * if grown then 2 else 1
    {
      ghost var orphans := View().orphans;
      if orphanList == null {
        var list := AllocWords(FID_POOL_INITIAL_CAPACITY, enough);
        if list == null {
          return;
        }
        orphanList, orphanCapacity, orphanCount := list, FID_POOL_INITIAL_CAPACITY, 0;
      }
      if orphanCount >= orphanCapacity {
        var list := AllocWords(orphanCapacity as int * 2, enough);
        if list == null {
          return;
        }
        for i := 0 to orphanCount
          invariant list[..i] == orphanList[..i]
          modifies list
        {
          list[i] := orphanList[i];
        }
        orphanList, orphanCapacity := list, orphanCapacity as int * 2;
      }
      orphanList[orphanCount] := fid;
      orphanCount := orphanCount + 1;
      assert orphanList[..orphanCount] == orphans + [fid];
    }
  }

  /** FidPool_Create, with or without memory for the pool and for its stack. */
  method Create(forPool: bool, forStack: bool) returns (pool: FidPool?)
    ensures pool != null <==> forPool && forStack
    ensures pool != null ==>
      fresh(pool) && fresh(pool.freeList) && pool.Valid() && pool.View() == Pool(1, [], [])
  {
    pool := null;
    var list := AllocWords(FID_POOL_INITIAL_CAPACITY, forStack);
    if list != null && forPool {
      pool := new FidPool(list);
    }
  }
}
