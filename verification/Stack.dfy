/** The layers joined: v9p_read, v9p_write and v9p_readdir over the transactions of the handler,
    with a device that moves while a reply is parsed. */
module Stack {
  import opened Machine
  import opened Wire
  import Files
  import Protocol
  import Readdir
  import Server
  import T = Transact

  // ---- What was asked and answered ----

  /** A request, its tag and its reply, [] for none; `at` and `end` are their places in the log. */
  datatype Exchange = Exchange(req: Protocol.Request, tag: u16, msg: Bytes, at: nat, end: nat)

  /** The log holds the exchange: the request as it was in the transmit buffer, and then, with
      nothing but completions in between, the reply as it was found in the receive buffer. */
  ghost predicate Recorded(log: seq<T.Note>, e: Exchange) {
    && e.at <= e.end < |log| && log[e.at].Asking?
    && Server.Parse(log[e.at].tx) == Server.Understood(e.req, e.tag)
    && (e.msg != [] ==> Replied(log, e))
  }

  ghost predicate Replied(log: seq<T.Note>, e: Exchange)
    requires e.end < |log|
  {
    && e.at < e.end && (forall k :: e.at < k <= e.end ==> log[k].Completed?)
    && log[e.end].len == |e.msg| && e.msg <= log[e.end].rx
    && |e.msg| >= 7 && U16At(e.msg, 5) == e.tag
  }

  /** The exchanges are in the log from `lo` on, one after the other. */
  ghost predicate Conversation(log: seq<T.Note>, lo: nat, es: seq<Exchange>) {
    && (forall i :: 0 <= i < |es| ==> lo <= es[i].at && Recorded(log, es[i]))
    && (forall i, j :: 0 <= i < j < |es| ==> es[i].end < es[j].at)
  }

  lemma RecordedStays(log: seq<T.Note>, log': seq<T.Note>, e: Exchange)
    requires Recorded(log, e) && log <= log'
    ensures Recorded(log', e)
  {
    hide Server.Parse, U16At;
    assert forall k :: 0 <= k < |log| ==> log'[k] == log[k];
  }

  lemma ConversationGrows(log: seq<T.Note>, log': seq<T.Note>, lo: nat, es: seq<Exchange>, e: Exchange)
    requires Conversation(log, lo, es) && log <= log' && lo <= |log| <= e.at && Recorded(log', e)
    ensures Conversation(log', lo, es + [e])
  {
    hide Replied, Server.Parse;
    forall i | 0 <= i < |es|
      ensures Recorded(log', es[i]) && es[i].end < |log|
    {
      RecordedStays(log, log', es[i]);
    }
  }

  lemma NothingSaid(log: seq<T.Note>)
    ensures Conversation(log, |log|, [])
  {
  }

  // ---- One client call ----

  /** Between two client calls: nothing outstanding, no reset under way, room in the buffers. */
  ghost predicate Ready(h: T.Handler)
    reads h, h.Queue()
  {
    h.Valid() && h.Quiescent() && !h.inReset && 11 <= h.msize <= Protocol.P9_MSIZE
  }

  /** After a client call: as before, unless there was a reset. */
  ghost predicate Settled(h: T.Handler, failures: nat)
    reads h, h.Queue()
  {
    h.Valid() && !h.inReset && h.failures >= failures && (h.Quiescent() || h.failures > failures)
  }

  lemma SettledSince(h: T.Handler, failures: nat, failures0: nat)
    requires failures >= failures0 && ((Ready(h) && h.failures >= failures) || Settled(h, failures))
    ensures Settled(h, failures0)
  {
  }

  lemma GoodSince(h: T.Handler, failures: nat)
    requires Settled(h, failures)
    ensures h.failures >= failures
  {
  }

  /** A request and its reply, which lies in the receive buffer when the device has moved on. */
  method Call(h: T.Handler, r: Protocol.Request) returns (len: u32, ghost e: Exchange)
    requires Ready(h) && Protocol.Issued(r, Protocol.P9_MSIZE) && Server.Trimmed(r) == r
    modifies h, h.txBuf, h.rxBuf, h.flushBuf, h.Queue()
    ensures fresh(h.Queue() - old(h.Queue())) && Settled(h, old(h.failures))
    ensures old(h.log) <= h.log && Recorded(h.log, e) && e.req == r && e.at == |old(h.log)| && len == |e.msg|
    ensures len != 0 ==> Ready(h) && h.vq == old(h.vq) && h.msize == old(h.msize)
    ensures len != 0 ==> len <= h.msize && e.msg <= h.rxBuf[..]
  {
    hide T.Sane, T.Answered, U16At, U32At, Protocol.OnWire, Protocol.Length, Server.Parse;
    Protocol.RequestFits(r, Protocol.P9_MSIZE);
    var tag := h.NextTag();
    Server.RequestUnderstood(r, tag, Protocol.P9_MSIZE);
    ghost var log := h.log;
    ghost var seen;
    len, seen := h.Exchange(r, tag);
    assert h.log[|log|] == (log + [T.Asking(Protocol.OnWire(r, tag))] + seen)[|log|];
    e := Exchange(r, tag, [], |log|, |log|);
    if len != 0 {
      T.NoChains(old(h.vq.ring), h.vq.ring, len);
      e := Exchange(r, tag, h.rxBuf[..len], |log|, |log| + |seen|);
      TagOf(h.rxBuf[..], len);
      Heard(log, h.log, e, seen, h.rxBuf[..], len);
      h.Rest();
    }
  }

  lemma TagOf(rx: Bytes, len: nat)
    requires 7 <= len <= |rx|
    ensures U16At(rx[..len], 5) == U16At(rx, 5)
  {
    assert rx[..len][5..7] == rx[5..7];
  }

  lemma Heard(log: seq<T.Note>, log': seq<T.Note>, e: Exchange, seen: seq<T.Note>, rx: Bytes, len: u32)
    requires |log'| == |log| + 1 + |seen| && log'[|log| + 1..] == seen && T.UpTo(|seen|, seen) && seen != []
    requires log'[|log|].Asking? && Server.Parse(log'[|log|].tx) == Server.Understood(e.req, e.tag)
    requires seen[|seen| - 1] == T.Completed(rx, len) && 7 <= len <= |rx| && e.msg == rx[..len]
    requires U16At(e.msg, 5) == e.tag && e.at == |log| && e.end == |log| + |seen|
    ensures Recorded(log', e)
  {
    hide Server.Parse, U16At;
    forall k | e.at < k <= e.end
      ensures log'[k].Completed?
    {
      assert log'[k] == seen[k - |log| - 1];
    }
    assert log'[e.end] == seen[|seen| - 1];
  }

  // ---- v9p_read ----

  /** memcpy out of the receive buffer, with the device moving between any two bytes. */
  method CopyOut(h: T.Handler, n: nat, buf: array<u8>, at: nat)
    requires Ready(h) && 11 + n <= h.rxBuf.Length && at + n <= buf.Length && buf != h.rxBuf && buf !in h.Queue()
    requires buf != h.txBuf && buf != h.flushBuf
    modifies h.rxBuf, h.Queue(), buf
    ensures Ready(h) && h.rxBuf[..] == old(h.rxBuf[..])
    ensures buf[..] == old(buf[..at]) + old(h.rxBuf[11..11 + n]) + old(buf[at + n..])
  {
    hide T.Sane;
    ghost var data := h.rxBuf[11..11 + n];
    for j := 0 to n
      invariant Ready(h) && h.rxBuf[..] == old(h.rxBuf[..])
      invariant buf[..at] == old(buf[..at]) && buf[at..at + j] == data[..j]
      invariant buf[at + j..] == old(buf[at + j..])
    {
      assert h.rxBuf[11 + j] == h.rxBuf[..][11 + j] == data[j];
      buf[at + j] := h.rxBuf[11 + j];
      h.Rest();
    }
    assert buf[..] == buf[..at] + buf[at..at + n] + buf[at + n..];
  }

  /** How many bytes of data follow byte 11 of the receive buffer, or the reply's error. */
  method Decoded(rxBuf: array<u8>, len: nat, count: nat, ghost msg: Bytes) returns (n: Protocol.Result<nat>)
    requires len <= rxBuf.Length && msg == rxBuf[..len] && msg != []
    ensures var got := Files.ReadOutcome(msg, count);
      if got.Err? then n == Protocol.Err(got.code)
      else n == Protocol.Ok(|got.value|) && 11 + |got.value| <= len && rxBuf[11..11 + |got.value|] == got.value
  {
    var data := Protocol.DataReply(rxBuf[..], len, count);
    Protocol.DataOfMessage(msg, rxBuf[..], count);
    n := if data.Err? then Protocol.Err(data.code) else Protocol.Ok(|data.value|);
  }

  /** P9_Read over the handler: what it stores and returns is what the reply to its Tread says,
      whatever the device does meanwhile. */
  method P9Read(h: T.Handler, fid: u32, off: u64, count: u32, buf: array<u8>, at: nat)
    returns (outcome: Protocol.Result<nat>, ghost e: Exchange)
    requires Ready(h) && at + count <= buf.Length
    requires buf !in h.Queue() && buf != h.rxBuf && buf != h.txBuf && buf != h.flushBuf
    modifies h, h.txBuf, h.rxBuf, h.flushBuf, h.Queue(), buf
    ensures fresh(h.Queue() - old(h.Queue())) && Settled(h, old(h.failures))
    ensures old(h.log) <= h.log && Recorded(h.log, e) && e.at == |old(h.log)|
    ensures e.req == Protocol.Tread(fid, off, Protocol.Capped(old(h.msize), 11, count))
    ensures e.msg != [] ==> Ready(h) && h.vq == old(h.vq) && h.msize == old(h.msize)
    ensures var got := Files.ReadOutcome(e.msg, Protocol.Capped(old(h.msize), 11, count));
      if got.Err? then outcome == Protocol.Err(got.code) && buf[..] == old(buf[..])
      else outcome == Protocol.Ok(|got.value|) && e.msg != []
           && buf[..] == old(buf[..at]) + got.value + old(buf[at + |got.value|..])
  {
    hide T.Sane, Recorded, Protocol.OnWire, Protocol.Length;
    var capped := Protocol.Capped(h.msize, 11, count);
    Protocol.RequestFits(Protocol.Tread(fid, off, capped), Protocol.P9_MSIZE);
    var len;
    len, e := Call(h, Protocol.Tread(fid, off, capped));
    if len == 0 {
      return Protocol.Err(-5), e;
    }
    var n := Decoded(h.rxBuf, len, capped, e.msg);
    if n.Err? {
      return n, e;
    }
    CopyOut(h, n.value, buf, at);
    outcome := n;
  }

  /** The replies as answers to what was asked: in round `i`, to the i-th request and no other. */
  function Listed(fid: u32, es: seq<Exchange>): (serve: (nat, u64, u32) -> Bytes) {
    (i: nat, o: u64, c: u32) => if i < |es| && es[i].req == Protocol.Tread(fid, o, c) then es[i].msg else []
  }

  lemma {:induction false} IntakesListed(fid: u32, off: u64, size: u32, msize: u32, es: seq<Exchange>, e: Exchange,
                                         k: nat)
    requires k <= |es|
    ensures Files.Intakes(off, size, msize, Listed(fid, es + [e]), k)
      == Files.Intakes(off, size, msize, Listed(fid, es), k)
  {
    hide Files.Gather, Files.Intakes, Files.Offset, Protocol.Capped;
    var all, some := Listed(fid, es + [e]), Listed(fid, es);
    if k == 0 {
      Files.IntakeSteps(off, size, msize, all, 0);
      Files.IntakeSteps(off, size, msize, some, 0);
    } else {
      IntakesListed(fid, off, size, msize, es, e, k - 1);
      if Files.Intakes(off, size, msize, some, k - 1).Taking? {
        Files.IntakeSteps(off, size, msize, all, k - 1);
        Files.IntakeSteps(off, size, msize, some, k - 1);
      } else {
        Files.TakenStays(off, size, msize, all, k - 1, k);
        Files.TakenStays(off, size, msize, some, k - 1, k);
      }
    }
  }

  /** Where the loop of Files.dfy is after these exchanges. */
  ghost function Now(fid: u32, off: u64, size: u32, msize: u32, es: seq<Exchange>): (p: Files.Intake)
    ensures |p.data| <= size && (p.Taking? ==> |p.data| < size)
  {
    Files.Intakes(off, size, msize, Listed(fid, es), |es|)
  }

  lemma NextIntake(fid: u32, off: u64, size: u32, msize: u32, es: seq<Exchange>, e: Exchange)
    requires var p := Now(fid, off, size, msize, es);
      && p.Taking?
      && e.req == Protocol.Tread(fid, Files.Offset(off, |p.data|), Protocol.Capped(msize, 11, size - |p.data|))
    ensures Now(fid, off, size, msize, es + [e]) == Files.Gather(size, msize, Now(fid, off, size, msize, es), e.msg)
  {
    hide Files.Gather, Files.Intakes, Files.Offset, Protocol.Capped;
    IntakesListed(fid, off, size, msize, es, e, |es|);
    Files.IntakeSteps(off, size, msize, Listed(fid, es + [e]), |es|);
  }

  /** One round of v9p_read. */
  method ReadRound(h: T.Handler, fid: u32, off: u64, size: u32, buf: array<u8>, total: u32,
                   ghost es: seq<Exchange>, ghost lo: nat, ghost failures: nat)
    returns (outcome: Protocol.Result<nat>, ghost es': seq<Exchange>)
    requires Ready(h) && h.failures >= failures && lo <= |h.log| && Conversation(h.log, lo, es)
    requires total < size == buf.Length
    requires buf !in h.Queue() && buf != h.rxBuf && buf != h.txBuf && buf != h.flushBuf
    requires Now(fid, off, size, h.msize, es) == Files.Taking(buf[..total])
    modifies h, h.txBuf, h.rxBuf, h.flushBuf, h.Queue(), buf
    ensures fresh(h.Queue() - old(h.Queue())) && Settled(h, failures) && h.failures >= failures
    ensures old(h.log) <= h.log && Conversation(h.log, lo, es') && |es'| == |es| + 1
    ensures outcome.Err? ==>
      buf[..] == old(buf[..]) && Now(fid, off, size, old(h.msize), es') == Files.Taken(true, outcome.code, buf[..total])
    ensures outcome.Ok? ==> Ready(h) && h.vq == old(h.vq) && h.msize == old(h.msize) && total + outcome.value <= size
    ensures outcome.Ok? ==> buf[total + outcome.value..] == old(buf[total + outcome.value..])
    ensures outcome.Ok? && outcome.value == 0 ==>
      Now(fid, off, size, old(h.msize), es') == Files.Taken(false, AsInt(total), buf[..total])
    ensures outcome.Ok? && outcome.value > 0 ==>
      Now(fid, off, size, old(h.msize), es') == Files.Gathered(size, buf[..total + outcome.value])
  {
    hide Ready, Settled, T.Parts, Now, Files.ReadOutcome, Files.Offset, Protocol.Capped, Recorded, Conversation;
    ghost var before, log, msize, failures1 := buf[..total], h.log, h.msize, h.failures;
    ghost var e;
    outcome, e := P9Read(h, fid, Files.Offset(off, total), size - total as int, buf, total);
    SettledSince(h, failures1, failures);
    GoodSince(h, failures);
    NextIntake(fid, off, size, msize, es, e);
    ConversationGrows(log, h.log, lo, es, e);
    es' := es + [e];
    ghost var got := Files.ReadOutcome(e.msg, Protocol.Capped(msize, 11, size - |before|));
    if got.Ok? {
      assert buf[..total + |got.value|] == before + got.value;
      assert buf[total + |got.value|..] == old(buf[total + |got.value|..]);
    } else {
      assert buf[..total] == before;
    }
  }

  /** Every reply is one a server of the file can give to its request. */
  ghost predicate ReadServed(file: Bytes, es: seq<Exchange>) {
    forall i :: 0 <= i < |es| ==>
      es[i].req.Tread? && Files.ReadConforms(file, es[i].req.offset, es[i].req.count, es[i].msg)
  }

  /** v9p_read over the handler: the loop of Files.dfy over the exchanges that took place. If a
      conforming server replied, the buffer gets exactly what one read of the file gives. */
  method Read(h: T.Handler, fid: u32, off: u64, size: u32, buf: array<u8>, ghost file: Bytes)
    returns (result: int, ghost es: seq<Exchange>, ghost p: Files.Intake)
    requires Ready(h) && buf.Length == size
    requires buf !in h.Queue() && buf != h.rxBuf && buf != h.txBuf && buf != h.flushBuf
    modifies h, h.txBuf, h.rxBuf, h.flushBuf, h.Queue(), buf
    ensures fresh(h.Queue() - old(h.Queue())) && Settled(h, old(h.failures))
    ensures Conversation(h.log, |old(h.log)|, es)
    ensures p == Files.Intakes(off, size, old(h.msize), Listed(fid, es), size) && p.Taken? && result == p.result
    ensures buf[..|p.data|] == p.data && buf[|p.data|..] == old(buf[|p.data|..])
    ensures 12 <= old(h.msize) && off as int + size <= 0x1_0000_0000_0000_0000 && ReadServed(file, es) ==>
      ReadRight(file, off, size, p)
  {
    hide Ready, Settled, Now, Conversation, ReadServed, ReadRight, Listed, Files.Intakes;
    ghost var msize, lo := h.msize, |h.log|;
    es := [];
    NowStarts(fid, off, size, msize);
    NothingSaid(h.log);
    var total: u32 := 0;
    while total < size
      invariant total <= size && buf[total..] == old(buf[total..]) && |es| <= total
      invariant Now(fid, off, size, msize, es) == Files.Gathered(size, buf[..total])
      invariant lo <= |h.log| && Conversation(h.log, lo, es) && Ready(h)
      invariant h.vq == old(h.vq) && h.msize == msize && h.failures >= old(h.failures)
    {
      var outcome;
      ghost var tail := buf[total..];
      outcome, es := ReadRound(h, fid, off, size, buf, total, es, lo, old(h.failures));
      if outcome.Err? {
        Concluded(file, fid, off, size, msize, es);
        return outcome.code, es, Now(fid, off, size, msize, es);
      }
      if outcome.value == 0 {
        Concluded(file, fid, off, size, msize, es);
        return AsInt(total), es, Now(fid, off, size, msize, es);
      }
      assert buf[total + outcome.value..] == tail[outcome.value..];
      total := total + outcome.value;
    }
    Concluded(file, fid, off, size, msize, es);
    SettledSince(h, h.failures, old(h.failures));
    result := AsInt(total);
    p := Now(fid, off, size, msize, es);
  }

  /** What was read is the file's from `off` on; without an error, all that one read gives. */
  ghost predicate ReadRight(file: Bytes, off: nat, size: u32, p: Files.Intake) {
    p.Taken? && p.data == Files.Slice(file, off, |p.data|)
    && (!p.failed ==> p.data == Files.Slice(file, off, size) && p.result == AsInt(|p.data|))
  }

  lemma NowStarts(fid: u32, off: u64, size: u32, msize: u32)
    ensures Now(fid, off, size, msize, []) == Files.Gathered(size, [])
  {
  }

  lemma ListedServes(file: Bytes, fid: u32, es: seq<Exchange>)
    requires ReadServed(file, es)
    ensures Files.Serves(file, Listed(fid, es))
  {
    hide Protocol.CheckError, Files.Slice;
    forall i: nat, o: u64, c: u32
      ensures Files.ReadConforms(file, o, c, Listed(fid, es)(i, o, c))
    {
    }
  }

  lemma Concluded(file: Bytes, fid: u32, off: u64, size: u32, msize: u32, es: seq<Exchange>)
    requires |es| <= size && Now(fid, off, size, msize, es).Taken?
    ensures var p := Now(fid, off, size, msize, es);
      && p == Files.Intakes(off, size, msize, Listed(fid, es), size)
      && (12 <= msize && off as int + size <= 0x1_0000_0000_0000_0000 && ReadServed(file, es) ==>
            ReadRight(file, off, size, p))
  {
    hide Files.Intakes, Files.Serves, Files.Slice, Listed, ReadServed;
    Files.TakenStays(off, size, msize, Listed(fid, es), |es|, size);
    if 12 <= msize && off as int + size <= 0x1_0000_0000_0000_0000 && ReadServed(file, es) {
      ListedServes(file, fid, es);
      Files.ReadExact(file, off, size, msize, Listed(fid, es));
    }
  }

  // ---- v9p_write ----

  /** P9_Write over the handler: the first bytes of `data` that fit go out in one Twrite, and the
      count or the error in its reply is passed on. */
  method P9Write(h: T.Handler, fid: u32, off: u64, data: Bytes)
    returns (outcome: Protocol.Result<u32>, ghost e: Exchange)
    requires Ready(h) && 23 <= h.msize && |data| < 0x1_0000_0000
    modifies h, h.txBuf, h.rxBuf, h.flushBuf, h.Queue()
    ensures fresh(h.Queue() - old(h.Queue())) && Settled(h, old(h.failures))
    ensures old(h.log) <= h.log && Recorded(h.log, e) && e.at == |old(h.log)|
    ensures e.req == Protocol.Twrite(fid, off, Files.Chunk(old(h.msize), data))
    ensures e.msg != [] ==> Ready(h) && h.vq == old(h.vq) && h.msize == old(h.msize)
    ensures outcome == Files.WriteOutcome(ReplyOf(e, 0)) && (outcome.Ok? ==> e.msg != [])
  {
    hide T.Sane, Recorded, Protocol.OnWire, Protocol.Length, Protocol.CountReply;
    var sent := Files.Chunk(h.msize, data);
    Protocol.RequestFits(Protocol.Twrite(fid, off, sent), h.msize);
    var len;
    len, e := Call(h, Protocol.Twrite(fid, off, sent));
    if len == 0 {
      return Protocol.Err(-5), e;
    }
    Protocol.CountOfMessage(e.msg, h.rxBuf[..]);
    outcome := Protocol.CountReply(h.rxBuf[..], len);
  }

  /** The reply to a Twrite of which the server wrote `n` bytes if it did not count. */
  function ReplyOf(e: Exchange, n: nat): (r: Files.WriteReply) {
    Files.WriteReply(n, e.msg, |e.msg|)
  }

  lemma SameOutcome(e: Exchange, n: nat)
    ensures Files.WriteOutcome(ReplyOf(e, n)) == Files.WriteOutcome(ReplyOf(e, 0))
  {
  }

  /** The replies in order; `part(i)` is what the server wrote of Twrite `i` if it did not count. */
  function Replies(es: seq<Exchange>, part: nat -> nat): (serve: nat -> Files.WriteReply) {
    (i: nat) => if i < |es| then ReplyOf(es[i], part(i)) else Files.WriteReply(0, [], 0)
  }

  /** The file after the server has carried out the requests as they were asked. */
  ghost function Applied(file: Bytes, es: seq<Exchange>, part: nat -> nat): (file': Bytes) {
    if es == [] then file
    else
      var n := |es| - 1;
      var before, e := Applied(file, es[..n], part), es[n];
      if e.req.Twrite?
      then Files.Overlay(before, e.req.offset, e.req.data[..Files.Written(ReplyOf(e, part(n)), e.req.data)])
      else before
  }

  lemma AppliedMore(file: Bytes, es: seq<Exchange>, e: Exchange, part: nat -> nat)
    requires e.req.Twrite?
    ensures Applied(file, es + [e], part)
      == Files.Overlay(Applied(file, es, part), e.req.offset,
                       e.req.data[..Files.Written(ReplyOf(e, part(|es|)), e.req.data)])
  {
    hide Files.Overlay, Files.Written;
    assert (es + [e])[..|es|] == es;
  }

  /** Where the loop of Files.dfy is after these exchanges. */
  ghost function Far(buf: Bytes, msize: u32, off: nat, file: Bytes, es: seq<Exchange>, part: nat -> nat)
    : (p: Files.Progress)
    requires |buf| < 0x1_0000_0000
    ensures p.Going? ==> p.total < |buf|
  {
    Files.Run(buf, msize, off, file, Replies(es, part), |es|)
  }

  lemma {:induction false} RunReplies(buf: Bytes, msize: u32, off: nat, file: Bytes, es: seq<Exchange>, e: Exchange,
                                      part: nat -> nat, k: nat)
    requires |buf| < 0x1_0000_0000 && k <= |es|
    ensures Files.Run(buf, msize, off, file, Replies(es + [e], part), k)
      == Files.Run(buf, msize, off, file, Replies(es, part), k)
  {
    hide Files.Round;
    if k == 0 {
    } else {
      RunReplies(buf, msize, off, file, es, e, part, k - 1);
    }
  }

  /** The Twrite that v9p_write owes in state `p`. */
  predicate Owed(buf: Bytes, msize: u32, off: nat, fid: u32, p: Files.Progress, req: Protocol.Request)
    requires |buf| < 0x1_0000_0000
  {
    p.Going? && p.total < |buf| && req.Twrite? && req.fid == fid && req.offset == off + p.total
    && req.data == Files.Chunk(msize, buf[p.total..])
  }

  lemma NextWrite(buf: Bytes, msize: u32, off: nat, fid: u32, file: Bytes, es: seq<Exchange>, e: Exchange,
                  part: nat -> nat)
    requires |buf| < 0x1_0000_0000 && Owed(buf, msize, off, fid, Far(buf, msize, off, file, es, part), e.req)
    ensures Far(buf, msize, off, file, es + [e], part)
      == Files.Round(buf, msize, off, Far(buf, msize, off, file, es, part), ReplyOf(e, part(|es|)))
    ensures Far(buf, msize, off, file, es, part).file == Applied(file, es, part) ==>
      Far(buf, msize, off, file, es + [e], part).file == Applied(file, es + [e], part)
  {
    hide Far, Applied, Files.Round, Files.Overlay, Files.Chunk, Files.Written, ReplyOf;
    NextFar(buf, msize, off, file, es, e, part);
    AppliedMore(file, es, e, part);
    RoundFile(buf, msize, off, Far(buf, msize, off, file, es, part), ReplyOf(e, part(|es|)));
  }

  lemma NextFar(buf: Bytes, msize: u32, off: nat, file: Bytes, es: seq<Exchange>, e: Exchange, part: nat -> nat)
    requires |buf| < 0x1_0000_0000 && Far(buf, msize, off, file, es, part).Going?
    ensures Far(buf, msize, off, file, es + [e], part)
      == Files.Round(buf, msize, off, Far(buf, msize, off, file, es, part), ReplyOf(e, part(|es|)))
  {
    hide Files.Round, Files.Run;
    RunReplies(buf, msize, off, file, es, e, part, |es|);
    Files.RunSteps(buf, msize, off, file, Replies(es + [e], part), |es|);
  }

  lemma RoundFile(buf: Bytes, msize: u32, off: nat, p: Files.Progress, r: Files.WriteReply)
    requires |buf| < 0x1_0000_0000 && p.Going? && p.total < |buf|
    ensures var sent := Files.Chunk(msize, buf[p.total..]);
      Files.Round(buf, msize, off, p, r).file == Files.Overlay(p.file, off + p.total, sent[..Files.Written(r, sent)])
  {
    hide Files.Overlay, Files.Chunk, Files.Written, Files.WriteOutcome;
  }

  /** Every Twrite was the one owed. */
  ghost predicate AllOwed(buf: Bytes, msize: u32, off: nat, fid: u32, file: Bytes, es: seq<Exchange>, part: nat -> nat)
    requires |buf| < 0x1_0000_0000
  {
    forall i :: 0 <= i < |es| ==>
      Owed(buf, msize, off, fid, Files.Run(buf, msize, off, file, Replies(es, part), i), es[i].req)
  }

  lemma OwedMore(buf: Bytes, msize: u32, off: nat, fid: u32, file: Bytes, es: seq<Exchange>, e: Exchange,
                 part: nat -> nat)
    requires |buf| < 0x1_0000_0000 && AllOwed(buf, msize, off, fid, file, es, part)
    requires Owed(buf, msize, off, fid, Far(buf, msize, off, file, es, part), e.req)
    ensures AllOwed(buf, msize, off, fid, file, es + [e], part)
  {
    hide Files.Run, Owed;
    var all := es + [e];
    forall i | 0 <= i < |all|
      ensures Owed(buf, msize, off, fid, Files.Run(buf, msize, off, file, Replies(all, part), i), all[i].req)
    {
      RunReplies(buf, msize, off, file, es, e, part, i);
    }
  }

  /** No reply counts more than its Twrite carried. */
  ghost predicate InCount(es: seq<Exchange>) {
    forall i :: 0 <= i < |es| && es[i].req.Twrite? && Files.WriteOutcome(ReplyOf(es[i], 0)).Ok? ==>
      Files.WriteOutcome(ReplyOf(es[i], 0)).value <= |es[i].req.data|
  }

  /** With counts in range, the file holds exactly the counted bytes, and the loop moves on. */
  lemma WriteRight(buf: Bytes, msize: u32, off: nat, fid: u32, file: Bytes, es: seq<Exchange>, part: nat -> nat)
    requires |buf| < 0x1_0000_0000 && AllOwed(buf, msize, off, fid, file, es, part) && InCount(es)
    ensures var p := Far(buf, msize, off, file, es, part);
      Files.Right(buf, off, file, p) && (p.Going? ==> p.total >= |es|)
  {
    hide Files.Run, Files.Right, Files.Chunk, Files.WriteOutcome, InCount;
    forall k | 0 <= k < |es|
      ensures Files.InRange(buf, msize, off, Replies(es, part), k)
    {
      CountInRange(buf, msize, off, fid, file, es, part, k);
    }
    Files.RunRight(buf, msize, off, file, Replies(es, part), |es|);
  }

  lemma CountInRange(buf: Bytes, msize: u32, off: nat, fid: u32, file: Bytes, es: seq<Exchange>, part: nat -> nat,
                     k: nat)
    requires |buf| < 0x1_0000_0000 && AllOwed(buf, msize, off, fid, file, es, part) && InCount(es) && k < |es|
    ensures Files.InRange(buf, msize, off, Replies(es, part), k)
  {
    hide Files.Run, Files.Chunk, Files.WriteOutcome;
    Files.PaceIgnoresFile(buf, msize, off, file, Replies(es, part), k);
    assert Replies(es, part)(k) == ReplyOf(es[k], part(k));
    SameOutcome(es[k], part(k));
  }

  /** One round of v9p_write. */
  method WriteRound(h: T.Handler, fid: u32, off: nat, buf: Bytes, total: u32, ghost file: Bytes, ghost part: nat -> nat,
                    ghost es: seq<Exchange>, ghost lo: nat, ghost failures: nat)
    returns (outcome: Protocol.Result<u32>, ghost es': seq<Exchange>)
    requires Ready(h) && 23 <= h.msize && h.failures >= failures && lo <= |h.log| && Conversation(h.log, lo, es)
    requires total < |buf| < 0x1_0000_0000 && off + |buf| < 0x1_0000_0000_0000_0000
    requires Far(buf, h.msize, off, file, es, part) == Files.Going(total, Applied(file, es, part))
    requires AllOwed(buf, h.msize, off, fid, file, es, part)
    modifies h, h.txBuf, h.rxBuf, h.flushBuf, h.Queue()
    ensures fresh(h.Queue() - old(h.Queue())) && Settled(h, failures) && h.failures >= failures
    ensures old(h.log) <= h.log && Conversation(h.log, lo, es') && |es'| == |es| + 1
    ensures AllOwed(buf, old(h.msize), off, fid, file, es', part)
    ensures outcome.Ok? ==> Ready(h) && h.vq == old(h.vq) && h.msize == old(h.msize)
    ensures Far(buf, old(h.msize), off, file, es', part) == Went(buf, total, outcome, Applied(file, es', part))
  {
    hide Ready, Settled, T.Parts, Recorded, Conversation, AllOwed, Far, Applied, Files.Chunk, Files.Round;
    ghost var log, msize, failures1 := h.log, h.msize, h.failures;
    ghost var e;
    outcome, e := P9Write(h, fid, off + total, buf[total..]);
    SettledSince(h, failures1, failures);
    GoodSince(h, failures);
    NextWrite(buf, msize, off, fid, file, es, e, part);
    OwedMore(buf, msize, off, fid, file, es, e, part);
    ConversationGrows(log, h.log, lo, es, e);
    es' := es + [e];
    RoundWent(buf, msize, off, Far(buf, msize, off, file, es, part), e, part(|es|));
  }

  /** The state after a round with this outcome that left the file as `file`. */
  ghost function Went(buf: Bytes, total: u32, outcome: Protocol.Result<u32>, file: Bytes): (p: Files.Progress) {
    match outcome
    case Err(code) => Files.Ended(true, code, total, file)
    case Ok(n) =>
      if n == 0 then Files.Ended(false, AsInt(total), total, file)
      else Files.Entered(buf, (total as int + n) % 0x1_0000_0000, file)
  }

  lemma RoundWent(buf: Bytes, msize: u32, off: nat, p: Files.Progress, e: Exchange, n: nat)
    requires |buf| < 0x1_0000_0000 && p.Going? && p.total < |buf|
    ensures var p' := Files.Round(buf, msize, off, p, ReplyOf(e, n));
      p' == Went(buf, p.total, Files.WriteOutcome(ReplyOf(e, 0)), p'.file)
  {
    hide Files.Overlay, Files.Chunk, Files.Written, Files.WriteOutcome;
    SameOutcome(e, n);
  }

  /** v9p_write over the handler, stopped after at most `rounds` rounds: the loop of Files.dfy over
      the exchanges that took place, and the file is what the server makes of the requests as
      they were asked. If no reply counts more than its Twrite carried, the file holds exactly the
      counted bytes, and as many rounds as bytes are enough. */
  method Write(h: T.Handler, fid: u32, off: nat, buf: Bytes, rounds: nat, ghost file: Bytes, ghost part: nat -> nat)
    returns (ended: bool, result: int, ghost es: seq<Exchange>, ghost p: Files.Progress)
    requires Ready(h) && 23 <= h.msize && |buf| < 0x1_0000_0000 && off + |buf| < 0x1_0000_0000_0000_0000
    modifies h, h.txBuf, h.rxBuf, h.flushBuf, h.Queue()
    ensures fresh(h.Queue() - old(h.Queue())) && Settled(h, old(h.failures))
    ensures Conversation(h.log, |old(h.log)|, es) && AllOwed(buf, old(h.msize), off, fid, file, es, part)
    ensures p == Far(buf, old(h.msize), off, file, es, part) && p.file == Applied(file, es, part)
    ensures ended == p.Ended? && (ended ==> result == p.result)
    ensures |es| <= rounds && (!ended ==> |es| == rounds)
    ensures InCount(es) ==> Files.Right(buf, off, file, p) && (rounds >= |buf| ==> ended)
  {
    hide Ready, Settled, Conversation, AllOwed, Far, Applied, InCount, Files.Right;
    ghost var msize, lo := h.msize, |h.log|;
    es := [];
    FarStarts(buf, msize, off, fid, file, part);
    NothingSaid(h.log);
    var total: u32 := 0;
    var i := 0;
    while total < |buf| && i < rounds
      invariant i == |es| <= rounds && AllOwed(buf, msize, off, fid, file, es, part)
      invariant Far(buf, msize, off, file, es, part) == Files.Entered(buf, total, Applied(file, es, part))
      invariant lo <= |h.log| && Conversation(h.log, lo, es) && Ready(h)
      invariant h.vq == old(h.vq) && h.msize == msize && h.failures >= old(h.failures)
      decreases rounds - i
    {
      var outcome;
      outcome, es := WriteRound(h, fid, off, buf, total, file, part, es, lo, old(h.failures));
      i := i + 1;
      if outcome.Err? {
        Done(buf, msize, off, fid, file, es, part);
        return true, outcome.code, es, Far(buf, msize, off, file, es, part);
      }
      if outcome.value == 0 {
        Done(buf, msize, off, fid, file, es, part);
        return true, AsInt(total), es, Far(buf, msize, off, file, es, part);
      }
      total := (total as int + outcome.value) % 0x1_0000_0000;
    }
    Done(buf, msize, off, fid, file, es, part);
    SettledSince(h, h.failures, old(h.failures));
    ended, result := total >= |buf|, AsInt(total);
    p := Far(buf, msize, off, file, es, part);
  }

  lemma FarStarts(buf: Bytes, msize: u32, off: nat, fid: u32, file: Bytes, part: nat -> nat)
    requires |buf| < 0x1_0000_0000
    ensures Far(buf, msize, off, file, [], part) == Files.Entered(buf, 0, Applied(file, [], part))
    ensures AllOwed(buf, msize, off, fid, file, [], part)
  {
  }

  lemma Done(buf: Bytes, msize: u32, off: nat, fid: u32, file: Bytes, es: seq<Exchange>, part: nat -> nat)
    requires |buf| < 0x1_0000_0000 && AllOwed(buf, msize, off, fid, file, es, part)
    ensures var p := Far(buf, msize, off, file, es, part);
      InCount(es) ==> Files.Right(buf, off, file, p) && (p.Going? ==> |es| < |buf|)
  {
    hide AllOwed, Far, InCount, Files.Right;
    if InCount(es) {
      WriteRight(buf, msize, off, fid, file, es, part);
    }
  }

  // ---- v9p_readdir ----

  /** P9_Readdir over the handler: `n` bytes of data lie in the receive buffer, or the error. */
  method P9Readdir(h: T.Handler, fid: u32, cookie: u64) returns (n: Protocol.Result<nat>, ghost e: Exchange)
    requires Ready(h)
    modifies h, h.txBuf, h.rxBuf, h.flushBuf, h.Queue()
    ensures fresh(h.Queue() - old(h.Queue())) && Settled(h, old(h.failures))
    ensures old(h.log) <= h.log && Recorded(h.log, e) && e.at == |old(h.log)|
    ensures e.req == Protocol.Treaddir(fid, cookie, Readdir.Count(old(h.msize)))
    ensures e.msg != [] ==> Ready(h) && h.vq == old(h.vq) && h.msize == old(h.msize)
    ensures var got := Readdir.Outcome(e.msg, old(h.msize));
      if got.Err? then n == Protocol.Err(got.code)
      else n == Protocol.Ok(|got.value|) && e.msg != [] && 11 + |got.value| <= h.rxBuf.Length
           && h.rxBuf[11..11 + |got.value|] == got.value
  {
    hide T.Sane, Recorded, Protocol.OnWire, Protocol.Length;
    var count := Protocol.Capped(h.msize, 11, h.msize - 11);
    Protocol.RequestFits(Protocol.Treaddir(fid, cookie, count), Protocol.P9_MSIZE);
    var len;
    len, e := Call(h, Protocol.Treaddir(fid, cookie, count));
    if len == 0 {
      return Protocol.Err(-5), e;
    }
    n := Decoded(h.rxBuf, len, count, e.msg);
  }

  /** The inner loop of v9p_readdir, in the receive buffer itself, with the device moving between
      any two entries. */
  method Parse(h: T.Handler, n: nat, cookie: u64, calls: seq<Bytes>, stops: nat -> bool)
    returns (cookie': u64, calls': seq<Bytes>, stopped: bool)
    requires Ready(h) && 11 + n <= h.rxBuf.Length
    modifies h.rxBuf, h.Queue()
    ensures Ready(h) && h.rxBuf[..] == old(h.rxBuf[..])
    ensures var items := Readdir.Scan(old(h.rxBuf[11..11 + n]), 0);
      (calls', stopped) == Readdir.Fed(items, stops, calls) && (!stopped ==> cookie' == Readdir.Resume(items, cookie))
  {
    hide T.Sane, Readdir.ParseEntry;
    ghost var data := h.rxBuf[11..11 + n];
    var pos := 0;
    cookie', calls', stopped := cookie, calls, false;
    while pos < n
      invariant pos <= n && Ready(h) && h.rxBuf[..] == old(h.rxBuf[..])
      invariant Readdir.Fed(Readdir.Scan(data, pos), stops, calls') == Readdir.Fed(Readdir.Scan(data, 0), stops, calls)
      invariant Readdir.Resume(Readdir.Scan(data, pos), cookie') == Readdir.Resume(Readdir.Scan(data, 0), cookie)
    {
      if pos + 24 > n {
        break;
      }
      assert h.rxBuf[11..11 + n] == h.rxBuf[..][11..11 + n] == data;
      var (c, name, end) := Readdir.ParseEntry(h.rxBuf[11..11 + n], pos);
      assert Readdir.Scan(data, pos)[1..] == Readdir.Scan(data, end);
      cookie', pos := c, end;
      calls' := calls' + [name];
      h.Rest();
      if stops(|calls'| - 1) {
        return cookie', calls', true;
      }
    }
  }

  /** The replies as answers to what was asked: in round `i`, to the i-th request and no other. */
  function Answers(fid: u32, msize: u32, es: seq<Exchange>): (serve: (nat, u64) -> Bytes)
    requires 11 <= msize
  {
    (i: nat, c: u64) =>
      if i < |es| && es[i].req == Protocol.Treaddir(fid, c, Readdir.Count(msize)) then es[i].msg else []
  }

  lemma {:induction false} RunListed(fid: u32, msize: u32, stops: nat -> bool, es: seq<Exchange>, e: Exchange, k: nat)
    requires 11 <= msize && k <= |es|
    ensures Readdir.Run(msize, stops, Answers(fid, msize, es + [e]), k)
      == Readdir.Run(msize, stops, Answers(fid, msize, es), k)
  {
    hide Readdir.Round;
    if k == 0 {
    } else {
      RunListed(fid, msize, stops, es, e, k - 1);
    }
  }

  /** Where the loop of Readdir.dfy is after these exchanges. */
  ghost function Place(fid: u32, msize: u32, stops: nat -> bool, es: seq<Exchange>): (p: Readdir.Progress)
    requires 11 <= msize
  {
    Readdir.Run(msize, stops, Answers(fid, msize, es), |es|)
  }

  lemma NextRound(fid: u32, msize: u32, stops: nat -> bool, es: seq<Exchange>, e: Exchange)
    requires 11 <= msize && Place(fid, msize, stops, es).Reading?
    requires e.req == Protocol.Treaddir(fid, Place(fid, msize, stops, es).cookie, Readdir.Count(msize))
    ensures Place(fid, msize, stops, es + [e]) == Readdir.Round(msize, stops, Place(fid, msize, stops, es), e.msg)
  {
    hide Readdir.Round, Readdir.Run, Readdir.Count;
    RunListed(fid, msize, stops, es, e, |es|);
    Readdir.RunSteps(msize, stops, Answers(fid, msize, es + [e]), |es|, 0);
  }

  /** Every reply is one a server of the directory can give to its request. */
  ghost predicate DirectoryServed(dir: seq<Readdir.Entry>, es: seq<Exchange>) {
    forall i :: 0 <= i < |es| ==>
      es[i].req.Treaddir?
      && Readdir.ReaddirConforms(dir, Readdir.Find(dir, es[i].req.offset), es[i].req.count, es[i].msg)
  }

  /** v9p_readdir over the handler, stopped after at most `rounds` rounds: the loop of
      Readdir.dfy over the exchanges that took place. If a conforming server replied, the state is
      right, and one round more than there are entries is enough to end. */
  method ReadDirectory(h: T.Handler, fid: u32, stops: nat -> bool, rounds: nat, ghost dir: seq<Readdir.Entry>)
    returns (p: Readdir.Progress, ghost es: seq<Exchange>)
    requires Ready(h)
    modifies h, h.txBuf, h.rxBuf, h.flushBuf, h.Queue()
    ensures fresh(h.Queue() - old(h.Queue())) && Settled(h, old(h.failures))
    ensures Conversation(h.log, |old(h.log)|, es)
    ensures |es| <= rounds && (p.Reading? ==> |es| == rounds)
    ensures p == Place(fid, old(h.msize), stops, es)
    ensures Readdir.Directory(dir, old(h.msize)) && DirectoryServed(dir, es) ==>
      Readdir.Right(dir, old(h.msize), stops, Answers(fid, old(h.msize), es), p) && (rounds > |dir| ==> p.Finished?)
  {
    hide Settled, T.Sane, Place, Readdir.Scan, Readdir.Fed, Readdir.Resume, Readdir.Outcome, Readdir.Count;
    hide Recorded, Conversation, Answers, Readdir.Right, Readdir.Directory, DirectoryServed;
    ghost var msize, lo := h.msize, |h.log|;
    es := [];
    PlaceStarts(fid, msize, stops);
    NothingSaid(h.log);
    var calls: seq<Bytes> := [];
    var cookie: u64 := 0;
    for i := 0 to rounds
      invariant |es| == i && Place(fid, msize, stops, es) == Readdir.Reading(cookie, calls)
      invariant lo <= |h.log| && Conversation(h.log, lo, es) && Ready(h)
      invariant h.vq == old(h.vq) && h.msize == msize && h.failures >= old(h.failures)
    {
      ghost var log, failures := h.log, h.failures;
      var n;
      ghost var e;
      n, e := P9Readdir(h, fid, cookie);
      SettledSince(h, failures, old(h.failures));
      GoodSince(h, failures);
      NextRound(fid, msize, stops, es, e);
      ConversationGrows(log, h.log, lo, es, e);
      es := es + [e];
      if n.Err? {
        Arrived(dir, fid, msize, stops, es);
        return Readdir.Finished(n.code, calls), es;
      }
      if n.value == 0 {
        Arrived(dir, fid, msize, stops, es);
        return Readdir.Finished(0, calls), es;
      }
      var stopped;
      cookie, calls, stopped := Parse(h, n.value, cookie, calls, stops);
      if stopped {
        Arrived(dir, fid, msize, stops, es);
        SettledSince(h, h.failures, old(h.failures));
        return Readdir.Finished(0, calls), es;
      }
    }
    Arrived(dir, fid, msize, stops, es);
    SettledSince(h, h.failures, old(h.failures));
    p := Readdir.Reading(cookie, calls);
  }

  lemma PlaceStarts(fid: u32, msize: u32, stops: nat -> bool)
    requires 11 <= msize
    ensures Place(fid, msize, stops, []) == Readdir.Reading(0, [])
  {
  }

  lemma AnswersServe(dir: seq<Readdir.Entry>, fid: u32, msize: u32, es: seq<Exchange>)
    requires 11 <= msize && DirectoryServed(dir, es)
    ensures Readdir.Serves(dir, Answers(fid, msize, es), msize)
  {
    hide Protocol.CheckError, Readdir.Carries;
    forall i: nat, c: u64
      ensures Readdir.ReaddirConforms(dir, Readdir.Find(dir, c), Readdir.Count(msize), Answers(fid, msize, es)(i, c))
    {
    }
  }

  lemma Arrived(dir: seq<Readdir.Entry>, fid: u32, msize: u32, stops: nat -> bool, es: seq<Exchange>)
    requires 11 <= msize
    ensures var p := Place(fid, msize, stops, es);
      Readdir.Directory(dir, msize) && DirectoryServed(dir, es) ==>
        Readdir.Right(dir, msize, stops, Answers(fid, msize, es), p) && (p.Reading? ==> |es| <= |dir|)
  {
    hide Readdir.Run, Readdir.Directory, Readdir.Serves, Answers, DirectoryServed;
    if Readdir.Directory(dir, msize) && DirectoryServed(dir, es) {
      AnswersServe(dir, fid, msize, es);
      Readdir.RunRight(dir, msize, stops, Answers(fid, msize, es), |es|);
    }
  }
}
