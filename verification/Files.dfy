/** Chunked file I/O: v9p_read and v9p_write as loops of Tread and Twrite against a server
    that may answer short, over any msize the buffers hold. */
module Files {
  import opened Machine
  import opened Wire
  import Protocol
  import Server

  function Min(a: int, b: int): (m: int) {
    if a < b then a else b
  }

  /** What one read of `size` bytes at `off` gives. */
  function Slice(file: Bytes, off: nat, size: nat): (s: Bytes) {
    if off >= |file| then [] else file[off..Min(off + size, |file|)]
  }

  // ---- Reading ----

  /** The data or the error that the answer to a Tread of `count` bytes carries; [] is no reply. */
  function ReadOutcome(msg: Bytes, count: nat): (data: Protocol.Result<Bytes>)
    ensures if data.Err? then data.code != 0 else |data.value| <= count
  {
    if msg == [] then Protocol.Err(-5) else Protocol.DataReply(msg, |msg|, count)
  }

  /** The transaction puts the reply into the receive buffer, which must hold it. */
  method Receive(rxBuf: array<u8>, msg: Bytes) returns (len: nat)
    requires |msg| <= rxBuf.Length
    modifies rxBuf
    ensures len == |msg| && msg <= rxBuf[..]
  {
    Store(rxBuf, 0, msg);
    len := |msg|;
  }

  /** P9_Read of at most `count` bytes at `off`, stored at `at`: the Tread in the transmit buffer
      asks for just that, and its answer, whatever it is, decides the rest. */
  method P9Read(txBuf: array<u8>, rxBuf: array<u8>, tag: u16, fid: u32, serve: (u64, u32) -> Bytes, msize: u32,
                off: u64, count: u32, buf: array<u8>, at: nat)
    returns (outcome: Protocol.Result<Bytes>)
    requires 11 <= msize <= Protocol.P9_MSIZE == rxBuf.Length == txBuf.Length
    requires at + count <= buf.Length && buf != rxBuf && buf != txBuf && txBuf != rxBuf
    requires forall o: u64, c: u32 :: |serve(o, c)| <= msize
    modifies buf, rxBuf, txBuf
    ensures var capped := Protocol.Capped(msize, 11, count);
      && Server.Received(txBuf[..]) == Server.Understood(Protocol.Tread(fid, off, capped), tag)
      && outcome == ReadOutcome(serve(off, capped), capped)
    ensures outcome.Err? ==> buf[..] == old(buf[..])
    ensures outcome.Ok? ==> buf[..] == old(buf[..at]) + outcome.value + old(buf[at + |outcome.value|..])
  {
    hide Protocol.DataReply, Protocol.OnWire, Protocol.Length, Server.Received;
    var capped := Protocol.Capped(msize, 11, count);
    var request := Protocol.Tread(fid, off, capped);
    Protocol.RequestFits(request, Protocol.P9_MSIZE);
    var _ := Protocol.PutRequest(txBuf, request, tag);
    Server.FrontUnderstood(txBuf[..], request, tag, Protocol.P9_MSIZE);
    var asked := Server.Received(txBuf[..]);
    var msg := serve(asked.req.offset, asked.req.count);
    var len := Receive(rxBuf, msg);
    if len == 0 {
      return Protocol.Err(-5);
    }
    Protocol.DataOfMessage(msg, rxBuf[..], capped);
    outcome := Protocol.DataReply(rxBuf[..], len, capped);
    if outcome.Ok? {
      Store(buf, at, outcome.value);
    }
  }

  /** The loop of v9p_read: between two rounds, or after the last. `data` is what it has read. */
  datatype Intake = Taking(data: Bytes) | Taken(failed: bool, result: int, data: Bytes)

  function Gathered(size: u32, data: Bytes): (p: Intake)
    requires |data| <= size
  {
    if |data| < size then Taking(data) else Taken(false, AsInt(|data|), data)
  }

  function Gather(size: u32, msize: u32, p: Intake, msg: Bytes): (p': Intake)
    requires p.Taking? && |p.data| < size
    ensures |p'.data| <= size && (p'.Taking? ==> |p.data| < |p'.data| < size)
  {
    match ReadOutcome(msg, Protocol.Capped(msize, 11, size - |p.data|))
    case Err(code) => Taken(true, code, p.data)
    case Ok(data) =>
      if data == [] then Taken(false, AsInt(|p.data|), p.data) else Gathered(size, p.data + data)
  }

  /** The offset `n` bytes after `off`, in 64 bits. */
  function Offset(off: u64, n: nat): (o: u64) {
    (off as int + n) % 0x1_0000_0000_0000_0000
  }

  /** The answer the i-th round gets to the Tread it sends when `data` is read. */
  function Answer(off: u64, size: u32, msize: u32, serve: (nat, u64, u32) -> Bytes, i: nat, data: Bytes): (msg: Bytes)
    requires |data| < size
  {
    serve(i, Offset(off, |data|), Protocol.Capped(msize, 11, size - |data|))
  }

  /** At most `k` rounds; `serve(i, o, c)` is the answer in round `i` to a Tread of `c` bytes at
      offset `o`, and may be anything. */
  function Intakes(off: u64, size: u32, msize: u32, serve: (nat, u64, u32) -> Bytes, k: nat): (p: Intake)
    ensures |p.data| <= size && (p.Taking? ==> k <= |p.data| < size)
    decreases k
  {
    if k == 0 then Gathered(size, [])
    else
      var p := Intakes(off, size, msize, serve, k - 1);
      if p.Taking? then Gather(size, msize, p, Answer(off, size, msize, serve, k - 1, p.data)) else p
  }

  lemma {:induction false} TakenStays(off: u64, size: u32, msize: u32, serve: (nat, u64, u32) -> Bytes, i: nat, k: nat)
    requires i <= k && Intakes(off, size, msize, serve, i).Taken?
    ensures Intakes(off, size, msize, serve, k) == Intakes(off, size, msize, serve, i)
    decreases k
  {
    hide Gather;
    if i == k {
    } else {
      TakenStays(off, size, msize, serve, i, k - 1);
    }
  }

  lemma IntakeSteps(off: u64, size: u32, msize: u32, serve: (nat, u64, u32) -> Bytes, i: nat)
    ensures Intakes(off, size, msize, serve, 0) == Gathered(size, [])
    ensures var p := Intakes(off, size, msize, serve, i);
      p.Taking? ==>
        Intakes(off, size, msize, serve, i + 1) == Gather(size, msize, p, Answer(off, size, msize, serve, i, p.data))
  {
    hide Gather;
  }

  /** v9p_read, whatever the replies: it ends within `size` rounds, and the buffer holds the data
      of the replies joined, never more than `size` bytes of it. */
  method Read(txBuf: array<u8>, rxBuf: array<u8>, fid: u32, serve: (nat, u64, u32) -> Bytes, msize: u32, size: u32,
              off: u64, buf: array<u8>)
    returns (result: int, ghost p: Intake)
    requires 11 <= msize <= Protocol.P9_MSIZE == rxBuf.Length == txBuf.Length
    requires forall i: nat, o: u64, c: u32 :: |serve(i, o, c)| <= msize
    requires buf.Length == size && buf != rxBuf && buf != txBuf && txBuf != rxBuf
    modifies buf, rxBuf, txBuf
    ensures p == Intakes(off, size, msize, serve, size) && p.Taken? && result == p.result
    ensures buf[..|p.data|] == p.data && buf[|p.data|..] == old(buf[|p.data|..])
  {
    hide Intakes, ReadOutcome, Server.Received, Protocol.Capped, Offset;
    IntakeSteps(off, size, msize, serve, 0);
    var total: u32 := 0;
    var i := 0;
    while total < size
      invariant total <= size && Intakes(off, size, msize, serve, i) == Gathered(size, buf[..total])
      invariant buf[total..] == old(buf[total..]) && i <= total
    {
      IntakeSteps(off, size, msize, serve, i);
      ghost var before := buf[..total];
      var t: int := *;
      var round := i;
      var outcome := P9Read(txBuf, rxBuf, t % 0x1_0000, fid, (o: u64, c: u32) => serve(round, o, c), msize,
                            Offset(off, total), size - total as int, buf, total);
      i := i + 1;
      if outcome.Err? {
        p := Taken(true, outcome.code, before);
        TakenStays(off, size, msize, serve, i, size);
        return outcome.code, p;
      }
      if outcome.value == [] {
        p := Taken(false, AsInt(total), before);
        TakenStays(off, size, msize, serve, i, size);
        return AsInt(total), p;
      }
      total := total + |outcome.value|;
      assert buf[..total] == before + outcome.value;
    }
    result := AsInt(total);
    p := Taken(false, result, buf[..total]);
    TakenStays(off, size, msize, serve, i, size);
  }

  // ---- Reading from a conforming server ----

  /** What a conforming server can answer to a Tread: no reply ([]), an error, or an Rread with
      some of the bytes asked for, and at least one of them if there are any. */
  predicate ReadConforms(file: Bytes, off: nat, count: nat, msg: Bytes) {
    msg == [] || Protocol.CheckError(msg, |msg|) != 0
    || (11 <= |msg| <= 11 + |Slice(file, off, count)|
        && (|msg| == 11 ==> Slice(file, off, count) == [])
        && msg == Protocol.DataMessage(117, U16At(msg, 5), Slice(file, off, |msg| - 11)))
  }

  /** A server of the file: in every round it answers what it is asked. */
  ghost predicate Serves(file: Bytes, serve: (nat, u64, u32) -> Bytes) {
    forall i: nat, o: u64, c: u32 :: ReadConforms(file, o, c, serve(i, o, c))
  }

  lemma ReadArrives(file: Bytes, off: nat, count: u32, msg: Bytes)
    requires ReadConforms(file, off, count, msg) && ReadOutcome(msg, count).Ok?
    ensures var got := ReadOutcome(msg, count).value;
      got == Slice(file, off, |got|) && |got| <= |Slice(file, off, count)|
      && (got == [] ==> Slice(file, off, count) == [])
  {
    Protocol.DataArrives(117, U16At(msg, 5), Slice(file, off, |msg| - 11), msg, count);
  }

  /** Two consecutive reads are one. */
  lemma SliceJoins(file: Bytes, off: nat, a: nat, b: nat)
    requires |Slice(file, off, a)| == a
    ensures Slice(file, off, a) + Slice(file, off + a, b) == Slice(file, off, a + b)
  {
  }

  /** A read that yields nothing, with room for something, is at the end of the file. */
  lemma AtEnd(file: Bytes, off: nat, total: u32, size: u32, msize: u32)
    requires total < size && 12 <= msize && |Slice(file, off, total)| == total
    requires Slice(file, off + total, Protocol.Capped(msize, 11, size - total as int)) == []
    ensures Slice(file, off, size) == Slice(file, off, total)
  {
  }

  /** What was read so far is the file's; at the end without error, all that one read would give. */
  ghost predicate Slices(file: Bytes, off: nat, size: u32, p: Intake) {
    p.data == Slice(file, off, |p.data|)
    && (p.Taken? && !p.failed ==> p.data == Slice(file, off, size) && p.result == AsInt(|p.data|))
  }

  lemma GatherSlices(file: Bytes, off: nat, size: u32, msize: u32, p: Intake, msg: Bytes)
    requires 12 <= msize && p.Taking? && |p.data| < size && Slices(file, off, size, p)
    requires ReadConforms(file, off + |p.data|, Protocol.Capped(msize, 11, size - |p.data|), msg)
    ensures Slices(file, off, size, Gather(size, msize, p, msg))
  {
    hide Slice, ReadConforms, ReadOutcome;
    var count := Protocol.Capped(msize, 11, size - |p.data|);
    if ReadOutcome(msg, count).Ok? {
      var data := ReadOutcome(msg, count).value;
      ReadArrives(file, off + |p.data|, count, msg);
      if data == [] {
        AtEnd(file, off, |p.data|, size, msize);
      } else {
        SliceJoins(file, off, |p.data|, |data|);
      }
    }
  }

  lemma AnswerConforms(file: Bytes, off: u64, size: u32, msize: u32, serve: (nat, u64, u32) -> Bytes, i: nat,
                       data: Bytes)
    requires Serves(file, serve) && off as int + size <= 0x1_0000_0000_0000_0000 && |data| < size
    ensures ReadConforms(file, off as int + |data|, Protocol.Capped(msize, 11, size - |data|),
                         Answer(off, size, msize, serve, i, data))
  {
    hide ReadConforms;
    assert Offset(off, |data|) == off as int + |data|;
  }

  lemma {:induction false} IntakesSlice(file: Bytes, off: u64, size: u32, msize: u32,
                                        serve: (nat, u64, u32) -> Bytes, k: nat)
    requires 12 <= msize && Serves(file, serve) && off as int + size <= 0x1_0000_0000_0000_0000
    ensures Slices(file, off, size, Intakes(off, size, msize, serve, k))
  {
    hide Gather, Slices, ReadConforms, Serves, Answer, Protocol.Capped;
    if k == 0 {
      NothingRead(file, off, size);
    } else {
      IntakesSlice(file, off, size, msize, serve, k - 1);
      var p := Intakes(off, size, msize, serve, k - 1);
      if p.Taking? {
        AnswerConforms(file, off, size, msize, serve, k - 1, p.data);
        GatherSlices(file, off, size, msize, p, Answer(off, size, msize, serve, k - 1, p.data));
      }
    }
  }

  lemma NothingRead(file: Bytes, off: nat, size: u32)
    ensures Slices(file, off, size, Gathered(size, []))
  {
  }

  /** Read from a conforming server, over every msize with room for data and however short its
      answers: exactly the bytes of one read, up to the end of the file; or the error of one of
      its answers, with everything before it read. */
  lemma ReadExact(file: Bytes, off: u64, size: u32, msize: u32, serve: (nat, u64, u32) -> Bytes)
    requires 12 <= msize && Serves(file, serve) && off as int + size <= 0x1_0000_0000_0000_0000
    ensures var p := Intakes(off, size, msize, serve, size);
      && p.Taken? && p.data == Slice(file, off, |p.data|)
      && (!p.failed ==> p.data == Slice(file, off, size) && p.result == AsInt(|p.data|))
      && (p.failed ==> exists k :: FailsAt(off, size, msize, serve, p, k))
  {
    hide Slice, Serves, Intakes;
    IntakesSlice(file, off, size, msize, serve, size);
    if Intakes(off, size, msize, serve, size).failed {
      FailedSomewhere(off, size, msize, serve, size);
    }
  }

  /** Answer `k` is the error that ended the loop. */
  ghost predicate FailsAt(off: u64, size: u32, msize: u32, serve: (nat, u64, u32) -> Bytes, p: Intake, k: nat) {
    p.Taken? && |p.data| < size && Intakes(off, size, msize, serve, k) == Taking(p.data)
    && ReadOutcome(Answer(off, size, msize, serve, k, p.data), Protocol.Capped(msize, 11, size - |p.data|))
       == Protocol.Err(p.result)
  }

  lemma {:induction false} FailedSomewhere(off: u64, size: u32, msize: u32, serve: (nat, u64, u32) -> Bytes, n: nat)
    requires Intakes(off, size, msize, serve, n).Taken? && Intakes(off, size, msize, serve, n).failed
    ensures exists k :: FailsAt(off, size, msize, serve, Intakes(off, size, msize, serve, n), k)
  {
    hide ReadOutcome;
    if n == 0 {
    } else if Intakes(off, size, msize, serve, n - 1).Taken? {
      FailedSomewhere(off, size, msize, serve, n - 1);
    } else {
      assert FailsAt(off, size, msize, serve, Intakes(off, size, msize, serve, n), n - 1);
    }
  }

  // ---- Writing ----

  /** The file after `data` is written at `off`; a gap is filled with zeros. */
  function Overlay(file: Bytes, off: nat, data: Bytes): (f: Bytes) {
    if data == [] then file
    else seq(if off + |data| > |file| then off + |data| else |file|, i requires i >= 0 => ByteAt(file, off, data, i))
  }

  function ByteAt(file: Bytes, off: nat, data: Bytes, i: nat): (b: u8) {
    if off <= i < off + |data| then data[i - off] else if i < |file| then file[i] else 0
  }

  /** Two consecutive writes are one. */
  lemma OverlayJoins(file: Bytes, off: nat, a: Bytes, b: Bytes)
    ensures Overlay(Overlay(file, off, a), off + |a|, b) == Overlay(file, off, a + b)
  {
    if a == [] {
      assert a + b == b;
    } else if b == [] {
      assert a + b == a;
    } else {
      OverlayAll(file, off, a, b);
    }
  }

  lemma OverlayAll(file: Bytes, off: nat, a: Bytes, b: Bytes)
    requires a != [] && b != []
    ensures Overlay(Overlay(file, off, a), off + |a|, b) == Overlay(file, off, a + b)
  {
    var l, r := Overlay(Overlay(file, off, a), off + |a|, b), Overlay(file, off, a + b);
    assert |l| == |r|;
    forall i | 0 <= i < |l|
      ensures l[i] == r[i]
    {
      assert l[i] == ByteAt(Overlay(file, off, a), off + |a|, b, i) && r[i] == ByteAt(file, off, a + b, i);
      assert i < |Overlay(file, off, a)| ==> Overlay(file, off, a)[i] == ByteAt(file, off, a, i);
    }
  }

  /** The answer to a Twrite: a count, an error, or nothing (length 0). A server that counts
      has written that much, all of the chunk if it counts more; otherwise it may have written
      `n` bytes all the same. */
  datatype WriteReply = WriteReply(n: nat, rx: Bytes, len: nat)

  function WriteOutcome(r: WriteReply): (count: Protocol.Result<u32>)
    ensures count.Err? ==> count.code != 0
  {
    if r.len == 0 || r.len > |r.rx| then Protocol.Err(-5) else Protocol.CountReply(r.rx, r.len)
  }

  /** What P9_Write sends of `data`. */
  function Chunk(msize: u32, data: Bytes): (c: Bytes)
    requires |data| < 0x1_0000_0000
    ensures c <= data && (23 <= msize ==> |c| == if |data| <= msize - 23 then |data| else msize - 23)
  {
    data[..Protocol.Capped(msize, 23, |data|)]
  }

  function Written(r: WriteReply, chunk: Bytes): (n: nat)
    ensures n <= |chunk|
  {
    var n := if WriteOutcome(r).Ok? then WriteOutcome(r).value else r.n;
    if n < |chunk| then n else |chunk|
  }

  /** P9_Write: the Twrite fits the transmit buffer, the server writes the first bytes of the
      chunk, and P9_Write passes its count or its error on. */
  method P9Write(txBuf: array<u8>, tag: u16, fid: u32, file: Bytes, reply: WriteReply, msize: u32, off: u64,
                 data: Bytes)
    returns (outcome: Protocol.Result<u32>, file': Bytes)
    requires txBuf.Length == Protocol.P9_MSIZE && 23 <= msize <= Protocol.P9_MSIZE && |data| < 0x1_0000_0000
    modifies txBuf
    ensures var sent := Chunk(msize, data);
      && Server.Received(txBuf[..]) == Server.Understood(Protocol.Twrite(fid, off, sent), tag)
      && file' == Overlay(file, off, sent[..Written(reply, sent)])
    ensures outcome == WriteOutcome(reply)
  {
    hide Overlay, WriteOutcome, Protocol.OnWire, Protocol.Length, Server.Received;
    var sent := Chunk(msize, data);
    var request := Protocol.Twrite(fid, off, sent);
    Protocol.RequestFits(request, msize);
    var _ := Protocol.PutRequest(txBuf, request, tag);
    Server.FrontUnderstood(txBuf[..], request, tag, msize);
    var asked := Server.Received(txBuf[..]);
    file' := Overlay(file, asked.req.offset, asked.req.data[..Written(reply, asked.req.data)]);
    outcome := WriteOutcome(reply);
  }

  /** The loop of v9p_write: between two rounds, or after the last. `total` is its 32-bit sum of
      the counts. */
  datatype Progress = Going(total: u32, file: Bytes) | Ended(failed: bool, result: int, total: u32, file: Bytes)

  function Entered(buf: Bytes, total: u32, file: Bytes): (p: Progress) {
    if total < |buf| then Going(total, file) else Ended(false, AsInt(total), total, file)
  }

  function Round(buf: Bytes, msize: u32, off: nat, p: Progress, r: WriteReply): (p': Progress)
    requires p.Going? && p.total < |buf| < 0x1_0000_0000
  {
    var sent := Chunk(msize, buf[p.total..]);
    var file := Overlay(p.file, off + p.total, sent[..Written(r, sent)]);
    match WriteOutcome(r)
    case Err(code) => Ended(true, code, p.total, file)
    case Ok(n) =>
      if n == 0 then Ended(false, AsInt(p.total), p.total, file)
      else Entered(buf, (p.total as int + n) % 0x1_0000_0000, file)
  }

  /** At most `k` rounds; the i-th Twrite is answered by `serve(i)`, which may be anything. */
  function Run(buf: Bytes, msize: u32, off: nat, file: Bytes, serve: nat -> WriteReply, k: nat): (p: Progress)
    requires |buf| < 0x1_0000_0000
    ensures p.Going? ==> p.total < |buf|
    decreases k
  {
    if k == 0 then Entered(buf, 0, file)
    else
      var p := Run(buf, msize, off, file, serve, k - 1);
      if p.Going? then Round(buf, msize, off, p, serve(k - 1)) else p
  }

  /** v9p_write, stopped after at most `rounds` rounds. */
  method Write(txBuf: array<u8>, fid: u32, file: Bytes, serve: nat -> WriteReply, msize: u32, buf: Bytes, off: nat,
               rounds: nat)
    returns (p: Progress)
    requires txBuf.Length == Protocol.P9_MSIZE && 23 <= msize <= Protocol.P9_MSIZE
    requires |buf| < 0x1_0000_0000 && off + |buf| < 0x1_0000_0000_0000_0000
    modifies txBuf
    ensures p == Run(buf, msize, off, file, serve, rounds)
  {
    hide Overlay, WriteOutcome, Written, Chunk, Run, AsInt, Server.Received;
    RunSteps(buf, msize, off, file, serve, 0);
    var total: u32 := 0;
    var file' := file;
    var i := 0;
    while total < |buf| && i < rounds
      invariant i <= rounds && Run(buf, msize, off, file, serve, i) == Entered(buf, total, file')
      decreases rounds - i
    {
      RunSteps(buf, msize, off, file, serve, i);
      var t: int := *;
      var outcome;
      outcome, file' := P9Write(txBuf, t % 0x1_0000, fid, file', serve(i), msize, off + total, buf[total..]);
      i := i + 1;
      if outcome.Err? {
        p := Ended(true, outcome.code, total, file');
        EndedStays(buf, msize, off, file, serve, i, rounds);
        return;
      }
      if outcome.value == 0 {
        p := Ended(false, AsInt(total), total, file');
        EndedStays(buf, msize, off, file, serve, i, rounds);
        return;
      }
      total := (total as int + outcome.value) % 0x1_0000_0000;
    }
    p := Entered(buf, total, file');
    if p.Ended? {
      EndedStays(buf, msize, off, file, serve, i, rounds);
    }
  }

  lemma RunSteps(buf: Bytes, msize: u32, off: nat, file: Bytes, serve: nat -> WriteReply, i: nat)
    requires |buf| < 0x1_0000_0000
    ensures Run(buf, msize, off, file, serve, 0) == Entered(buf, 0, file)
    ensures var p := Run(buf, msize, off, file, serve, i);
      p.Going? ==> p.total < |buf| && Run(buf, msize, off, file, serve, i + 1) == Round(buf, msize, off, p, serve(i))
  {
    hide Round;
  }

  lemma {:induction false} EndedStays(buf: Bytes, msize: u32, off: nat, file: Bytes, serve: nat -> WriteReply,
                                      i: nat, k: nat)
    requires |buf| < 0x1_0000_0000 && i <= k && Run(buf, msize, off, file, serve, i).Ended?
    ensures Run(buf, msize, off, file, serve, k) == Run(buf, msize, off, file, serve, i)
    decreases k
  {
    if i == k {
    } else {
      EndedStays(buf, msize, off, file, serve, i, k - 1);
    }
  }

  // ---- When v9p_write is right ----

  /** The file holds exactly the bytes counted, no more than there are. After a failed Twrite
      this is not asked. */
  ghost predicate Right(buf: Bytes, off: nat, file: Bytes, p: Progress) {
    p.Going? || !p.failed ==> p.total <= |buf| && p.file == Overlay(file, off, buf[..p.total])
  }

  /** The answer to Twrite number `k`, if it is sent, counts no more than was in it. */
  ghost predicate InRange(buf: Bytes, msize: u32, off: nat, serve: nat -> WriteReply, k: nat)
    requires |buf| < 0x1_0000_0000
  {
    var p := Run(buf, msize, off, [], serve, k);
    p.Going? && WriteOutcome(serve(k)).Ok? ==> WriteOutcome(serve(k)).value <= |Chunk(msize, buf[p.total..])|
  }

  /** The same but for the file. */
  predicate SamePace(p: Progress, q: Progress) {
    p.Going? == q.Going? && p.total == q.total
    && (p.Ended? && q.Ended? ==> p.failed == q.failed && p.result == q.result)
  }

  lemma {:induction false} PaceIgnoresFile(buf: Bytes, msize: u32, off: nat, file: Bytes, serve: nat -> WriteReply,
                                           k: nat)
    requires |buf| < 0x1_0000_0000
    ensures SamePace(Run(buf, msize, off, file, serve, k), Run(buf, msize, off, [], serve, k))
  {
    hide Round;
    if k == 0 {
    } else {
      PaceIgnoresFile(buf, msize, off, file, serve, k - 1);
      var p, q := Run(buf, msize, off, file, serve, k - 1), Run(buf, msize, off, [], serve, k - 1);
      if p.Going? {
        RoundPace(buf, msize, off, p, q, serve(k - 1));
      }
    }
  }

  lemma RoundPace(buf: Bytes, msize: u32, off: nat, p: Progress, q: Progress, r: WriteReply)
    requires p.Going? && p.total < |buf| < 0x1_0000_0000 && SamePace(p, q)
    ensures SamePace(Round(buf, msize, off, p, r), Round(buf, msize, off, q, r))
  {
    hide Overlay, WriteOutcome, Chunk, Written;
  }

  /** One round from a right state writes the next bytes of the buffer. */
  lemma RoundWrites(buf: Bytes, msize: u32, off: nat, file: Bytes, p: Progress, r: WriteReply)
    requires p.Going? && p.total < |buf| < 0x1_0000_0000 && Right(buf, off, file, p)
    ensures var n := Written(r, Chunk(msize, buf[p.total..]));
      p.total + n <= |buf| && Round(buf, msize, off, p, r).file == Overlay(file, off, buf[..p.total + n])
      && buf[..p.total] + Chunk(msize, buf[p.total..])[..n] == buf[..p.total + n]
  {
    hide Overlay, WriteOutcome, Written;
    var sent := Chunk(msize, buf[p.total..]);
    var n := Written(r, sent);
    OverlayJoins(file, off, buf[..p.total], sent[..n]);
    assert buf[..p.total] + sent[..n] == buf[..p.total + n];
  }

  lemma RoundRight(buf: Bytes, msize: u32, off: nat, file: Bytes, p: Progress, r: WriteReply)
    requires p.Going? && p.total < |buf| < 0x1_0000_0000 && Right(buf, off, file, p)
    requires WriteOutcome(r).Ok? ==> WriteOutcome(r).value <= |Chunk(msize, buf[p.total..])|
    ensures var p' := Round(buf, msize, off, p, r);
      Right(buf, off, file, p') && (p'.Going? ==> p'.total > p.total)
  {
    hide Overlay, WriteOutcome;
    RoundWrites(buf, msize, off, file, p, r);
  }

  lemma {:induction false} RunRight(buf: Bytes, msize: u32, off: nat, file: Bytes, serve: nat -> WriteReply, k: nat)
    requires |buf| < 0x1_0000_0000 && forall j :: 0 <= j < k ==> InRange(buf, msize, off, serve, j)
    ensures var p := Run(buf, msize, off, file, serve, k); Right(buf, off, file, p) && (p.Going? ==> p.total >= k)
  {
    hide Overlay, WriteOutcome, Round, Right, Chunk;
    if k == 0 {
      StartRight(buf, off, file);
    } else {
      RunRight(buf, msize, off, file, serve, k - 1);
      PaceIgnoresFile(buf, msize, off, file, serve, k - 1);
      var p := Run(buf, msize, off, file, serve, k - 1);
      assert InRange(buf, msize, off, serve, k - 1);
      if p.Going? {
        RoundRight(buf, msize, off, file, p, serve(k - 1));
      }
    }
  }

  lemma StartRight(buf: Bytes, off: nat, file: Bytes)
    ensures Right(buf, off, file, Entered(buf, 0, file))
  {
  }

  lemma OverlaySize(off: nat, data: Bytes)
    ensures |Overlay([], off, data)| == if data == [] then 0 else off + |data|
  {
  }

  /** A count above the chunk makes the next state wrong, on an empty file for one. */
  lemma RoundWrong(buf: Bytes, msize: u32, off: nat, p: Progress, r: WriteReply)
    requires p.Going? && p.total < |buf| < 0x1_0000_0000 && Right(buf, off, [], p)
    requires WriteOutcome(r).Ok? && WriteOutcome(r).value > |Chunk(msize, buf[p.total..])|
    ensures !Right(buf, off, [], Round(buf, msize, off, p, r))
  {
    hide Overlay, WriteOutcome;
    RoundWrites(buf, msize, off, [], p, r);
    var p' := Round(buf, msize, off, p, r);
    var n := |Chunk(msize, buf[p.total..])|;
    if p'.total <= |buf| {
      OverlaySize(off, buf[..p.total + n]);
      OverlaySize(off, buf[..p'.total]);
    }
  }

  /** Whatever the file, the loop has at every moment written exactly the bytes it has counted,
      if and only if every Rwrite counts at most what its Twrite carried. */
  lemma WriteExact(buf: Bytes, msize: u32, off: nat, serve: nat -> WriteReply)
    requires |buf| < 0x1_0000_0000
    ensures (forall file, k :: 0 <= k ==> Right(buf, off, file, Run(buf, msize, off, file, serve, k)))
            <==> forall k :: 0 <= k ==> InRange(buf, msize, off, serve, k)
  {
    hide Right, Run, Chunk;
    if forall k :: 0 <= k ==> InRange(buf, msize, off, serve, k) {
      forall file, k | 0 <= k
        ensures Right(buf, off, file, Run(buf, msize, off, file, serve, k))
      {
        RunRight(buf, msize, off, file, serve, k);
      }
    }
    if k :| 0 <= k && !InRange(buf, msize, off, serve, k) {
      OverCounted(buf, msize, off, serve, k);
    }
  }

  lemma OverCounted(buf: Bytes, msize: u32, off: nat, serve: nat -> WriteReply, k: nat)
    requires |buf| < 0x1_0000_0000 && !InRange(buf, msize, off, serve, k)
    ensures !Right(buf, off, [], Run(buf, msize, off, [], serve, k))
            || !Right(buf, off, [], Run(buf, msize, off, [], serve, k + 1))
  {
    hide Overlay, WriteOutcome, Round, Right, Chunk;
    var p := Run(buf, msize, off, [], serve, k);
    if Right(buf, off, [], p) {
      RoundWrong(buf, msize, off, p, serve(k));
    }
  }

  /** With counts in range the loop ends within as many rounds as there are bytes. It has written
      everything unless a count of zero or an error came back; an error is the answer to the last
      Twrite, whose own bytes are the last ones written. */
  lemma WriteEnds(buf: Bytes, msize: u32, off: nat, file: Bytes, serve: nat -> WriteReply)
    requires |buf| < 0x1_0000_0000 && forall k :: 0 <= k ==> InRange(buf, msize, off, serve, k)
    ensures var p := Run(buf, msize, off, file, serve, |buf|);
      p.Ended? && p.total <= |buf| && exists k :: LastRound(buf, msize, off, file, serve, k, p)
  {
    hide Overlay, WriteOutcome, Round, Chunk;
    RunRight(buf, msize, off, file, serve, |buf|);
    LastRoundOf(buf, msize, off, file, serve, |buf|);
  }

  /** How the loop came to its end: nothing to write, all written, or the answer of Twrite `k`. */
  ghost predicate LastRound(buf: Bytes, msize: u32, off: nat, file: Bytes, serve: nat -> WriteReply, k: nat,
                            p: Progress)
    requires |buf| < 0x1_0000_0000 && p.Ended? && p.total <= |buf|
  {
    if p.failed then
      var sent := Chunk(msize, buf[p.total..]);
      WriteOutcome(serve(k)) == Protocol.Err(p.result)
      && p.file == Overlay(file, off, buf[..p.total] + sent[..Written(serve(k), sent)])
    else
      p.result == AsInt(p.total) && p.file == Overlay(file, off, buf[..p.total])
      && (p.total == |buf| || WriteOutcome(serve(k)) == Protocol.Ok(0))
  }

  lemma {:induction false} LastRoundOf(buf: Bytes, msize: u32, off: nat, file: Bytes, serve: nat -> WriteReply, n: nat)
    requires |buf| < 0x1_0000_0000 && Run(buf, msize, off, file, serve, n).Ended?
    requires forall k :: 0 <= k ==> InRange(buf, msize, off, serve, k)
    ensures var p := Run(buf, msize, off, file, serve, n);
      p.total <= |buf| && exists k :: LastRound(buf, msize, off, file, serve, k, p)
  {
    hide Overlay, WriteOutcome, Chunk;
    if n == 0 {
      StartRight(buf, off, file);
      assert LastRound(buf, msize, off, file, serve, 0, Run(buf, msize, off, file, serve, n));
    } else if Run(buf, msize, off, file, serve, n - 1).Ended? {
      LastRoundOf(buf, msize, off, file, serve, n - 1);
    } else {
      RunRight(buf, msize, off, file, serve, n - 1);
      RunRight(buf, msize, off, file, serve, n);
      var p := Run(buf, msize, off, file, serve, n - 1);
      RoundWrites(buf, msize, off, file, p, serve(n - 1));
      assert LastRound(buf, msize, off, file, serve, n - 1, Run(buf, msize, off, file, serve, n));
    }
  }

  // ---- What over-counting does ----

  function Counting(n: u32): (r: WriteReply) {
    WriteReply(0, Le(11, 4) + Le(119, 1) + Le(0, 2) + Le(n, 4), 11)
  }

  lemma CountsSo(n: u32)
    ensures WriteOutcome(Counting(n)) == Protocol.Ok(n)
  {
    hide Protocol.CountReply, Le;
    Protocol.CountOf(Counting(n).rx, 0, n);
  }

  /** One answer that counts more than the buffer holds makes v9p_write report it. */
  lemma ReportsTooMuch(buf: Bytes, msize: u32, off: nat, file: Bytes, n: u32)
    requires 0 < |buf| && 23 + |buf| <= msize && |buf| < n
    ensures Run(buf, msize, off, file, _ => Counting(n), 1) == Ended(false, AsInt(n), n, Overlay(file, off, buf))
  {
    hide Overlay, WriteOutcome, Counting;
    CountsSo(n);
    assert buf[0..] == buf && buf[..|buf|] == buf;
    var p := Run(buf, msize, off, file, _ => Counting(n), 0);
    assert Chunk(msize, buf[p.total..]) == buf;
  }

  function SeeSaw(i: nat): (r: WriteReply) {
    Counting(if i % 2 == 0 then 1 else 0xFFFF_FFFF)
  }

  lemma CountedRound(buf: Bytes, msize: u32, off: nat, p: Progress, r: WriteReply, n: u32)
    requires p.Going? && p.total < |buf| < 0x1_0000_0000 && WriteOutcome(r) == Protocol.Ok(n) && n > 0
    ensures SamePace(Round(buf, msize, off, p, r), Entered(buf, (p.total as int + n) % 0x1_0000_0000, []))
  {
    hide Overlay, WriteOutcome, Chunk, Written;
  }

  /** Counts 1 and 2^32 - 1 in turn carry the 32-bit sum round to 0: a write of two bytes then
      never ends. */
  lemma {:induction false} NeverEnds(buf: Bytes, msize: u32, off: nat, file: Bytes, k: nat)
    requires |buf| == 2
    ensures Run(buf, msize, off, file, SeeSaw, k).Going? && Run(buf, msize, off, file, SeeSaw, k).total == k % 2
  {
    hide Overlay, WriteOutcome, Counting, Round;
    if k == 0 {
    } else {
      NeverEnds(buf, msize, off, file, k - 1);
      var n: u32 := if (k - 1) % 2 == 0 then 1 else 0xFFFF_FFFF;
      CountsSo(n);
      CountedRound(buf, msize, off, Run(buf, msize, off, file, SeeSaw, k - 1), SeeSaw(k - 1), n);
    }
  }
}
