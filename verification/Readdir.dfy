/** Directory streaming: v9p_readdir against a server that splits the entries over replies. */
module Readdir {
  import opened Machine
  import opened Wire
  import Files
  import Protocol
  import Server

  /** An entry: qid, the cookie to resume after it, its type and its name. */
  datatype Entry = Entry(qtype: u8, version: u32, path: u64, cookie: u64, dtype: u8, name: Bytes)

  function EntryBytes(e: Entry): (b: Bytes) {
    Le(e.qtype, 1) + Le(e.version, 4) + Le(e.path, 8) + Le(e.cookie, 8) + Le(e.dtype, 1) + StrBytes(e.name)
  }

  function Packed(es: seq<Entry>): (b: Bytes) {
    if es == [] then [] else EntryBytes(es[0]) + Packed(es[1..])
  }

  /** The name as it fits the callback's buffer of 256 bytes. */
  function Cut(name: Bytes): (s: Bytes) {
    if |name| < 256 then name else name[..255]
  }

  function CutNames(es: seq<Entry>): (names: seq<Bytes>)
    ensures |names| == |es| && forall i :: 0 <= i < |es| ==> names[i] == Cut(es[i].name)
  {
    seq(|es|, i requires 0 <= i < |es| => Cut(es[i].name))
  }

  /** A directory as a server shows it to a client with this msize: cookies are distinct and
      not 0, names are proper wire strings, and each entry fits a reply. */
  ghost predicate Directory(dir: seq<Entry>, msize: u32) {
    && 11 <= msize
    && (forall i :: 0 <= i < |dir| ==>
          dir[i].cookie != 0 && |dir[i].name| < 0x1_0000 && 24 + |dir[i].name| <= msize - 11)
    && (forall i, j :: 0 <= i < j < |dir| ==> dir[i].cookie != dir[j].cookie)
  }

  /** Names short enough for the wire's 16-bit length. */
  ghost predicate Sendable(es: seq<Entry>) {
    forall i :: 0 <= i < |es| ==> |es[i].name| < 0x1_0000
  }

  /** The cookie after the first `i` entries. */
  function CookieAt(dir: seq<Entry>, i: nat): (c: u64)
    requires i <= |dir|
  {
    if i == 0 then 0 else dir[i - 1].cookie
  }

  /** The message carries the next `k` whole entries after the first `i`, at least one if any is
      left, and no more than `count` bytes of them. */
  ghost predicate Carries(dir: seq<Entry>, i: nat, count: nat, msg: Bytes, k: nat) {
    && i + k <= |dir| && (k == 0 ==> i == |dir|) && |Packed(dir[i..i + k])| <= count
    && |msg| == 11 + |Packed(dir[i..i + k])| && msg == Protocol.DataMessage(41, U16At(msg, 5), Packed(dir[i..i + k]))
  }

  /** What a conforming server can answer to a Treaddir after the first `i` entries: nothing ([]),
      an error, or the next entries. */
  ghost predicate ReaddirConforms(dir: seq<Entry>, i: nat, count: nat, msg: Bytes) {
    msg == [] || Protocol.CheckError(msg, |msg|) != 0 || exists k :: Carries(dir, i, count, msg, k)
  }

  /** The server's place in the directory for a cookie. */
  function Find(dir: seq<Entry>, cookie: u64): (i: nat)
    ensures i <= |dir|
  {
    if cookie == 0 || dir == [] then 0
    else if dir[|dir| - 1].cookie == cookie then |dir|
    else Find(dir[..|dir| - 1], cookie)
  }

  lemma {:induction false} FindsPlace(dir: seq<Entry>, msize: u32, i: nat)
    requires Directory(dir, msize) && i <= |dir|
    ensures Find(dir, CookieAt(dir, i)) == i
    decreases |dir|
  {
    if i == 0 || i == |dir| {
    } else {
      var shorter := dir[..|dir| - 1];
      FindsPlace(shorter, msize, i);
    }
  }

  /** What v9p_readdir asks for, capped again by P9_Readdir. */
  function Count(msize: u32): (n: u32)
    requires 11 <= msize
    ensures n == msize - 11
  {
    Protocol.Capped(msize, 11, msize - 11)
  }

  /** A server of the directory: `serve` gives its answer in every round and for every cookie. */
  ghost predicate Serves(dir: seq<Entry>, serve: (nat, u64) -> Bytes, msize: u32)
    requires 11 <= msize
  {
    forall i: nat, cookie: u64 :: ReaddirConforms(dir, Find(dir, cookie), Count(msize), serve(i, cookie))
  }

  /** The data or the error that P9_Readdir takes from an answer. */
  function Outcome(msg: Bytes, msize: u32): (data: Protocol.Result<Bytes>)
    requires 11 <= msize
    ensures data.Err? ==> data.code != 0
  {
    Files.ReadOutcome(msg, Count(msize))
  }

  // ---- Parsing one reply ----

  /** The entry at `pos`: its cookie, its name, and where the next one starts. */
  function ParseEntry(data: Bytes, pos: nat): (r: (u64, Bytes, nat))
    requires pos + 24 <= |data|
    ensures pos + 24 <= r.2 <= |data|
  {
    var (name, end) := GetStr(data, |data|, pos + 22, 256);
    (U64At(data, pos + 13), name, end)
  }

  lemma SubSlice(data: Bytes, pos: nat, n: nat, a: nat, b: nat)
    requires a <= b <= n && pos + n <= |data|
    ensures data[pos + a..pos + b] == data[pos..pos + n][a..b]
  {
    var l, r := data[pos + a..pos + b], data[pos..pos + n][a..b];
    forall i | 0 <= i < b - a
      ensures l[i] == r[i]
    {
      assert l[i] == data[pos + a + i];
    }
  }

  lemma StrLength(s: Bytes)
    requires |s| < 0x1_0000
    ensures |StrBytes(s)| == 2 + |s|
  {
  }

  lemma EntryLayout(e: Entry)
    ensures |EntryBytes(e)| == 22 + |StrBytes(e.name)|
    ensures EntryBytes(e)[13..21] == Le(e.cookie, 8)
    ensures EntryBytes(e)[22..22 + |StrBytes(e.name)|] == StrBytes(e.name)
  {
  }

  lemma EntryParses(e: Entry, data: Bytes, pos: nat)
    requires |e.name| < 0x1_0000 && pos + |EntryBytes(e)| <= |data|
    requires data[pos..pos + |EntryBytes(e)|] == EntryBytes(e)
    ensures |EntryBytes(e)| == 24 + |e.name|
    ensures ParseEntry(data, pos) == (e.cookie, Cut(e.name), pos + |EntryBytes(e)|)
  {
    hide EntryBytes, StrBytes, GetStr, Le, Value;
    StrLength(e.name);
    EntryLayout(e);
    SubSlice(data, pos, |EntryBytes(e)|, 13, 21);
    SubSlice(data, pos, |EntryBytes(e)|, 22, 22 + |StrBytes(e.name)|);
    Widths();
    ValueOfLe(e.cookie, 8);
    StrRoundTrip(e.name, data, pos + 22, |data|, 256);
  }

  lemma HeadOf(data: Bytes, pos: nat, b: Bytes, rest: Bytes)
    requires pos <= |data| && data[pos..] == b + rest
    ensures pos + |b| <= |data| && data[pos..pos + |b|] == b && data[pos + |b|..] == rest
  {
    assert data[pos..pos + |b|] == data[pos..][..|b|];
    assert data[pos + |b|..] == data[pos..][|b|..];
  }

  /** One turn of the inner loop: it stops exactly after the last entry, or reads the next. */
  lemma ParseStep(es: seq<Entry>, tail: Bytes, data: Bytes, pos: nat)
    requires pos <= |data| && data[pos..] == Packed(es) + tail && |tail| < 24
    requires es != [] ==> |es[0].name| < 0x1_0000
    ensures pos + 24 > |data| <==> es == []
    ensures es != [] ==>
      var end := pos + |EntryBytes(es[0])|;
      pos < end <= |data| && ParseEntry(data, pos) == (es[0].cookie, Cut(es[0].name), end)
      && data[end..] == Packed(es[1..]) + tail
  {
    hide EntryBytes, ParseEntry;
    if es != [] {
      PackedLong(es);
      assert Packed(es) + tail == EntryBytes(es[0]) + (Packed(es[1..]) + tail);
      HeadOf(data, pos, EntryBytes(es[0]), Packed(es[1..]) + tail);
      EntryParses(es[0], data, pos);
    }
  }

  lemma PackedLong(es: seq<Entry>)
    requires es != []
    ensures |Packed(es)| >= 24
  {
    EntryLayout(es[0]);
  }

  /** What the filler can get of an entry, and where to resume after it. */
  datatype Item = Item(cookie: u64, name: Bytes)

  /** What the inner loop finds in the data from `pos` on, whatever it is. */
  function Scan(data: Bytes, pos: nat): (items: seq<Item>)
    decreases |data| - pos
  {
    if pos + 24 > |data| then []
    else
      var (cookie, name, end) := ParseEntry(data, pos);
      [Item(cookie, name)] + Scan(data, end)
  }

  function Items(es: seq<Entry>): (items: seq<Item>)
    ensures |items| == |es| && forall i :: 0 <= i < |es| ==> items[i] == Item(es[i].cookie, Cut(es[i].name))
  {
    seq(|es|, i requires 0 <= i < |es| => Item(es[i].cookie, Cut(es[i].name)))
  }

  /** In packed entries it finds exactly these; a rest too short for an entry is ignored. */
  lemma {:induction false} ScanPacked(es: seq<Entry>, tail: Bytes, data: Bytes, pos: nat)
    requires pos <= |data| && data[pos..] == Packed(es) + tail && |tail| < 24 && Sendable(es)
    ensures Scan(data, pos) == Items(es)
    decreases |es|
  {
    hide Packed, EntryBytes, ParseEntry, Cut;
    ParseStep(es, tail, data, pos);
    if es == [] {
    } else {
      ScanPacked(es[1..], tail, data, pos + |EntryBytes(es[0])|);
    }
  }

  /** The names passed to the filler, until it stops: `stops` tells at which of its calls. */
  function Fed(items: seq<Item>, stops: nat -> bool, calls: seq<Bytes>): (r: (seq<Bytes>, bool)) {
    if items == [] then (calls, false)
    else if stops(|calls|) then (calls + [items[0].name], true)
    else Fed(items[1..], stops, calls + [items[0].name])
  }

  function Resume(items: seq<Item>, cookie: u64): (c: u64) {
    if items == [] then cookie else Resume(items[1..], items[0].cookie)
  }

  /** The inner loop of v9p_readdir over one reply's data, whatever it is. */
  method Parse(data: Bytes, cookie: u64, calls: seq<Bytes>, stops: nat -> bool)
    returns (cookie': u64, calls': seq<Bytes>, stopped: bool)
    ensures (calls', stopped) == Fed(Scan(data, 0), stops, calls)
    ensures !stopped ==> cookie' == Resume(Scan(data, 0), cookie)
  {
    hide ParseEntry;
    var pos := 0;
    cookie', calls', stopped := cookie, calls, false;
    while pos < |data|
      invariant pos <= |data|
      invariant Fed(Scan(data, pos), stops, calls') == Fed(Scan(data, 0), stops, calls)
      invariant Resume(Scan(data, pos), cookie') == Resume(Scan(data, 0), cookie)
      decreases |data| - pos
    {
      if pos + 24 > |data| {
        break;
      }
      var (c, name, end) := ParseEntry(data, pos);
      assert Scan(data, pos)[1..] == Scan(data, end);
      cookie', pos := c, end;
      calls' := calls' + [name];
      if stops(|calls'| - 1) {
        return cookie', calls', true;
      }
    }
  }

  // ---- The whole directory ----

  /** v9p_readdir between two rounds, or after the last. */
  datatype Progress = Reading(cookie: u64, calls: seq<Bytes>) | Finished(err: int, calls: seq<Bytes>)

  function Round(msize: u32, stops: nat -> bool, p: Progress, msg: Bytes): (p': Progress)
    requires 11 <= msize && p.Reading?
  {
    match Outcome(msg, msize)
    case Err(code) => Finished(code, p.calls)
    case Ok(data) =>
      if data == [] then Finished(0, p.calls)
      else
        var (calls, stopped) := Fed(Scan(data, 0), stops, p.calls);
        if stopped then Finished(0, calls) else Reading(Resume(Scan(data, 0), p.cookie), calls)
  }

  /** At most `k` rounds against any server. */
  function Run(msize: u32, stops: nat -> bool, serve: (nat, u64) -> Bytes, k: nat): (p: Progress)
    requires 11 <= msize
    decreases k
  {
    if k == 0 then Reading(0, [])
    else
      var p := Run(msize, stops, serve, k - 1);
      if p.Reading? then Round(msize, stops, p, serve(k - 1, p.cookie)) else p
  }

  /** v9p_readdir, stopped after at most `rounds` rounds. Replies are no longer than the msize,
      as V9P_Transact makes sure. */
  method ReadDirectory(txBuf: array<u8>, rxBuf: array<u8>, fid: u32, serve: (nat, u64) -> Bytes, msize: u32,
                       stops: nat -> bool, rounds: nat)
    returns (p: Progress)
    requires 11 <= msize <= Protocol.P9_MSIZE == rxBuf.Length == txBuf.Length && txBuf != rxBuf
    requires forall i: nat, cookie: u64 :: |serve(i, cookie)| <= msize
    modifies rxBuf, txBuf
    ensures p == Run(msize, stops, serve, rounds)
  {
    hide Outcome, Scan, Fed, Resume, Run, Server.Received;
    RunSteps(msize, stops, serve, 0, rounds);
    var calls: seq<Bytes> := [];
    var cookie: u64 := 0;
    for i := 0 to rounds
      invariant Run(msize, stops, serve, i) == Reading(cookie, calls)
    {
      RunSteps(msize, stops, serve, i, rounds);
      RunSteps(msize, stops, serve, i + 1, rounds);
      var t: int := *;
      var data := Fetch(txBuf, rxBuf, t % 0x1_0000, fid, (c: u64) => serve(i, c), msize, cookie);
      if data.Err? {
        return Finished(data.code, calls);
      }
      if data.value == [] {
        return Finished(0, calls);
      }
      var stopped;
      cookie, calls, stopped := Parse(data.value, cookie, calls, stops);
      if stopped {
        return Finished(0, calls);
      }
    }
    p := Reading(cookie, calls);
  }

  lemma {:induction false} RunSteps(msize: u32, stops: nat -> bool, serve: (nat, u64) -> Bytes, i: nat, k: nat)
    requires 11 <= msize
    ensures Run(msize, stops, serve, 0) == Reading(0, [])
    ensures var p := Run(msize, stops, serve, i);
      p.Reading? ==> Run(msize, stops, serve, i + 1) == Round(msize, stops, p, serve(i, p.cookie))
    ensures i <= k && Run(msize, stops, serve, i).Finished? ==>
      Run(msize, stops, serve, k) == Run(msize, stops, serve, i)
    decreases k
  {
    hide Round;
    if i >= k {
    } else {
      RunSteps(msize, stops, serve, i, k - 1);
    }
  }

  /** P9_Readdir: the Treaddir in the transmit buffer asks for the entries after `cookie`; its
      answer lands in the receive buffer, and the data is decoded from there. */
  method Fetch(txBuf: array<u8>, rxBuf: array<u8>, tag: u16, fid: u32, serve: u64 -> Bytes, msize: u32, cookie: u64)
    returns (data: Protocol.Result<Bytes>)
    requires 11 <= msize <= Protocol.P9_MSIZE == rxBuf.Length == txBuf.Length && txBuf != rxBuf
    requires forall c: u64 :: |serve(c)| <= msize
    modifies rxBuf, txBuf
    ensures Server.Received(txBuf[..]) == Server.Understood(Protocol.Treaddir(fid, cookie, Count(msize)), tag)
    ensures data == Outcome(serve(cookie), msize)
  {
    hide Protocol.DataReply, Protocol.OnWire, Protocol.Length, Server.Received;
    var count := Protocol.Capped(msize, 11, msize - 11);
    var request := Protocol.Treaddir(fid, cookie, count);
    Protocol.RequestFits(request, Protocol.P9_MSIZE);
    var _ := Protocol.PutRequest(txBuf, request, tag);
    Server.FrontUnderstood(txBuf[..], request, tag, Protocol.P9_MSIZE);
    var asked := Server.Received(txBuf[..]);
    var msg := serve(asked.req.offset);
    var len := Files.Receive(rxBuf, msg);
    if len == 0 {
      return Protocol.Err(-5);
    }
    Protocol.DataOfMessage(msg, rxBuf[..], count);
    data := Protocol.DataReply(rxBuf[..], len, count);
  }

  // ---- A conforming server ----

  /** The names a filler gets that stops at its first call for which `stops` holds. */
  ghost predicate Delivered(dir: seq<Entry>, stops: nat -> bool, calls: seq<Bytes>) {
    && |calls| <= |dir| && calls == CutNames(dir)[..|calls|]
    && (forall j :: 0 <= j < |calls| - 1 ==> !stops(j))
    && (|calls| == |dir| || (calls != [] && stops(|calls| - 1)))
  }

  /** The names of the first entries, none of which stopped the filler. */
  ghost predicate SoFar(dir: seq<Entry>, stops: nat -> bool, calls: seq<Bytes>) {
    && |calls| <= |dir| && calls == CutNames(dir)[..|calls|]
    && (forall j :: 0 <= j < |calls| ==> !stops(j))
  }

  /** Feeding the next `k` entries. */
  lemma {:induction false} FedEntries(dir: seq<Entry>, k: nat, stops: nat -> bool, calls: seq<Bytes>, cookie: u64)
    requires SoFar(dir, stops, calls) && |calls| + k <= |dir| && cookie == CookieAt(dir, |calls|)
    ensures var items := Items(dir[|calls|..|calls| + k]); var (calls', stopped) := Fed(items, stops, calls);
      if stopped then Delivered(dir, stops, calls')
      else SoFar(dir, stops, calls') && |calls'| == |calls| + k && Resume(items, cookie) == CookieAt(dir, |calls| + k)
    decreases k
  {
    hide Cut;
    var n := |calls|;
    var items := Items(dir[n..n + k]);
    if k == 0 {
    } else {
      var next := calls + [items[0].name];
      assert items[0].name == CutNames(dir)[n] && next == CutNames(dir)[..n + 1];
      if !stops(n) {
        FedEntries(dir, k - 1, stops, next, dir[n].cookie);
        assert items[1..] == Items(dir[n + 1..n + k]);
      }
    }
  }

  lemma PackedEmpty(es: seq<Entry>)
    ensures Packed(es) == [] <==> es == []
  {
    if es != [] { PackedLong(es); }
  }

  /** The data of a conforming answer is the next `k` entries, none only at the end. */
  lemma Replied(dir: seq<Entry>, msize: u32, msg: Bytes, i: nat) returns (k: nat)
    requires Directory(dir, msize) && ReaddirConforms(dir, i, Count(msize), msg) && Outcome(msg, msize).Ok?
    ensures i + k <= |dir| && (k == 0 ==> i == |dir|)
    ensures Outcome(msg, msize).value == Packed(dir[i..i + k])
    ensures Scan(Packed(dir[i..i + k]), 0) == Items(dir[i..i + k])
  {
    hide Packed, Scan, Items;
    k :| Carries(dir, i, Count(msize), msg, k);
    var data := Packed(dir[i..i + k]);
    Protocol.DataArrives(41, U16At(msg, 5), data, msg, Count(msize));
    assert data[0..] == data + [];
    ScanPacked(dir[i..i + k], [], data, 0);
  }

  /** The state after a round is right: names in order so far and the place in the directory, or
      the end: everything delivered, or the server's error and everything before it delivered. */
  ghost predicate Right(dir: seq<Entry>, msize: u32, stops: nat -> bool, serve: (nat, u64) -> Bytes, p: Progress)
    requires 11 <= msize
  {
    if p.Reading? then SoFar(dir, stops, p.calls) && p.cookie == CookieAt(dir, |p.calls|)
    else if p.err == 0 then Delivered(dir, stops, p.calls)
    else SoFar(dir, stops, p.calls)
         && exists i: nat :: Outcome(serve(i, CookieAt(dir, |p.calls|)), msize) == Protocol.Err(p.err)
  }

  lemma RoundRight(dir: seq<Entry>, msize: u32, stops: nat -> bool, serve: (nat, u64) -> Bytes, p: Progress, i: nat)
    requires Directory(dir, msize) && Serves(dir, serve, msize) && Right(dir, msize, stops, serve, p) && p.Reading?
    ensures var p' := Round(msize, stops, p, serve(i, p.cookie));
      Right(dir, msize, stops, serve, p') && (p'.Reading? ==> |p'.calls| > |p.calls|)
  {
    hide Packed, Outcome, Scan, Fed, Items, Resume, ReaddirConforms, Find, CutNames;
    var n := |p.calls|;
    FindsPlace(dir, msize, n);
    var msg := serve(i, p.cookie);
    assert ReaddirConforms(dir, n, Count(msize), msg);
    if Outcome(msg, msize).Ok? {
      var k := Replied(dir, msize, msg, n);
      PackedEmpty(dir[n..n + k]);
      FedEntries(dir, k, stops, p.calls, p.cookie);
    }
  }

  lemma {:induction false} RunRight(dir: seq<Entry>, msize: u32, stops: nat -> bool, serve: (nat, u64) -> Bytes, k: nat)
    requires Directory(dir, msize) && Serves(dir, serve, msize)
    ensures var p := Run(msize, stops, serve, k);
      Right(dir, msize, stops, serve, p) && (p.Reading? ==> |p.calls| >= k)
  {
    hide Round, Right, Serves;
    if k == 0 {
      StartRight(dir, msize, stops, serve);
    } else {
      RunRight(dir, msize, stops, serve, k - 1);
      var p := Run(msize, stops, serve, k - 1);
      if p.Reading? {
        RoundRight(dir, msize, stops, serve, p, k - 1);
      }
    }
  }

  lemma StartRight(dir: seq<Entry>, msize: u32, stops: nat -> bool, serve: (nat, u64) -> Bytes)
    requires 11 <= msize
    ensures Right(dir, msize, stops, serve, Reading(0, []))
  {
  }

  /** Against a conforming server v9p_readdir ends: every entry once and in order, or the prefix up
      to where the filler stops, however the server splits the directory over replies; or the
      server's error, with everything before it passed on. */
  lemma DirectoryDelivered(dir: seq<Entry>, msize: u32, stops: nat -> bool, serve: (nat, u64) -> Bytes)
    requires Directory(dir, msize) && Serves(dir, serve, msize)
    ensures var p := Run(msize, stops, serve, |dir| + 1);
      p.Finished? && Right(dir, msize, stops, serve, p)
  {
    hide Run, Serves;
    RunRight(dir, msize, stops, serve, |dir| + 1);
  }

  // ---- A server that sends no whole entry ----

  /** A round leaves everything as it was exactly if the data is there but too short for an entry. */
  lemma StallExact(msize: u32, stops: nat -> bool, p: Progress, msg: Bytes)
    requires 11 <= msize && p.Reading?
    ensures Round(msize, stops, p, msg) == p <==> Outcome(msg, msize).Ok? && 0 < |Outcome(msg, msize).value| < 24
  {
    hide Outcome, ParseEntry;
    if Outcome(msg, msize).Ok? {
      FedGrows(Scan(Outcome(msg, msize).value, 0), stops, p.calls);
    }
  }

  lemma {:induction false} FedGrows(items: seq<Item>, stops: nat -> bool, calls: seq<Bytes>)
    ensures |Fed(items, stops, calls).0| >= |calls| + if items == [] then 0 else 1
    decreases items
  {
    if items == [] {
    } else {
      FedGrows(items[1..], stops, calls + [items[0].name]);
    }
  }

  /** When every answer from some round on is like that, v9p_readdir never ends. */
  lemma {:induction false} StalledForever(msize: u32, stops: nat -> bool, serve: (nat, u64) -> Bytes, i: nat, k: nat)
    requires 11 <= msize && i <= k && Run(msize, stops, serve, i).Reading?
    requires forall j: nat, c: u64 :: i <= j ==>
      Outcome(serve(j, c), msize).Ok? && 0 < |Outcome(serve(j, c), msize).value| < 24
    ensures Run(msize, stops, serve, k) == Run(msize, stops, serve, i)
    decreases k
  {
    hide Round, Outcome;
    if i == k {
    } else {
      StalledForever(msize, stops, serve, i, k - 1);
      var p := Run(msize, stops, serve, k - 1);
      StallExact(msize, stops, p, serve(k - 1, p.cookie));
    }
  }
}
