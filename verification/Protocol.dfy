/** The 9P2000.L messages the client sends and the replies it decodes. */
module Protocol {
  import opened Machine
  import opened Wire

  const P9_MSIZE: u32 := 524288
  const P9_NOFID: u32 := 0xFFFF_FFFF
  const P9_NOTAG: u16 := 0xFFFF
  const P9_RLERROR: u8 := 7

  // ---- Requests ----

  /** The requests, with the fields the client chooses. */
  datatype Request =
    | Tversion(msize: u32)
    | Tattach(fid: u32)
    | Tflush(oldtag: u16)
    | Twalk(fid: u32, newfid: u32, names: seq<Bytes>)
    | Tclunk(fid: u32)
    | Tlopen(fid: u32, flags: u32)
    | Tlcreate(fid: u32, name: Bytes, flags: u32, mode: u32)
    | Tread(fid: u32, offset: u64, count: u32)
    | Twrite(fid: u32, offset: u64, data: Bytes)
    | Tgetattr(fid: u32, mask: u64)
    | Tsetattr(fid: u32, attr: seq<u32>, times: seq<u64>)
    | Tstatfs(fid: u32)
    | Treaddir(fid: u32, offset: u64, count: u32)
    | Tmkdir(fid: u32, name: Bytes, mode: u32)
    | Tunlinkat(fid: u32, name: Bytes, flags: u32)
    | Trenameat(fid: u32, name: Bytes, newdir: u32, newname: Bytes)
    | Tfsync(fid: u32, datasync: u32)
    | Tsymlink(fid: u32, name: Bytes, target: Bytes)
    | Treadlink(fid: u32)
    | Tlink(dfid: u32, fid: u32, name: Bytes)

  function Names(names: seq<Bytes>): (fs: seq<Field>)
    ensures |fs| == |names| && forall i :: 0 <= i < |fs| ==> fs[i] == FStr(names[i])
  {
    seq(|names|, i requires 0 <= i < |names| => FStr(names[i]))
  }

  /** The fields after the header, as the client puts them; Twrite's data follows them. */
  function Body(r: Request): (fs: seq<Field>) {
    match r
    case Tversion(msize) => [F32(msize), FStr(VERSION)]
    case Tattach(fid) => [F32(fid), F32(P9_NOFID), FStr([]), FStr([]), F32(0)]
    case Tflush(oldtag) => [F16(oldtag)]
    case Twalk(fid, newfid, names) => [F32(fid), F32(newfid), F16(|names| % 0x1_0000)] + Names(names)
    case Tclunk(fid) => [F32(fid)]
    case Tlopen(fid, flags) => [F32(fid), F32(flags)]
    case Tlcreate(fid, name, flags, mode) => [F32(fid), FStr(name), F32(flags), F32(mode), F32(0)]
    case Tread(fid, offset, count) => [F32(fid), F64(offset), F32(count)]
    case Twrite(fid, offset, data) => [F32(fid), F64(offset), F32(|data| % 0x1_0000_0000)]
    case Tgetattr(fid, mask) => [F32(fid), F64(mask)]
    case Tsetattr(fid, attr, times) =>
      [F32(fid)] + seq(|attr|, i requires 0 <= i < |attr| => F32(attr[i]))
      + seq(|times|, i requires 0 <= i < |times| => F64(times[i]))
    case Tstatfs(fid) => [F32(fid)]
    case Treaddir(fid, offset, count) => [F32(fid), F64(offset), F32(count)]
    case Tmkdir(fid, name, mode) => [F32(fid), FStr(name), F32(mode), F32(0)]
    case Tunlinkat(fid, name, flags) => [F32(fid), FStr(name), F32(flags)]
    case Trenameat(fid, name, newdir, newname) => [F32(fid), FStr(name), F32(newdir), FStr(newname)]
    case Tfsync(fid, datasync) => [F32(fid), F32(datasync)]
    case Tsymlink(fid, name, target) => [F32(fid), FStr(name), FStr(target), F32(0)]
    case Treadlink(fid) => [F32(fid)]
    case Tlink(dfid, fid, name) => [F32(dfid), F32(fid), FStr(name)]
  }

  /** "9P2000.L" */
  const VERSION: Bytes := [57, 80, 50, 48, 48, 48, 46, 76]

  function Payload(r: Request): (b: Bytes) {
    if r.Twrite? then r.data else []
  }

  /** Bytes on the wire. */
  function Length(r: Request): (n: nat) {
    7 + |Encode(Body(r))| + |Payload(r)|
  }

  /** The type byte of the request. */
  function TypeOf(r: Request): (t: u8) {
    match r
    case Tversion(_) => 100
    case Tattach(_) => 104
    case Tflush(_) => 108
    case Twalk(_, _, _) => 110
    case Tclunk(_) => 120
    case Tlopen(_, _) => 12
    case Tlcreate(_, _, _, _) => 14
    case Tread(_, _, _) => 116
    case Twrite(_, _, _) => 118
    case Tgetattr(_, _) => 24
    case Tsetattr(_, _, _) => 26
    case Tstatfs(_) => 8
    case Treaddir(_, _, _) => 40
    case Tmkdir(_, _, _) => 72
    case Tunlinkat(_, _, _) => 76
    case Trenameat(_, _, _, _) => 74
    case Tfsync(_, _) => 50
    case Tsymlink(_, _, _) => 16
    case Treadlink(_) => 22
    case Tlink(_, _, _) => 70
  }

  /** The request as it goes on the wire: size[4] type[1] tag[2] fields data. */
  function OnWire(r: Request, tag: u16): (m: Bytes)
    ensures |m| == Length(r)
  {
    Le(Length(r), 4) + (Le(TypeOf(r), 1) + Le(tag, 2) + Encode(Body(r)) + Payload(r))
  }

  /** A request as the client builds it: p9_put_header, one p9_put_ call per field, the data if
      any, and p9_finalize. Nothing behind the message is touched. */
  method PutRequest(buf: array<u8>, r: Request, tag: u16) returns (end: nat)
    requires Length(r) <= buf.Length < 0x1_0000_0000
    modifies buf
    ensures end == Length(r) && buf[..end] == OnWire(r, tag) && buf[end..] == old(buf[end..])
  {
    hide Encode, Le, Body, Payload, TypeOf;
    var fs, data := Body(r), Payload(r);
    end := PutHeader(buf, TypeOf(r), tag);
    ghost var head := buf[4..7];
    var at := PutFields(buf, end, fs);
    assert buf[..at][4..] == head + Encode(fs);
    ghost var front, behind := buf[..at], buf[at + |data|..];
    assert behind == buf[at..][|data|..] == old(buf[at + |data|..]);
    Store(buf, at, data);
    end := at + |data|;
    ghost var back := buf[4..];
    assert back == front[4..] + data + behind;
    Finalize(buf, end);
    Assembled(buf[..], buf[..4], Le(TypeOf(r), 1) + Le(tag, 2) + Encode(fs) + data, behind);
  }

  lemma Assembled(buf: Bytes, size: Bytes, rest: Bytes, behind: Bytes)
    requires |size| == 4 <= |buf| && buf[..4] == size && buf[4..] == rest + behind
    ensures 4 + |rest| <= |buf| && buf[..4 + |rest|] == size + rest && buf[4 + |rest|..] == behind
  {
    assert buf == size + rest + behind;
  }

  /** The tag read back from a buffer that holds a request is the request's. */
  lemma RequestTag(buf: Bytes, r: Request, tag: u16)
    requires OnWire(r, tag) <= buf
    ensures |buf| >= 7 && U16At(buf, 5) == tag
  {
    hide Le, Value, Encode, Body, Payload, TypeOf;
    var m := OnWire(r, tag);
    assert m[5..7] == Le(tag, 2);
    assert buf[5..7] == m[5..7];
    Widths();
    ValueOfLe(tag, 2);
  }

  lemma {:induction false} EncodeBound(fs: seq<Field>, n: nat)
    requires forall i :: 0 <= i < |fs| ==> |FieldBytes(fs[i])| <= n
    ensures |Encode(fs)| <= n * |fs|
  {
    hide FieldBytes;
    if fs == [] {
    } else {
      EncodeBound(fs[1..], n);
      assert n * |fs| == n + n * |fs[1..]|;
    }
  }

  /** What bounds the requests: a walk has at most 16 names from a path under 1024 bytes,
      Tsetattr four words and five doublewords, and write data is capped by the msize. */
  predicate Issued(r: Request, msize: u32) {
    match r
    case Twalk(_, _, names) => |names| <= 16 && forall i :: 0 <= i < |names| ==> |names[i]| < 1024
    case Tsetattr(_, attr, times) => |attr| == 4 && |times| == 5
    case Twrite(_, _, data) => 23 + |data| <= msize
    case _ => true
  }

  lemma FieldBound(f: Field)
    ensures |FieldBytes(f)| <= 65537
    ensures !f.FStr? ==> |FieldBytes(f)| <= 8
    ensures f.FStr? && |f.s| < 1024 ==> |FieldBytes(f)| <= 1025
  {
  }

  lemma SmallBody(r: Request)
    ensures !r.Twalk? && !r.Tsetattr? ==> |Body(r)| <= 7
    ensures r.Tsetattr? || r.Twrite? ==> forall i :: 0 <= i < |Body(r)| ==> !Body(r)[i].FStr?
    ensures r.Tsetattr? ==> |Body(r)| == 1 + |r.attr| + |r.times|
  {
  }

  /** Every request fits the transmit buffer, whatever its strings. */
  lemma RequestFits(r: Request, msize: u32)
    requires Issued(r, msize) && msize <= P9_MSIZE
    ensures Length(r) <= P9_MSIZE
  {
    hide Encode, FieldBytes;
    var fs := Body(r);
    SmallBody(r);
    forall i | 0 <= i < |fs|
      ensures |FieldBytes(fs[i])| <= if r.Twalk? then 1025 else if r.Tsetattr? || r.Twrite? then 8 else 65537
    {
      FieldBound(fs[i]);
    }
    EncodeBound(fs, if r.Twalk? then 1025 else if r.Tsetattr? || r.Twrite? then 8 else 65537);
    if r.Twrite? { WriteLength(r); }
  }

  lemma WriteLength(r: Request)
    requires r.Twrite?
    ensures Length(r) == 23 + |r.data|
  {
    var fs := Body(r);
    assert Encode(fs[2..]) == FieldBytes(fs[2]) + Encode(fs[3..]);
    assert Encode(fs[1..]) == FieldBytes(fs[1]) + Encode(fs[1..][1..]);
    assert fs[1..][1..] == fs[2..] && fs[3..] == [];
  }

  /** `count` cut to what the msize leaves after `overhead` bytes, in 32-bit arithmetic. */
  function Capped(msize: u32, overhead: u32, count: u32): (c: u32) {
    var room := (msize - overhead) % 0x1_0000_0000;
    if count > room then room else count
  }

  /** The cap is the smaller of the count and the room; below the overhead the room wraps. */
  lemma CapIsSmaller(msize: u32, overhead: u32, count: u32)
    ensures overhead <= msize && count <= msize - overhead ==> Capped(msize, overhead, count) == count
    ensures overhead <= msize && count > msize - overhead ==> Capped(msize, overhead, count) == msize - overhead
    ensures overhead > msize && overhead - msize <= 0x1_0000_0000 - count ==>
      Capped(msize, overhead, count) == count
    ensures overhead > msize && overhead - msize > 0x1_0000_0000 - count ==>
      Capped(msize, overhead, count) == 0x1_0000_0000 - (overhead - msize)
  {
    if overhead > msize {
      assert (msize - overhead) % 0x1_0000_0000 == 0x1_0000_0000 - (overhead - msize);
    }
  }

  /** The cap keeps messages within the msize exactly when the msize covers the overhead:
      below it the subtraction wraps around. */
  lemma CapHolds(msize: u32, overhead: u32)
    ensures (forall count: u32 {:trigger Capped(msize, overhead, count)} ::
              overhead + Capped(msize, overhead, count) <= msize) <==> overhead <= msize
  {
    if msize < overhead {
      assert !(overhead + Capped(msize, overhead, 0) <= msize);
    }
  }

  /** The buffers hold every capped message exactly for an msize between the overhead and their
      own size: above it the cap lets longer messages through. */
  lemma BufferHolds(msize: u32, overhead: u32)
    requires overhead <= P9_MSIZE
    ensures (forall count: u32 {:trigger Capped(msize, overhead, count)} ::
              overhead + Capped(msize, overhead, count) <= P9_MSIZE) <==> overhead <= msize <= P9_MSIZE
  {
    if !(overhead <= msize <= P9_MSIZE) {
      assert !(overhead + Capped(msize, overhead, 0xFFFF_FFFF) <= P9_MSIZE);
    }
  }

  // ---- Replies ----

  datatype Result<T> = Ok(value: T) | Err(code: int)

  /** `-(int32)ecode`: zero for zero, and positive above 2^31. */
  function Errno(ecode: u32): (e: int) {
    if ecode <= 0x8000_0000 then 0 - ecode as int else 0x1_0000_0000 - ecode as int
  }

  /** p9_check_error. `rx` is the receive buffer and `len` the reply's length. */
  function CheckError(rx: Bytes, len: nat): (e: int)
    requires len <= |rx| || 11 <= |rx|
    ensures e == 0 <==> len >= 7 && (rx[4] != P9_RLERROR || (len >= 11 && U32At(rx, 7) == 0))
    ensures e > 0 <==> len >= 11 && rx[4] == P9_RLERROR && U32At(rx, 7) > 0x8000_0000
  {
    if len < 7 then -5
    else if rx[4] != P9_RLERROR then 0
    else if len < 11 then -5
    else Errno(U32At(rx, 7))
  }

  /** An Rlerror message as a server sends it, carrying the error number `n`. */
  function ErrorMessage(tag: u16, n: u32): (m: Bytes) {
    [11, 0, 0, 0, 7] + Le(tag, 2) + Le(n, 4)
  }

  /** An error number is returned negated: exactly `-n` up to 2^31, and a positive number above
      that, where the 32-bit negation wraps around. */
  lemma ErrorArrives(tag: u16, n: u32, rx: Bytes)
    requires ErrorMessage(tag, n) <= rx
    ensures 1 <= n <= 0x8000_0000 ==> CheckError(rx, 11) == -(n as int)
    ensures n > 0x8000_0000 ==> CheckError(rx, 11) == 0x1_0000_0000 - n
    ensures n == 0 ==> CheckError(rx, 11) == 0
  {
    hide Le, Value;
    var m := ErrorMessage(tag, n);
    assert rx[7..11] == m[7..11] == Le(n, 4) && rx[4] == m[4] == 7;
    Widths();
    ValueOfLe(n, 4);
  }

  /** The common shape of the decoders: reject errors, demand `need` bytes, then read. */
  function Decode(rx: Bytes, len: nat, need: nat, ks: seq<Kind>, max: nat): (r: Result<seq<Field>>)
    requires len <= |rx| && max >= 1
  {
    var e := CheckError(rx, len);
    if e != 0 then Err(e)
    else if len < need then Err(-5)
    else match GetFields(ks, rx, len, 7, max)
      case Got(fs, _) => Ok(fs)
      case Overrun => Err(-5)
  }

  const RVERSION: seq<Kind> := [K32, KStr]
  const RWALK: seq<Kind> := [K16]
  const RLOPEN: seq<Kind> := [K8, K32, K64, K32]
  const RREADLINK: seq<Kind> := [KStr]
  /** valid, qid, mode, uid, gid, then the fifteen doublewords from nlink to data_version */
  const RGETATTR: seq<Kind> := [K64, K8, K32, K64, K32, K32, K32] + Repeat(K64, 15)
  /** type, bsize, blocks, bfree, bavail, files, ffree, fsid, namelen */
  const RSTATFS: seq<Kind> := [K32, K32] + Repeat(K64, 6) + [K32]

  function Repeat(k: Kind, n: nat): (ks: seq<Kind>)
    ensures |ks| == n && forall i :: 0 <= i < n ==> ks[i] == k
  {
    if n == 0 then [] else [k] + Repeat(k, n - 1)
  }

  /** Bytes that the integer readers among `ks` take, and the strings' length fields. */
  function MinWidth(ks: seq<Kind>): (n: nat) {
    if ks == [] then 0 else (if ks[0].KStr? then 2 else Width(ks[0])) + MinWidth(ks[1..])
  }

  /** Two receive buffers that agree on the reply and may differ behind it. */
  ghost predicate SameReply(rx: Bytes, rx': Bytes, len: nat) {
    len <= |rx| == |rx'| && rx[..len] == rx'[..len]
  }

  /** No string before an integer, so every integer has a fixed place. */
  predicate StringsLast(ks: seq<Kind>) {
    ks == [] || (if ks[0].KStr? then ks == [KStr] else StringsLast(ks[1..]))
  }

  predicate AllFixed(ks: seq<Kind>) {
    forall i :: 0 <= i < |ks| ==> !ks[i].KStr?
  }

  lemma SliceBelow(rx: Bytes, rx': Bytes, len: nat, a: nat, b: nat)
    requires SameReply(rx, rx', len) && a <= b <= len
    ensures rx[a..b] == rx'[a..b]
  {
    assert rx[a..b] == rx[..len][a..b];
    assert rx'[a..b] == rx'[..len][a..b];
  }

  lemma FieldBelow(k: Kind, rx: Bytes, rx': Bytes, len: nat, off: nat, max: nat)
    requires SameReply(rx, rx', len) && max >= 1
    requires k.KStr? || off + Width(k) <= len
    ensures GetField(k, rx, len, off, max) == GetField(k, rx', len, off, max)
  {
    if !k.KStr? {
      SliceBelow(rx, rx', len, off, off + Width(k));
      assert rx[off] == rx[off..off + Width(k)][0] && rx'[off] == rx'[off..off + Width(k)][0];
    } else if off + 2 <= len {
      SliceBelow(rx, rx', len, off, off + 2);
      var n := U16At(rx, off);
      if off + 2 < len && n <= len - (off + 2) {
        SliceBelow(rx, rx', len, off + 2, off + 2 + if n < max - 1 then n else max - 1);
      }
    }
  }

  lemma {:induction false} FieldsBelow(ks: seq<Kind>, rx: Bytes, rx': Bytes, len: nat, off: nat, max: nat)
    requires SameReply(rx, rx', len) && max >= 1 && StringsLast(ks) && off + MinWidth(ks) <= len
    ensures GetFields(ks, rx, len, off, max) == GetFields(ks, rx', len, off, max)
  {
    hide GetField, SameReply;
    if ks == [] {
    } else {
      FieldBelow(ks[0], rx, rx', len, off, max);
      if !ks[0].KStr? {
        FieldsBelow(ks[1..], rx, rx', len, off + Width(ks[0]), max);
      }
    }
  }

  lemma CheckBelow(rx: Bytes, rx': Bytes, len: nat)
    requires SameReply(rx, rx', len)
    ensures CheckError(rx, len) == CheckError(rx', len)
  {
    if len >= 7 {
      SliceBelow(rx, rx', len, 4, 5);
      assert rx[4] == rx[4..5][0] && rx'[4] == rx'[4..5][0];
    }
    if len >= 11 {
      SliceBelow(rx, rx', len, 7, 11);
    }
  }

  /** What a decoder returns is determined by the reply alone, never by what the receive
      buffer holds behind it, when its size guard covers what it reads. */
  lemma DecodeReadsReply(rx: Bytes, rx': Bytes, len: nat, need: nat, ks: seq<Kind>, max: nat)
    requires SameReply(rx, rx', len) && max >= 1 && StringsLast(ks) && 7 + MinWidth(ks) <= need
    ensures Decode(rx, len, need, ks, max) == Decode(rx', len, need, ks, max)
  {
    CheckBelow(rx, rx', len);
    if len >= need {
      FieldsBelow(ks, rx, rx', len, 7, max);
    }
  }

  lemma {:induction false} MinWidthConcat(a: seq<Kind>, b: seq<Kind>)
    ensures MinWidth(a + b) == MinWidth(a) + MinWidth(b)
  {
    if a == [] {
      assert a + b == b;
    } else {
      MinWidthConcat(a[1..], b);
      assert (a + b)[1..] == a[1..] + b;
    }
  }

  lemma {:induction false} MinWidthRepeat(n: nat)
    ensures MinWidth(Repeat(K64, n)) == 8 * n
  {
    if n == 0 {
    } else {
      MinWidthRepeat(n - 1);
    }
  }

  lemma {:induction false} FixedIsPlaced(ks: seq<Kind>)
    requires AllFixed(ks)
    ensures StringsLast(ks)
  {
    if ks == [] {
    } else {
      FixedIsPlaced(ks[1..]);
    }
  }

  lemma GetattrWidth()
    ensures MinWidth(RGETATTR) == 153 && AllFixed(RGETATTR)
  {
    var a: seq<Kind>, b: seq<Kind> := [K64, K8, K32], [K64, K32, K32, K32];
    MinWidthConcat(a, b);
    assert a + b == [K64, K8, K32, K64, K32, K32, K32];
    assert MinWidth(a) == 13 && MinWidth(b) == 20;
    MinWidthConcat(a + b, Repeat(K64, 15));
    MinWidthRepeat(15);
  }

  lemma StatfsWidth()
    ensures MinWidth(RSTATFS) == 60 && AllFixed(RSTATFS)
  {
    MinWidthConcat([K32, K32], Repeat(K64, 6));
    MinWidthConcat([K32, K32] + Repeat(K64, 6), [K32]);
    MinWidthRepeat(6);
  }

  /** The guards of the Rversion, Rwalk, Rlopen, Rreadlink and Rgetattr decoders (13, 9, 24, 9
      and 160 bytes) cover what they read; the Rstatfs decoder reads 67 bytes but guards 59. */
  lemma Guards()
    ensures 7 + MinWidth(RVERSION) == 13 && 7 + MinWidth(RWALK) == 9 && 7 + MinWidth(RLOPEN) == 24
    ensures 7 + MinWidth(RREADLINK) == 9 && 7 + MinWidth(RGETATTR) == 160 && 7 + MinWidth(RSTATFS) == 67
    ensures StringsLast(RVERSION) && StringsLast(RREADLINK)
    ensures AllFixed(RWALK) && AllFixed(RLOPEN) && AllFixed(RGETATTR) && AllFixed(RSTATFS)
  {
    GetattrWidth();
    StatfsWidth();
  }

  lemma FieldGot(k: Kind, rx: Bytes, len: nat, off: nat)
    requires !k.KStr? && off + Width(k) <= |rx| && len <= |rx|
    ensures GetField(k, rx, len, off, 1).Got?
  {
  }

  /** Each integer is read behind the ones before it. */
  lemma {:induction false} FieldPlace(ks: seq<Kind>, rx: Bytes, len: nat, off: nat, i: nat)
    requires AllFixed(ks) && off + MinWidth(ks) <= |rx| && len <= |rx| && i < |ks|
    ensures GetFields(ks, rx, len, off, 1).Got? && off + MinWidth(ks[..i]) + Width(ks[i]) <= |rx|
    ensures [GetFields(ks, rx, len, off, 1).fs[i]] == GetField(ks[i], rx, len, off + MinWidth(ks[..i]), 1).fs
    decreases ks
  {
    hide Width, GetField;
    var rest := ks[1..];
    FieldGot(ks[0], rx, len, off);
    if i > 0 {
      FieldPlace(rest, rx, len, off + Width(ks[0]), i - 1);
      assert ks[..i][1..] == rest[..i - 1];
    } else if rest != [] {
      FieldPlace(rest, rx, len, off + Width(ks[0]), 0);
    }
  }

  lemma Placed(ks: seq<Kind>, rx: Bytes, len: nat, need: nat, i: nat, at: nat)
    requires AllFixed(ks) && 7 + MinWidth(ks) <= |rx| && need <= len <= |rx| && CheckError(rx, len) == 0
    requires i < |ks| && 7 + MinWidth(ks[..i]) == at
    ensures Decode(rx, len, need, ks, 1).Ok? && |Decode(rx, len, need, ks, 1).value| == |ks|
    ensures ks[i].K32? ==> at + 4 <= |rx| && Decode(rx, len, need, ks, 1).value[i] == F32(U32At(rx, at))
    ensures ks[i].K64? ==> at + 8 <= |rx| && Decode(rx, len, need, ks, 1).value[i] == F64(U64At(rx, at))
  {
    hide GetFields, U32At, U64At, CheckError, MinWidth, AllFixed;
    FieldPlace(ks, rx, len, 7, i);
  }

  lemma Before(head: seq<Kind>, tail: seq<Kind>, k: nat)
    requires k <= |tail| && forall i :: 0 <= i < k ==> tail[i] == K64
    ensures MinWidth((head + tail)[..|head| + k]) == MinWidth(head) + 8 * k
  {
    assert (head + tail)[..|head| + k] == head + Repeat(K64, k);
    MinWidthConcat(head, Repeat(K64, k));
    MinWidthRepeat(k);
  }

  lemma BeforeOwner()
    ensures MinWidth(RGETATTR[..4]) == 21 && MinWidth(RGETATTR[..5]) == 25 && MinWidth(RGETATTR[..6]) == 29
    ensures MinWidth([K64, K8, K32, K64, K32, K32, K32]) == 33
  {
    hide MinWidth, Width;
    var ks: seq<Kind> := [K64, K8, K32, K64];
    assert MinWidth(ks) == 21 by { FourWidths(); }
    Wider(ks);
    Wider(ks + [K32]);
    Wider(ks + [K32] + [K32]);
    assert RGETATTR[..4] == ks && RGETATTR[..5] == ks + [K32] && RGETATTR[..6] == ks + [K32] + [K32];
    assert [K64, K8, K32, K64, K32, K32, K32] == ks + [K32] + [K32] + [K32];
  }

  lemma FourWidths()
    ensures MinWidth([K64, K8, K32, K64]) == 21
  {
    MinWidthConcat([K64, K8], [K32, K64]);
  }

  lemma Wider(ks: seq<Kind>)
    ensures MinWidth(ks + [K32]) == MinWidth(ks) + 4
  {
    MinWidthConcat(ks, [K32]);
  }

  /** Where the fields of a decoded Rgetattr come from: the mode at byte 28, the owner and the
      group behind it, and the fifteen doublewords from 40 on, of which the size is the third. */
  lemma GetattrPlaces(rx: Bytes, len: nat, k: nat)
    requires 160 <= len <= |rx| && CheckError(rx, len) == 0 && k < 15
    ensures var r := Decode(rx, len, 160, RGETATTR, 1);
      && r.Ok? && |r.value| == 22 && r.value[0] == F64(U64At(rx, 7)) && r.value[4] == F32(U32At(rx, 28))
      && r.value[5] == F32(U32At(rx, 32)) && r.value[6] == F32(U32At(rx, 36))
      && r.value[7 + k] == F64(U64At(rx, 40 + 8 * k))
  {
    hide GetFields, U32At, U64At, CheckError, Decode, AllFixed;
    GetattrWidth();
    BeforeOwner();
    Before([K64, K8, K32, K64, K32, K32, K32], Repeat(K64, 15), k);
    assert MinWidth(RGETATTR[..0]) == 0;
    Placed(RGETATTR, rx, len, 160, 0, 7);
    Placed(RGETATTR, rx, len, 160, 4, 28);
    Placed(RGETATTR, rx, len, 160, 5, 32);
    Placed(RGETATTR, rx, len, 160, 6, 36);
    Placed(RGETATTR, rx, len, 160, 7 + k, 40 + 8 * k);
  }

  /** The same of Rstatfs: two words, six doublewords from 15 on, and the name length at 63. */
  lemma StatfsPlaces(rx: Bytes, len: nat, k: nat)
    requires 59 <= len <= |rx| && 67 <= |rx| && CheckError(rx, len) == 0 && k < 6
    ensures var r := Decode(rx, len, 59, RSTATFS, 1);
      && r.Ok? && |r.value| == 9 && r.value[0] == F32(U32At(rx, 7)) && r.value[1] == F32(U32At(rx, 11))
      && r.value[2 + k] == F64(U64At(rx, 15 + 8 * k)) && r.value[8] == F32(U32At(rx, 63))
  {
    hide GetFields, U32At, U64At, CheckError, Decode, AllFixed;
    StatfsWidth();
    var tail := Repeat(K64, 6) + [K32];
    assert RSTATFS == [K32, K32] + tail && RSTATFS[..1] == [K32] && RSTATFS[..0] == [];
    assert MinWidth([K32, K32]) == 8 && MinWidth([K32]) == 4;
    Before([K32, K32], tail, k);
    Before([K32, K32], tail, 6);
    Placed(RSTATFS, rx, len, 59, 0, 7);
    Placed(RSTATFS, rx, len, 59, 1, 11);
    Placed(RSTATFS, rx, len, 59, 2 + k, 15 + 8 * k);
    Placed(RSTATFS, rx, len, 59, 8, 63);
  }

  /** Reading integers and putting them again gives the bytes read. */
  lemma {:induction false} PutAfterGet(ks: seq<Kind>, rx: Bytes, len: nat, off: nat)
    requires AllFixed(ks) && off + MinWidth(ks) <= |rx| && len <= |rx|
    ensures GetFields(ks, rx, len, off, 1).Got?
    ensures Encode(GetFields(ks, rx, len, off, 1).fs) == rx[off..off + MinWidth(ks)]
  {
    hide FieldBytes, GetField, Width;
    if ks == [] {
    } else {
      var w := Width(ks[0]);
      var first := GetField(ks[0], rx, len, off, 1);
      OnePutAfterGet(ks[0], rx, len, off);
      PutAfterGet(ks[1..], rx, len, off + w);
      var rest := GetFields(ks[1..], rx, len, off + w, 1);
      assert (first.fs + rest.fs)[1..] == rest.fs;
      CutAt(rx, off, off + w, off + MinWidth(ks));
    }
  }

  lemma CutAt(b: Bytes, i: nat, j: nat, k: nat)
    requires i <= j <= k <= |b|
    ensures b[i..k] == b[i..j] + b[j..k]
  {
  }

  lemma OnePutAfterGet(k: Kind, rx: Bytes, len: nat, off: nat)
    requires !k.KStr? && off + Width(k) <= |rx| && len <= |rx|
    ensures GetField(k, rx, len, off, 1).Got? && GetField(k, rx, len, off, 1).end == off + Width(k)
    ensures FieldBytes(GetField(k, rx, len, off, 1).fs[0]) == rx[off..off + Width(k)]
  {
    LeOfValue(rx[off..off + Width(k)]);
    if k.K8? {
      assert Le(rx[off], 1) == [rx[off]] == rx[off..off + 1];
    }
  }

  /** For a decoder of integers only, exactly which successful replies are decoded from the
      reply alone: those as long as what it reads. */
  lemma DecodeDetermined(rx: Bytes, len: nat, need: nat, ks: seq<Kind>)
    requires len <= |rx| && AllFixed(ks) && 7 + MinWidth(ks) <= |rx|
    ensures (forall rx' :: SameReply(rx, rx', len) ==> Decode(rx', len, need, ks, 1) == Decode(rx, len, need, ks, 1))
            <==> Decode(rx, len, need, ks, 1).Err? || 7 + MinWidth(ks) <= len
  {
    PutAfterGet(ks, rx, len, 7);
    if Decode(rx, len, need, ks, 1).Err? || 7 + MinWidth(ks) <= len {
      forall rx' | SameReply(rx, rx', len)
        ensures Decode(rx', len, need, ks, 1) == Decode(rx, len, need, ks, 1)
      {
        CheckBelow(rx, rx', len);
        if 7 + MinWidth(ks) <= len {
          FixedIsPlaced(ks);
          FieldsBelow(ks, rx, rx', len, 7, 1);
        }
      }
    } else {
      DecodeLeaks(rx, len, need, ks);
    }
  }

  lemma DecodeLeaks(rx: Bytes, len: nat, need: nat, ks: seq<Kind>)
    requires AllFixed(ks) && len < 7 + MinWidth(ks) <= |rx| && Decode(rx, len, need, ks, 1).Ok?
    ensures exists rx' :: SameReply(rx, rx', len) && Decode(rx', len, need, ks, 1) != Decode(rx, len, need, ks, 1)
  {
    hide GetFields, Encode;
    var rx' := rx[len := (rx[len] as int + 1) % 0x100];
    assert SameReply(rx, rx', len);
    PutAfterGet(ks, rx, len, 7);
    PutAfterGet(ks, rx', len, 7);
    CheckBelow(rx, rx', len);
    var a, b := rx[7..7 + MinWidth(ks)], rx'[7..7 + MinWidth(ks)];
    assert a[len - 7] == rx[len] && b[len - 7] == rx'[len];
  }

  /** A reply of 59 to 66 bytes passes the Rstatfs guard, and its last fields then come from
      whatever the buffer held before: some other buffer with the same reply decodes
      differently. From 67 bytes on this cannot happen. */
  lemma StatfsExact(rx: Bytes, len: nat)
    requires len <= |rx| && 67 <= |rx|
    ensures (forall rx' :: SameReply(rx, rx', len) ==>
              Decode(rx', len, 59, RSTATFS, 1) == Decode(rx, len, 59, RSTATFS, 1))
            <==> CheckError(rx, len) != 0 || len < 59 || len >= 67
  {
    hide Decode, MinWidth, AllFixed;
    Guards();
    DecodeDetermined(rx, len, 59, RSTATFS);
    StatfsErr(rx, len);
  }

  lemma StatfsErr(rx: Bytes, len: nat)
    requires len <= |rx| && 67 <= |rx|
    ensures Decode(rx, len, 59, RSTATFS, 1).Err? <==> CheckError(rx, len) != 0 || len < 59
  {
    Guards();
    PutAfterGet(RSTATFS, rx, len, 7);
  }

  // ---- Rread and Rreaddir ----

  /** The data of an Rread or Rreaddir: no more than was asked for, no more than arrived. */
  function DataReply(rx: Bytes, len: nat, count: nat): (r: Result<Bytes>)
    requires len <= |rx|
    ensures r.Ok? ==> |r.value| <= count && 11 + |r.value| <= len
    ensures r.Err? ==> r.code != 0
  {
    var e := CheckError(rx, len);
    if e != 0 then Err(e)
    else if len < 11 then Err(-5)
    else
      var n := U32At(rx, 7);
      var n1 := if n > count then count else n;
      var n2 := if n1 > len - 11 then len - 11 else n1;
      Ok(rx[11..11 + n2])
  }

  lemma DataReadsReply(rx: Bytes, rx': Bytes, len: nat, count: nat)
    requires SameReply(rx, rx', len)
    ensures DataReply(rx, len, count) == DataReply(rx', len, count)
  {
    CheckBelow(rx, rx', len);
    if len >= 11 {
      SliceBelow(rx, rx', len, 7, 11);
      var r := DataReply(rx, len, count);
      if r.Ok? {
        SliceBelow(rx, rx', len, 11, 11 + |r.value|);
      }
    }
  }

  /** Where the message lies at the front of a buffer, its data is decoded from it alone. */
  lemma DataOfMessage(msg: Bytes, rx: Bytes, count: nat)
    requires msg <= rx
    ensures DataReply(rx, |msg|, count) == DataReply(msg, |msg|, count)
  {
    var padded := msg + rx[|msg|..];
    assert padded == rx;
    if |msg| >= 11 {
      assert rx[7..11] == msg[7..11];
      var r := DataReply(msg, |msg|, count);
      assert r.Ok? ==> rx[11..11 + |r.value|] == msg[11..11 + |r.value|];
    }
  }

  /** The reply a server sends for `data`. */
  function DataMessage(kind: u8, tag: u16, data: Bytes): (m: Bytes)
    ensures |m| == 11 + |data|
  {
    Le(11 + |data|, 4) + Le(kind, 1) + Le(tag, 2) + Le(|data|, 4) + data
  }

  /** The client gets back exactly the data sent, whatever follows it in the buffer. */
  lemma DataArrives(kind: u8, tag: u16, data: Bytes, rx: Bytes, count: nat)
    requires kind != P9_RLERROR && |data| <= count && |data| < 0x1_0000_0000
    requires DataMessage(kind, tag, data) <= rx
    ensures DataReply(rx, 11 + |data|, count) == Ok(data)
  {
    var m := DataMessage(kind, tag, data);
    assert rx[4] == m[4] == kind;
    assert rx[7..11] == m[7..11] == Le(|data|, 4);
    Widths();
    ValueOfLe(|data|, 4);
    assert rx[11..11 + |data|] == m[11..] == data;
  }

  /** The count of an Rwrite, as the server states it. */
  function CountReply(rx: Bytes, len: nat): (r: Result<u32>)
    requires len <= |rx|
    ensures r.Err? ==> r.code != 0
  {
    var e := CheckError(rx, len);
    if e != 0 then Err(e)
    else if len < 11 then Err(-5)
    else Ok(U32At(rx, 7))
  }

  lemma CountOfMessage(msg: Bytes, rx: Bytes)
    requires msg <= rx
    ensures CountReply(rx, |msg|) == CountReply(msg, |msg|)
  {
    var padded := msg + rx[|msg|..];
    assert padded == rx;
    if |msg| >= 11 {
      assert rx[7..11] == msg[7..11];
    }
  }

  /** Unlike the data of an Rread, an Rwrite's count is not bounded by the request: for every
      number there is a reply that makes P9_Write report it. */
  lemma CountIsNotClamped(tag: u16, n: u32)
    ensures exists rx :: |rx| == 11 && CountReply(rx, 11) == Ok(n)
  {
    var rx := Le(11, 4) + Le(119, 1) + Le(tag, 2) + Le(n, 4);
    CountOf(rx, tag, n);
  }

  lemma CountOf(rx: Bytes, tag: u16, n: u32)
    requires rx == Le(11, 4) + Le(119, 1) + Le(tag, 2) + Le(n, 4)
    ensures |rx| == 11 && CountReply(rx, 11) == Ok(n)
  {
    hide Le, Value;
    LeByte(119);
    assert rx[4] == Le(119, 1)[0];
    assert rx[7..11] == Le(n, 4);
    Widths();
    ValueOfLe(n, 4);
  }

  lemma LeByte(v: u8)
    ensures Le(v, 1) == [v]
  {
  }
}
