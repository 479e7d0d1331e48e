/** The other end of the wire: what a server makes of the bytes it is sent. The parser goes by
    positions and type numbers alone. */
module Server {
  import opened Machine
  import opened Protocol
  import opened Wire

  datatype Parsed = Understood(req: Request, tag: u16) | Garbled

  /** The content of a message that has a header. */
  datatype Content = Known(req: Request) | Unknown

  // ---- The parser ----

  predicate HasText(m: Bytes, off: nat) {
    off + 2 <= |m| && off + 2 + U16At(m, off) <= |m|
  }

  function TextEnd(m: Bytes, off: nat): (end: nat)
    requires HasText(m, off)
    ensures off + 2 <= end <= |m|
  {
    off + 2 + U16At(m, off)
  }

  function TextAt(m: Bytes, off: nat): (s: Bytes)
    requires HasText(m, off)
  {
    m[off + 2..TextEnd(m, off)]
  }

  /** `n` strings from `off` to the end of the message. */
  function TextsAt(m: Bytes, off: nat, n: nat): (r: Result<seq<Bytes>>)
    requires off <= |m|
    decreases n
  {
    if n == 0 then if off == |m| then Ok([]) else Err(0)
    else if !HasText(m, off) then Err(0)
    else
      match TextsAt(m, TextEnd(m, off), n - 1)
      case Ok(rest) => Ok([TextAt(m, off)] + rest)
      case Err(e) => Err(e)
  }

  /** Requests of fixed length. */
  function Fixed(m: Bytes): (c: Content)
    requires |m| >= 7
  {
    if m[4] == 8 && |m| == 11 then Known(Tstatfs(U32At(m, 7)))
    else if m[4] == 12 && |m| == 15 then Known(Tlopen(U32At(m, 7), U32At(m, 11)))
    else if m[4] == 22 && |m| == 11 then Known(Treadlink(U32At(m, 7)))
    else if m[4] == 24 && |m| == 19 then Known(Tgetattr(U32At(m, 7), U64At(m, 11)))
    else if m[4] == 26 && |m| == 67 then
      Known(Tsetattr(U32At(m, 7), [U32At(m, 11), U32At(m, 15), U32At(m, 19), U32At(m, 23)],
                     [U64At(m, 27), U64At(m, 35), U64At(m, 43), U64At(m, 51), U64At(m, 59)]))
    else if m[4] == 40 && |m| == 23 then Known(Treaddir(U32At(m, 7), U64At(m, 11), U32At(m, 19)))
    else if m[4] == 50 && |m| == 15 then Known(Tfsync(U32At(m, 7), U32At(m, 11)))
    else if m[4] == 108 && |m| == 9 then Known(Tflush(U16At(m, 7)))
    else if m[4] == 116 && |m| == 23 then Known(Tread(U32At(m, 7), U64At(m, 11), U32At(m, 19)))
    else if m[4] == 120 && |m| == 11 then Known(Tclunk(U32At(m, 7)))
    else Unknown
  }

  /** A write carries its data, a walk its names. */
  function Counted(m: Bytes): (c: Content)
    requires |m| >= 7
  {
    if m[4] == 118 && |m| >= 23 && U32At(m, 19) == |m| - 23 then Known(Twrite(U32At(m, 7), U64At(m, 11), m[23..]))
    else if m[4] == 110 && |m| >= 17 && TextsAt(m, 17, U16At(m, 15)).Ok? then
      Known(Twalk(U32At(m, 7), U32At(m, 11), TextsAt(m, 17, U16At(m, 15)).value))
    else Unknown
  }

  /** The first requests of a session: protocol "9P2000.L", no authentication, no user or tree
      name, user 0. */
  function Opening(m: Bytes): (c: Content)
    requires |m| >= 7
  {
    if m[4] == 100 && HasText(m, 11) && TextEnd(m, 11) == |m|
       && TextAt(m, 11) == [57, 80, 50, 48, 48, 48, 46, 76] then
      Known(Tversion(U32At(m, 7)))
    else if m[4] == 104 && |m| == 23 && U32At(m, 11) == 0xFFFF_FFFF && U16At(m, 15) == U16At(m, 17) == 0
            && U32At(m, 19) == 0 then
      Known(Tattach(U32At(m, 7)))
    else Unknown
  }

  /** Requests about a name in a directory; where a group is asked for it is 0. */
  function Named(m: Bytes): (c: Content)
    requires |m| >= 7
  {
    if |m| < 13 then Unknown
    else if m[4] == 70 then
      if HasText(m, 15) && TextEnd(m, 15) == |m|
      then Known(Tlink(U32At(m, 7), U32At(m, 11), TextAt(m, 15)))
      else Unknown
    else if !HasText(m, 11) then Unknown
    else
      var dir, name, at := U32At(m, 7), TextAt(m, 11), TextEnd(m, 11);
      if m[4] == 14 && |m| == at + 12 && U32At(m, at + 8) == 0 then
        Known(Tlcreate(dir, name, U32At(m, at), U32At(m, at + 4)))
      else if m[4] == 72 && |m| == at + 8 && U32At(m, at + 4) == 0 then Known(Tmkdir(dir, name, U32At(m, at)))
      else if m[4] == 76 && |m| == at + 4 then Known(Tunlinkat(dir, name, U32At(m, at)))
      else if m[4] == 74 && |m| >= at + 4 && HasText(m, at + 4) && TextEnd(m, at + 4) == |m| then
        Known(Trenameat(dir, name, U32At(m, at), TextAt(m, at + 4)))
      else if m[4] == 16 && HasText(m, at) && |m| == TextEnd(m, at) + 4 && U32At(m, TextEnd(m, at)) == 0 then
        Known(Tsymlink(dir, name, TextAt(m, at)))
      else Unknown
  }

  /** A message is as long as its size field says, and its type tells where its fields are. */
  function Parse(m: Bytes): (p: Parsed) {
    if |m| < 7 || U32At(m, 0) != |m| then Garbled
    else
      var c := if m[4] in {100, 104} then Opening(m)
               else if m[4] in {110, 118} then Counted(m)
               else if m[4] in {14, 16, 70, 72, 74, 76} then Named(m)
               else Fixed(m);
      if c.Known? then Understood(c.req, U16At(m, 5)) else Garbled
  }

  /** What a server reads off the front of a buffer: as much as the size field says. */
  function Received(buf: Bytes): (p: Parsed) {
    if |buf| < 4 || U32At(buf, 0) > |buf| then Garbled else Parse(buf[..U32At(buf, 0)])
  }

  // ---- What the client sends ----

  /** Strings travel modulo 2^16. */
  function Sent(s: Bytes): (t: Bytes) {
    s[..|s| % 0x1_0000]
  }

  function Trimmed(r: Request): (t: Request) {
    match r
    case Tlcreate(fid, name, flags, mode) => Tlcreate(fid, Sent(name), flags, mode)
    case Tmkdir(fid, name, mode) => Tmkdir(fid, Sent(name), mode)
    case Tunlinkat(fid, name, flags) => Tunlinkat(fid, Sent(name), flags)
    case Trenameat(fid, name, newdir, newname) => Trenameat(fid, Sent(name), newdir, Sent(newname))
    case Tsymlink(fid, name, target) => Tsymlink(fid, Sent(name), Sent(target))
    case Tlink(dfid, fid, name) => Tlink(dfid, fid, Sent(name))
    case _ => r
  }

  /** The fields `fs` and then `tail` fill the message from `off` on. */
  ghost predicate At(m: Bytes, off: nat, fs: seq<Field>, tail: Bytes) {
    off <= |m| && m[off..] == Encode(fs) + tail
  }

  lemma Number(m: Bytes, off: nat, v: nat, n: nat, rest: Bytes)
    requires off <= |m| && m[off..] == Le(v, n) + rest && v < Pow256(n)
    ensures off + n <= |m| && Value(m[off..off + n]) == v && m[off + n..] == rest
  {
    ValueOfLe(v, n);
    assert |m[off..]| == n + |rest|;
    assert m[off..off + n] == m[off..][..n] == Le(v, n);
    assert m[off + n..] == m[off..][n..];
  }

  lemma Text(m: Bytes, off: nat, s: Bytes, rest: Bytes)
    requires off <= |m| && m[off..] == StrBytes(s) + rest
    ensures HasText(m, off) && TextAt(m, off) == Sent(s) && m[TextEnd(m, off)..] == rest
  {
    hide Le, Value, Pow256;
    var n := |s| % 0x1_0000;
    Widths();
    assert StrBytes(s) + rest == Le(n, 2) + (s[..n] + rest);
    Number(m, off, n, 2, s[..n] + rest);
    assert |m[off + 2..]| == n + |rest|;
    assert m[off + 2..off + 2 + n] == m[off + 2..][..n] == s[..n];
    assert m[off + 2 + n..] == m[off + 2..][n..];
  }

  /** The first field is read where it lies, and the others follow it. */
  lemma Take(m: Bytes, off: nat, fs: seq<Field>, tail: Bytes) returns (end: nat, rest: seq<Field>)
    requires At(m, off, fs, tail) && fs != [] && !fs[0].F8?
    ensures rest == fs[1..] && At(m, end, rest, tail)
    ensures fs[0].F16? ==> end == off + 2 <= |m| && U16At(m, off) == fs[0].v16
    ensures fs[0].F32? ==> end == off + 4 <= |m| && U32At(m, off) == fs[0].v32
    ensures fs[0].F64? ==> end == off + 8 <= |m| && U64At(m, off) == fs[0].v64
    ensures fs[0].FStr? ==> HasText(m, off) && end == TextEnd(m, off) && TextAt(m, off) == Sent(fs[0].s)
  {
    hide Le, Value, Pow256, StrBytes, HasText, TextAt, Sent;
    rest := fs[1..];
    Widths();
    assert Encode(fs) + tail == FieldBytes(fs[0]) + (Encode(rest) + tail);
    match fs[0]
    case F16(v) => Number(m, off, v, 2, Encode(rest) + tail); end := off + 2;
    case F32(v) => Number(m, off, v, 4, Encode(rest) + tail); end := off + 4;
    case F64(v) => Number(m, off, v, 8, Encode(rest) + tail); end := off + 8;
    case FStr(s) => Text(m, off, s, Encode(rest) + tail); end := TextEnd(m, off);
  }

  lemma Opened(r: Request, tag: u16)
    requires Length(r) < 0x1_0000_0000
    ensures |OnWire(r, tag)| >= 7 && U32At(OnWire(r, tag), 0) == |OnWire(r, tag)|
    ensures OnWire(r, tag)[4] == TypeOf(r) && U16At(OnWire(r, tag), 5) == tag
    ensures At(OnWire(r, tag), 7, Body(r), Payload(r))
  {
    hide Value, Pow256, Body, Payload, TypeOf, Encode;
    var m := OnWire(r, tag);
    Widths();
    var body := Encode(Body(r)) + Payload(r);
    assert m == Le(Length(r), 4) + (Le(TypeOf(r), 1) + (Le(tag, 2) + body));
    assert m[0..] == m;
    Number(m, 0, Length(r), 4, Le(TypeOf(r), 1) + (Le(tag, 2) + body));
    assert m[4..][0] == TypeOf(r);
    assert m[5..] == m[4..][1..] == Le(tag, 2) + body;
    Number(m, 5, tag, 2, body);
  }

  lemma Ends(m: Bytes, off: nat, fs: seq<Field>, tail: Bytes)
    requires At(m, off, fs, tail) && fs == []
    ensures |m| == off + |tail| && m[off..] == tail
  {
    assert Encode(fs) + tail == tail;
  }

  lemma FixedHeard(r: Request, m: Bytes)
    requires |m| >= 7 && m[4] == TypeOf(r) && At(m, 7, Body(r), [])
    requires r.Tstatfs? || r.Tlopen? || r.Treadlink? || r.Tgetattr? || r.Treaddir? || r.Tfsync? || r.Tflush?
             || r.Tread? || r.Tclunk?
    ensures Fixed(m) == Known(r)
  {
    hide At, U16At, U32At, U64At, HasText, TextAt, Sent;
    var end, rest := Take(m, 7, Body(r), []);
    if r.Tread? || r.Treaddir? {
      end, rest := Take(m, end, rest, []);
      end, rest := Take(m, end, rest, []);
    } else if r.Tlopen? || r.Tgetattr? || r.Tfsync? {
      end, rest := Take(m, end, rest, []);
    }
    Ends(m, end, rest, []);
  }

  /** Four words in a row. */
  lemma Words(m: Bytes, off: nat, fs: seq<Field>) returns (rest: seq<Field>)
    requires At(m, off, fs, []) && |fs| >= 4 && fs[0].F32? && fs[1].F32? && fs[2].F32? && fs[3].F32?
    ensures rest == fs[4..] && At(m, off + 16, rest, []) && off + 16 <= |m|
    ensures U32At(m, off) == fs[0].v32 && U32At(m, off + 4) == fs[1].v32
    ensures U32At(m, off + 8) == fs[2].v32 && U32At(m, off + 12) == fs[3].v32
  {
    hide At, U16At, U32At, U64At, HasText, TextAt, Sent;
    var end;
    end, rest := Take(m, off, fs, []);
    end, rest := Take(m, end, rest, []);
    end, rest := Take(m, end, rest, []);
    end, rest := Take(m, end, rest, []);
    assert rest == fs[4..];
  }

  /** Five doublewords to the end. */
  lemma Doublewords(m: Bytes, off: nat, fs: seq<Field>)
    requires At(m, off, fs, []) && |fs| == 5
    requires fs[0].F64? && fs[1].F64? && fs[2].F64? && fs[3].F64? && fs[4].F64?
    ensures |m| == off + 40 && U64At(m, off) == fs[0].v64 && U64At(m, off + 8) == fs[1].v64
    ensures U64At(m, off + 16) == fs[2].v64 && U64At(m, off + 24) == fs[3].v64 && U64At(m, off + 32) == fs[4].v64
  {
    hide At, U16At, U32At, U64At, HasText, TextAt, Sent;
    var end, rest := Take(m, off, fs, []);
    end, rest := Take(m, end, rest, []);
    end, rest := Take(m, end, rest, []);
    end, rest := Take(m, end, rest, []);
    end, rest := Take(m, end, rest, []);
    Ends(m, end, rest, []);
  }

  lemma SetattrHeard(r: Request, m: Bytes)
    requires |m| >= 7 && m[4] == TypeOf(r) && At(m, 7, Body(r), [])
    requires r.Tsetattr? && |r.attr| == 4 && |r.times| == 5
    ensures Fixed(m) == Known(r)
  {
    hide At, U16At, U32At, U64At, HasText, TextAt, Sent;
    var fs, a, b := Body(r), r.attr, r.times;
    var end, rest := Take(m, 7, fs, []);
    rest := Words(m, end, rest);
    Doublewords(m, end + 16, rest);
    assert a == [a[0], a[1], a[2], a[3]] && b == [b[0], b[1], b[2], b[3], b[4]];
  }

  lemma WriteHeard(r: Request, m: Bytes)
    requires |m| >= 7 && m[4] == TypeOf(r) && At(m, 7, Body(r), Payload(r))
    requires r.Twrite? && |r.data| < 0x1_0000_0000
    ensures Counted(m) == Known(r)
  {
    hide At, U16At, U32At, U64At, HasText, TextAt, Sent;
    var end, rest := Take(m, 7, Body(r), r.data);
    end, rest := Take(m, end, rest, r.data);
    end, rest := Take(m, end, rest, r.data);
    Ends(m, end, rest, r.data);
  }

  lemma {:induction false} TextsHeard(m: Bytes, off: nat, names: seq<Bytes>, fs: seq<Field>)
    requires forall i :: 0 <= i < |names| ==> |names[i]| < 0x1_0000
    requires |fs| == |names| && (forall i :: 0 <= i < |fs| ==> fs[i] == FStr(names[i])) && At(m, off, fs, [])
    ensures TextsAt(m, off, |names|) == Ok(names)
    decreases names
  {
    hide At, HasText, TextAt, U16At;
    if names == [] {
      Ends(m, off, fs, []);
    } else {
      var end, rest := Take(m, off, fs, []);
      TextsHeard(m, end, names[1..], rest);
      assert Sent(names[0]) == names[0] && [names[0]] + names[1..] == names;
    }
  }

  lemma WalkHeard(r: Request, m: Bytes)
    requires |m| >= 7 && m[4] == TypeOf(r) && At(m, 7, Body(r), [])
    requires r.Twalk? && |r.names| < 0x1_0000 && forall i :: 0 <= i < |r.names| ==> |r.names[i]| < 0x1_0000
    ensures Counted(m) == Known(r)
  {
    hide At, U16At, U32At, U64At, HasText, TextAt, Sent, TextsAt;
    var fs := Body(r);
    var end, rest := Take(m, 7, fs, []);
    end, rest := Take(m, end, rest, []);
    end, rest := Take(m, end, rest, []);
    assert rest == Names(r.names);
    TextsHeard(m, end, r.names, rest);
  }

  lemma OpeningHeard(r: Request, m: Bytes)
    requires |m| >= 7 && m[4] == TypeOf(r) && At(m, 7, Body(r), []) && (r.Tversion? || r.Tattach?)
    ensures Opening(m) == Known(r)
  {
    hide At, U32At, U64At;
    var end, rest := Take(m, 7, Body(r), []);
    end, rest := Take(m, end, rest, []);
    if r.Tattach? {
      end, rest := Take(m, end, rest, []);
      end, rest := Take(m, end, rest, []);
      end, rest := Take(m, end, rest, []);
    } else {
      assert Sent(VERSION) == VERSION;
    }
    Ends(m, end, rest, []);
  }

  /** After the directory and the name come one to three words, the last of them a group of 0
      where there is more than the request holds. */
  lemma NamedHeard(r: Request, m: Bytes)
    requires |m| >= 7 && m[4] == TypeOf(r) && At(m, 7, Body(r), [])
    requires r.Tlcreate? || r.Tmkdir? || r.Tunlinkat?
    ensures Named(m) == Known(Trimmed(r))
  {
    hide At, U16At, U32At, U64At, HasText, TextAt, Sent;
    var end, rest := Take(m, 7, Body(r), []);
    end, rest := Take(m, end, rest, []);
    end, rest := Take(m, end, rest, []);
    if !r.Tunlinkat? {
      end, rest := Take(m, end, rest, []);
    }
    if r.Tlcreate? {
      end, rest := Take(m, end, rest, []);
    }
    Ends(m, end, rest, []);
  }

  lemma LinkHeard(r: Request, m: Bytes)
    requires |m| >= 7 && m[4] == TypeOf(r) && At(m, 7, Body(r), [])
    requires r.Trenameat? || r.Tsymlink? || r.Tlink?
    ensures Named(m) == Known(Trimmed(r))
  {
    hide At, U16At, U32At, U64At, HasText, TextAt, Sent;
    var end, rest := Take(m, 7, Body(r), []);
    end, rest := Take(m, end, rest, []);
    end, rest := Take(m, end, rest, []);
    if !r.Tlink? {
      end, rest := Take(m, end, rest, []);
    }
    Ends(m, end, rest, []);
  }

  /** Every request the client issues is understood, with its tag and each of its fields, except
      that strings of 2^16 bytes and more arrive trimmed. */
  lemma RequestUnderstood(r: Request, tag: u16, msize: u32)
    requires Issued(r, msize) && msize <= P9_MSIZE
    ensures Parse(OnWire(r, tag)) == Understood(Trimmed(r), tag)
  {
    hide At, U16At, U32At, Body, Payload, Length, OnWire, Fixed, Counted, Opening, Named;
    RequestFits(r, msize);
    Opened(r, tag);
    var m := OnWire(r, tag);
    NoPayload(r);
    match r
    case Tversion(_) => OpeningHeard(r, m);
    case Tattach(_) => OpeningHeard(r, m);
    case Twalk(_, _, _) => WalkHeard(r, m);
    case Twrite(_, _, _) => WriteHeard(r, m);
    case Tsetattr(_, _, _) => SetattrHeard(r, m);
    case Tlcreate(_, _, _, _) => NamedHeard(r, m);
    case Tmkdir(_, _, _) => NamedHeard(r, m);
    case Tunlinkat(_, _, _) => NamedHeard(r, m);
    case Trenameat(_, _, _, _) => LinkHeard(r, m);
    case Tsymlink(_, _, _) => LinkHeard(r, m);
    case Tlink(_, _, _) => LinkHeard(r, m);
    case _ => FixedHeard(r, m);
  }

  lemma NoPayload(r: Request)
    ensures !r.Twrite? ==> Payload(r) == []
  {
  }

  /** The names of the request that are not bounded by the client. */
  function Strings(r: Request): (ss: seq<Bytes>) {
    match r
    case Tlcreate(_, name, _, _) => [name]
    case Tmkdir(_, name, _) => [name]
    case Tunlinkat(_, name, _) => [name]
    case Trenameat(_, name, _, newname) => [name, newname]
    case Tsymlink(_, name, target) => [name, target]
    case Tlink(_, _, name) => [name]
    case _ => []
  }

  /** A request is understood as it was meant exactly if its strings are under 2^16 bytes. */
  lemma UnderstoodExactly(r: Request, tag: u16, msize: u32)
    requires Issued(r, msize) && msize <= P9_MSIZE
    ensures Parse(OnWire(r, tag)) == Understood(r, tag)
      <==> forall i :: 0 <= i < |Strings(r)| ==> |Strings(r)[i]| < 0x1_0000
  {
    hide Parse, OnWire, Sent, Issued;
    RequestUnderstood(r, tag, msize);
    var ss := Strings(r);
    if |ss| >= 1 { SentWhole(ss[0]); }
    if |ss| == 2 { SentWhole(ss[1]); }
  }

  lemma SentWhole(s: Bytes)
    ensures Sent(s) == s <==> |s| < 0x1_0000
  {
  }

  /** So is a request at the front of a buffer. */
  lemma FrontUnderstood(buf: Bytes, r: Request, tag: u16, msize: u32)
    requires Issued(r, msize) && msize <= P9_MSIZE && OnWire(r, tag) <= buf
    ensures Received(buf) == Understood(Trimmed(r), tag)
  {
    hide Parse, OnWire, Trimmed, Value, Length;
    var m := OnWire(r, tag);
    RequestFits(r, msize);
    RequestUnderstood(r, tag, msize);
    Opened(r, tag);
    assert buf[0..4] == m[0..4] && buf[..|m|] == m;
  }
}
