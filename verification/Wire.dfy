/** The 9P wire format: little-endian integers and counted strings, written and read at a
    moving offset of a byte buffer. */
module Wire {
  import opened Machine

  type Bytes = seq<u8>

  // ---- Little-endian integers ----

  function Pow256(n: nat): (p: nat)
    ensures p >= 1
  {
    if n == 0 then 1 else 0x100 * Pow256(n - 1)
  }

  function Le(v: nat, n: nat): (s: Bytes)
    ensures |s| == n
  {
    if n == 0 then [] else [v % 0x100] + Le(v / 0x100, n - 1)
  }

  function Value(s: Bytes): (v: nat) {
    if s == [] then 0 else s[0] + 0x100 * Value(s[1..])
  }

  lemma {:induction false} ValueOfLe(v: nat, n: nat)
    requires v < Pow256(n)
    ensures Value(Le(v, n)) == v
  {
    if n == 0 {
    } else {
      ValueOfLe(v / 0x100, n - 1);
      assert Le(v, n)[1..] == Le(v / 0x100, n - 1);
    }
  }

  lemma {:induction false} LeOfValue(s: Bytes)
    ensures Value(s) < Pow256(|s|) && Le(Value(s), |s|) == s
  {
    if s == [] {
    } else {
      LeOfValue(s[1..]);
      assert Value(s) / 0x100 == Value(s[1..]) && Value(s) % 0x100 == s[0];
      assert s == [s[0]] + s[1..];
    }
  }

  lemma Widths()
    ensures Pow256(1) == 0x100 && Pow256(2) == 0x1_0000
    ensures Pow256(4) == 0x1_0000_0000 && Pow256(8) == 0x1_0000_0000_0000_0000
  {
    assert Pow256(3) == 0x100_0000 && Pow256(5) == 0x100_0000_0000;
    assert Pow256(6) == 0x1_0000_0000_0000 && Pow256(7) == 0x100_0000_0000_0000;
  }

  lemma LeBytes2(v: nat)
    ensures Le(v, 2) == [v % 0x100, v / 0x100 % 0x100]
  {
    assert Le(v / 0x100, 1) == [v / 0x100 % 0x100];
  }

  lemma LeBytes4(v: nat)
    ensures Le(v, 4) == [v % 0x100, v / 0x100 % 0x100, v / 0x1_0000 % 0x100, v / 0x100_0000 % 0x100]
  {
    LeBytes2(v / 0x1_0000);
    assert v / 0x100 / 0x100 == v / 0x1_0000 && v / 0x1_0000 / 0x100 == v / 0x100_0000;
    assert Le(v / 0x100, 3) == [v / 0x100 % 0x100] + Le(v / 0x1_0000, 2);
  }

  lemma LeBytes8(v: nat)
    ensures Le(v, 8) == [v % 0x100, v / 0x100 % 0x100, v / 0x1_0000 % 0x100, v / 0x100_0000 % 0x100,
                         v / 0x1_0000_0000 % 0x100, v / 0x100_0000_0000 % 0x100,
                         v / 0x1_0000_0000_0000 % 0x100, v / 0x100_0000_0000_0000 % 0x100]
  {
    var a, b, c, d := v / 0x100, v / 0x1_0000, v / 0x100_0000, v / 0x1_0000_0000;
    assert a / 0x100 == b && b / 0x100 == c && c / 0x100 == d;
    assert d / 0x100 == v / 0x100_0000_0000 && d / 0x1_0000 == v / 0x1_0000_0000_0000;
    assert d / 0x100_0000 == v / 0x100_0000_0000_0000;
    LeBytes4(d);
    assert Le(c, 5) == [c % 0x100] + Le(d, 4);
    assert Le(b, 6) == [b % 0x100] + Le(c, 5);
    assert Le(a, 7) == [a % 0x100] + Le(b, 6);
  }

  lemma ValueBytes2(s: Bytes)
    requires |s| == 2
    ensures Value(s) == s[0] as int + 0x100 * s[1] as int
  {
    assert Value(s[1..]) == s[1] + 0x100 * Value(s[1..][1..]);
  }

  lemma ValueBytes4(s: Bytes)
    requires |s| == 4
    ensures Value(s) == s[0] as int + 0x100 * s[1] as int + 0x1_0000 * s[2] as int + 0x100_0000 * s[3] as int
  {
    ValueBytes2(s[2..]);
    assert s[1..][1..] == s[2..] && s[1..][0] == s[1];
    assert Value(s[1..]) == s[1] + 0x100 * Value(s[2..]);
  }

  // ---- Memory of the big-endian CPU ----

  /** The bytes of `v` in the memory of a big-endian CPU. */
  function Be(v: nat, n: nat): (s: Bytes)
    ensures |s| == n
  {
    if n == 0 then [] else Be(v / 0x100, n - 1) + [v % 0x100]
  }

  lemma BeBytes2(v: nat)
    ensures Be(v, 2) == [v / 0x100 % 0x100, v % 0x100]
  {
    assert Be(v / 0x100, 1) == [v / 0x100 % 0x100];
  }

  lemma LowBytes(v: nat)
    ensures v % 0x100 == v % 0x1_0000 % 0x100 && v / 0x100 % 0x100 == v % 0x1_0000 / 0x100 % 0x100
    ensures v / 0x100 / 0x100 == v / 0x1_0000
  {
    var hi, lo := v / 0x1_0000, v % 0x1_0000;
    var high, low := lo / 0x100, lo % 0x100;
    assert v == (hi * 0x100 + high) * 0x100 + low;
    Halves(hi * 0x100 + high, low, 0x100);
    Halves(hi, high, 0x100);
  }

  lemma LastByte(v: nat, n: nat)
    ensures Be(v, n + 1) == Be(v / 0x100, n) + [v % 0x100]
    ensures Le(v, n + 1) == [v % 0x100] + Le(v / 0x100, n)
  {
  }

  /** The low two bytes come last, and little-endian they come first. */
  lemma LowTwo(v: nat, n: nat)
    ensures Be(v, n + 2) == Be(v / 0x1_0000, n) + Be(v % 0x1_0000, 2)
    ensures Le(v, n + 2) == Le(v % 0x1_0000, 2) + Le(v / 0x1_0000, n)
  {
    hide Be, Le;
    LowBytes(v);
    BeBytes2(v % 0x1_0000);
    LeBytes2(v % 0x1_0000);
    LastByte(v, n + 1);
    LastByte(v / 0x100, n);
  }

  lemma LowFour(v: nat)
    ensures Be(v, 8) == Be(v / 0x1_0000_0000, 4) + Be(v % 0x1_0000_0000, 4)
    ensures Le(v, 8) == Le(v % 0x1_0000_0000, 4) + Le(v / 0x1_0000_0000, 4)
  {
    hide Be, Le;
    var lo, up := v % 0x1_0000_0000, v / 0x1_0000;
    assert up / 0x1_0000 == v / 0x1_0000_0000;
    assert lo / 0x1_0000 == up % 0x1_0000 && lo % 0x1_0000 == v % 0x1_0000;
    LowTwo(v, 6);
    LowTwo(up, 4);
    LowTwo(lo, 2);
  }

  /** The swaps turn the bytes of a field around: a modern ring field, in the memory of the CPU,
      is the little-endian encoding of its value. */
  lemma SwapLayout16(v: u16)
    ensures Be(Swap16(v), 2) == Le(v, 2)
  {
    hide Be, Le;
    Halves(v % 0x100, v / 0x100, 0x100);
    BeBytes2(Swap16(v));
    LeBytes2(v);
  }

  lemma SwapLayout32(v: u32)
    ensures Be(Swap32(v), 4) == Le(v, 4)
  {
    hide Be, Le, Swap16;
    var lo, hi := v % 0x1_0000, v / 0x1_0000;
    LowTwo(v, 2);
    LowTwo(Swap32(v), 2);
    Halves(Swap16(lo), Swap16(hi), 0x1_0000);
    SwapLayout16(lo);
    SwapLayout16(hi);
  }

  lemma SwapLayout64(v: u64)
    ensures Be(Swap64(v), 8) == Le(v, 8)
  {
    hide Be, Le, Swap32;
    var lo, hi := v % 0x1_0000_0000, v / 0x1_0000_0000;
    LowFour(v);
    LowFour(Swap64(v));
    Halves(Swap32(lo), Swap32(hi), 0x1_0000_0000);
    SwapLayout32(lo);
    SwapLayout32(hi);
  }

  /** Ring fields in memory: little-endian on a modern queue, native on a legacy one. */
  lemma FieldLayout(modern: bool, a: u16, b: u32, c: u64)
    ensures Be(Vr16(modern, a), 2) == if modern then Le(a, 2) else Be(a, 2)
    ensures Be(Vr32(modern, b), 4) == if modern then Le(b, 4) else Be(b, 4)
    ensures Be(Vr64(modern, c), 8) == if modern then Le(c, 8) else Be(c, 8)
  {
    hide Be, Le, Swap16, Swap32, Swap64;
    SwapLayout16(a);
    SwapLayout32(b);
    SwapLayout64(c);
  }

  // ---- Writing at an offset ----

  /** Everything before `off` is kept, `bytes` follow, everything after them is kept. */
  twostate predicate Appended(buf: array<u8>, off: nat, bytes: Bytes, end: nat)
    reads buf
  {
    off + |bytes| == end <= buf.Length
    && buf[..end] == old(buf[..off]) + bytes
    && buf[end..] == old(buf[end..])
  }

  method PutU8(buf: array<u8>, off: nat, v: u8) returns (end: nat)
    requires off + 1 <= buf.Length
    modifies buf
    ensures Appended(buf, off, Le(v, 1), end)
  {
    assert Le(v, 1) == [v];
    buf[off] := v;
    end := off + 1;
  }

  method PutU16(buf: array<u8>, off: nat, v: u16) returns (end: nat)
    requires off + 2 <= buf.Length
    modifies buf
    ensures Appended(buf, off, Le(v, 2), end)
  {
    LeBytes2(v);
    buf[off] := v % 0x100;
    buf[off + 1] := v / 0x100 % 0x100;
    end := off + 2;
  }

  method PutU32(buf: array<u8>, off: nat, v: u32) returns (end: nat)
    requires off + 4 <= buf.Length
    modifies buf
    ensures Appended(buf, off, Le(v, 4), end)
  {
    LeBytes4(v);
    buf[off] := v % 0x100;
    buf[off + 1] := v / 0x100 % 0x100;
    buf[off + 2] := v / 0x1_0000 % 0x100;
    buf[off + 3] := v / 0x100_0000 % 0x100;
    end := off + 4;
  }

  method PutU64(buf: array<u8>, off: nat, v: u64) returns (end: nat)
    requires off + 8 <= buf.Length
    modifies buf
    ensures Appended(buf, off, Le(v, 8), end)
  {
    LeBytes8(v);
    buf[off] := v % 0x100;
    buf[off + 1] := v / 0x100 % 0x100;
    buf[off + 2] := v / 0x1_0000 % 0x100;
    buf[off + 3] := v / 0x100_0000 % 0x100;
    buf[off + 4] := v / 0x1_0000_0000 % 0x100;
    buf[off + 5] := v / 0x100_0000_0000 % 0x100;
    buf[off + 6] := v / 0x1_0000_0000_0000 % 0x100;
    buf[off + 7] := v / 0x100_0000_0000_0000 % 0x100;
    end := off + 8;
  }

  /** What p9_put_str sends: the length modulo 65536, then that many bytes. */
  function StrBytes(s: Bytes): (b: Bytes) {
    var len := |s| % 0x1_0000;
    Le(len, 2) + s[..len]
  }

  method PutStr(buf: array<u8>, off: nat, s: Bytes) returns (end: nat)
    requires off + |StrBytes(s)| <= buf.Length
    modifies buf
    ensures Appended(buf, off, StrBytes(s), end)
  {
    hide Le;
    var len: u16 := |s| % 0x1_0000;
    end := PutU16(buf, off, len);
    ghost var was := buf[..];
    assert was[end + len..] == buf[end..][len..] == old(buf[end..])[len..] == old(buf[end + len..]);
    for i := 0 to len
      invariant buf[..end + i] == was[..end] + s[..i]
      invariant buf[end + i..] == was[end + i..]
    {
      buf[end + i] := s[i];
    }
    end := end + len;
  }

  /** memcpy of `data` into a buffer. */
  method Store(buf: array<u8>, at: nat, data: Bytes)
    requires at + |data| <= buf.Length
    modifies buf
    ensures buf[..] == old(buf[..at]) + data + old(buf[at + |data|..])
  {
    for i := 0 to |data|
      invariant buf[..at] == old(buf[..at]) && buf[at..at + i] == data[..i]
      invariant buf[at + i..] == old(buf[at + i..])
    {
      buf[at + i] := data[i];
    }
    assert buf[..] == buf[..at] + buf[at..at + |data|] + buf[at + |data|..];
  }

  // ---- Messages ----

  datatype Field = F8(v8: u8) | F16(v16: u16) | F32(v32: u32) | F64(v64: u64) | FStr(s: Bytes)

  function FieldBytes(f: Field): (b: Bytes) {
    match f
    case F8(v) => Le(v, 1)
    case F16(v) => Le(v, 2)
    case F32(v) => Le(v, 4)
    case F64(v) => Le(v, 8)
    case FStr(s) => StrBytes(s)
  }

  function Encode(fs: seq<Field>): (b: Bytes) {
    if fs == [] then [] else FieldBytes(fs[0]) + Encode(fs[1..])
  }

  method PutField(buf: array<u8>, off: nat, f: Field) returns (end: nat)
    requires off + |FieldBytes(f)| <= buf.Length
    modifies buf
    ensures Appended(buf, off, FieldBytes(f), end)
  {
    match f
    case F8(v) => end := PutU8(buf, off, v);
    case F16(v) => end := PutU16(buf, off, v);
    case F32(v) => end := PutU32(buf, off, v);
    case F64(v) => end := PutU64(buf, off, v);
    case FStr(s) => end := PutStr(buf, off, s);
  }

  /** Any sequence of p9_put_ calls appends the fields' bytes in order. */
  method PutFields(buf: array<u8>, off: nat, fs: seq<Field>) returns (end: nat)
    requires off + |Encode(fs)| <= buf.Length
    modifies buf
    ensures Appended(buf, off, Encode(fs), end)
  {
    hide FieldBytes;
    end := off;
    for i := 0 to |fs|
      invariant off <= end && end + |Encode(fs[i..])| == off + |Encode(fs)|
      invariant buf[..end] + Encode(fs[i..]) == old(buf[..off]) + Encode(fs)
      invariant buf[off + |Encode(fs)|..] == old(buf[off + |Encode(fs)|..])
    {
      assert fs[i..][1..] == fs[i + 1..];
      end := PutField(buf, end, fs[i]);
    }
  }

  method PutHeader(buf: array<u8>, kind: u8, tag: u16) returns (end: nat)
    requires 7 <= buf.Length
    modifies buf
    ensures end == 7 && buf[4..7] == Le(kind, 1) + Le(tag, 2) && buf[7..] == old(buf[7..])
  {
    end := PutU8(buf, 4, kind);
    end := PutU16(buf, end, tag);
  }

  method Finalize(buf: array<u8>, total: u32)
    requires 4 <= buf.Length
    modifies buf
    ensures buf[..4] == Le(total, 4) && buf[4..] == old(buf[4..])
  {
    var _ := PutU32(buf, 0, total);
  }

  // ---- Reading back ----

  datatype Kind = K8 | K16 | K32 | K64 | KStr

  function KindOf(f: Field): (k: Kind) {
    match f
    case F8(_) => K8
    case F16(_) => K16
    case F32(_) => K32
    case F64(_) => K64
    case FStr(_) => KStr
  }

  function KindsOf(fs: seq<Field>): (ks: seq<Kind>)
    ensures |ks| == |fs|
  {
    if fs == [] then [] else [KindOf(fs[0])] + KindsOf(fs[1..])
  }

  function U16At(buf: Bytes, off: nat): (v: u16)
    requires off + 2 <= |buf|
  {
    LeOfValue(buf[off..off + 2]);
    Widths();
    Value(buf[off..off + 2])
  }

  function U32At(buf: Bytes, off: nat): (v: u32)
    requires off + 4 <= |buf|
  {
    LeOfValue(buf[off..off + 4]);
    Widths();
    Value(buf[off..off + 4])
  }

  function U64At(buf: Bytes, off: nat): (v: u64)
    requires off + 8 <= |buf|
  {
    LeOfValue(buf[off..off + 8]);
    Widths();
    Value(buf[off..off + 8])
  }

  /** p9_get_str: a string that does not fit below `len` reads as empty, one longer than
      `max - 1` is cut, and the offset moves past the whole string. */
  function GetStr(buf: Bytes, len: nat, off: nat, max: nat): (r: (Bytes, nat))
    requires len <= |buf| && max >= 1
    ensures |r.0| <= max - 1
    ensures r.1 <= len || r.1 == off
  {
    if off + 2 > len then ([], off)
    else
      var n := U16At(buf, off);
      if off + 2 >= len || n > len - (off + 2) then ([], off + 2)
      else (buf[off + 2..off + 2 + if n < max - 1 then n else max - 1], off + 2 + n)
  }

  // ---- The readers as the driver runs them, on the receive buffer ----

  method ReadU16(buf: array<u8>, off: nat) returns (v: u16, end: nat)
    requires off + 2 <= buf.Length
    ensures v == U16At(buf[..], off) && end == off + 2
  {
    ValueBytes2(buf[off..off + 2]);
    assert buf[..][off..off + 2] == buf[off..off + 2];
    v, end := buf[off] as int + 0x100 * buf[off + 1] as int, off + 2;
  }

  method ReadU32(buf: array<u8>, off: nat) returns (v: u32, end: nat)
    requires off + 4 <= buf.Length
    ensures v == U32At(buf[..], off) && end == off + 4
  {
    ValueBytes4(buf[off..off + 4]);
    assert buf[..][off..off + 4] == buf[off..off + 4];
    v := buf[off] as int + 0x100 * buf[off + 1] as int + 0x1_0000 * buf[off + 2] as int
         + 0x100_0000 * buf[off + 3] as int;
    end := off + 4;
  }

  /** p9_get_str into a caller's buffer: the string, cut to the buffer, and a final NUL. */
  method ReadStr(buf: array<u8>, len: nat, off: nat, out: array<u8>) returns (end: nat)
    requires len <= buf.Length && buf != out && out.Length >= 1
    modifies out
    ensures var (s, e) := GetStr(buf[..], len, off, out.Length);
      end == e && out[..|s|] == s && out[|s|] == 0
  {
    end := off;
    if off + 2 > len {
      out[0] := 0;
      return;
    }
    var n;
    n, end := ReadU16(buf, off);
    if end >= len || n > len - end {
      out[0] := 0;
      return;
    }
    var copy := if n < out.Length - 1 then n else out.Length - 1;
    for i := 0 to copy
      invariant out[..i] == buf[end..end + i]
    {
      out[i] := buf[end + i];
    }
    out[copy] := 0;
    assert buf[..][end..end + copy] == buf[end..end + copy];
    end := end + n;
  }

  datatype Got = Got(fs: seq<Field>, end: nat) | Overrun

  function Width(k: Kind): (n: nat)
    requires !k.KStr?
  {
    match k
    case K8 => 1
    case K16 => 2
    case K32 => 4
    case K64 => 8
  }

  /** One p9_get_ call. The integer readers do not look at the reply's length; reading past
      the buffer itself is an overrun. */
  function GetField(k: Kind, buf: Bytes, len: nat, off: nat, max: nat): (r: Got)
    requires len <= |buf| && max >= 1
    ensures r.Got? ==> |r.fs| == 1
    ensures r.Got? && !k.KStr? ==> r.end == off + Width(k)
  {
    if k.KStr? then
      var (s, end) := GetStr(buf, len, off, max);
      Got([FStr(s)], end)
    else if off + Width(k) > |buf| then Overrun
    else
      match k
      case K8 => Got([F8(buf[off])], off + 1)
      case K16 => Got([F16(U16At(buf, off))], off + 2)
      case K32 => Got([F32(U32At(buf, off))], off + 4)
      case K64 => Got([F64(U64At(buf, off))], off + 8)
  }

  function GetFields(ks: seq<Kind>, buf: Bytes, len: nat, off: nat, max: nat): (r: Got)
    requires len <= |buf| && max >= 1
    ensures r.Got? ==> |r.fs| == |ks|
  {
    if ks == [] then Got([], off)
    else
      var first := GetField(ks[0], buf, len, off, max);
      if first.Overrun? then Overrun
      else
        var rest := GetFields(ks[1..], buf, len, first.end, max);
        if rest.Overrun? then Overrun else Got(first.fs + rest.fs, rest.end)
  }

  /** A field the reader can give back: only strings of 65536 bytes or of the reader's
      buffer size and more cannot be. */
  predicate Fits(f: Field, max: nat) {
    f.FStr? ==> |f.s| < 0x1_0000 && |f.s| < max
  }

  /** The bytes of a string as they lie in the buffer. */
  lemma StrLies(s: Bytes, buf: Bytes, off: nat)
    requires off + |StrBytes(s)| <= |buf| && buf[off..off + |StrBytes(s)|] == StrBytes(s)
    ensures var n := |s| % 0x1_0000;
      |StrBytes(s)| == 2 + n && U16At(buf, off) == n && buf[off + 2..off + 2 + n] == s[..n]
  {
    hide Le, Value;
    var n := |s| % 0x1_0000;
    assert buf[off..off + 2] == StrBytes(s)[..2] == Le(n, 2);
    Widths();
    ValueOfLe(n, 2);
    assert buf[off + 2..off + 2 + n] == StrBytes(s)[2..] == s[..n];
  }

  lemma StrRoundTrip(s: Bytes, buf: Bytes, off: nat, len: nat, max: nat)
    requires off + |StrBytes(s)| <= len <= |buf| && max >= 1
    requires buf[off..off + |StrBytes(s)|] == StrBytes(s)
    ensures GetStr(buf, len, off, max).0 == s <==> |s| < 0x1_0000 && |s| < max
    ensures GetStr(buf, len, off, max).1 == off + |StrBytes(s)|
    ensures |s| < 0x1_0000 ==> GetStr(buf, len, off, max).0 == if |s| < max then s else s[..max - 1]
  {
    hide StrBytes, U16At;
    StrLies(s, buf, off);
    var n := |s| % 0x1_0000;
    var m := if n < max - 1 then n else max - 1;
    assert buf[off + 2..off + 2 + m] == buf[off + 2..off + 2 + n][..m] == s[..n][..m] == s[..m];
    assert m == |s| ==> s[..m] == s;
  }

  lemma FieldRoundTrip(f: Field, buf: Bytes, off: nat, len: nat, max: nat)
    requires off + |FieldBytes(f)| <= len <= |buf| && max >= 1 && Fits(f, max)
    requires buf[off..off + |FieldBytes(f)|] == FieldBytes(f)
    ensures GetField(KindOf(f), buf, len, off, max) == Got([f], off + |FieldBytes(f)|)
  {
    Widths();
    match f
    case F8(v) => assert buf[off] == buf[off..off + 1][0] == Le(v, 1)[0];
    case F16(v) => ValueOfLe(v, 2);
    case F32(v) => ValueOfLe(v, 4);
    case F64(v) => ValueOfLe(v, 8);
    case FStr(s) => StrRoundTrip(s, buf, off, len, max);
  }

  lemma SliceSplit(buf: Bytes, off: nat, a: Bytes, b: Bytes)
    requires off + |a + b| <= |buf| && buf[off..off + |a + b|] == a + b
    ensures buf[off..off + |a|] == a && buf[off + |a|..off + |a| + |b|] == b
  {
    assert buf[off..off + |a|] == buf[off..off + |a + b|][..|a|];
    assert buf[off + |a|..off + |a| + |b|] == buf[off..off + |a + b|][|a|..];
  }

  /** Reading any message body with the matching calls gives back its fields. */
  lemma {:induction false} RoundTrip(fs: seq<Field>, buf: Bytes, off: nat, len: nat, max: nat)
    requires off + |Encode(fs)| <= len <= |buf| && max >= 1
    requires buf[off..off + |Encode(fs)|] == Encode(fs)
    requires forall i :: 0 <= i < |fs| ==> Fits(fs[i], max)
    ensures GetFields(KindsOf(fs), buf, len, off, max) == Got(fs, off + |Encode(fs)|)
  {
    hide FieldBytes, GetField, Fits, KindOf;
    if fs == [] {
    } else {
      var first, rest := FieldBytes(fs[0]), Encode(fs[1..]);
      var mid := off + |first|;
      assert Encode(fs) == first + rest;
      SliceSplit(buf, off, first, rest);
      FieldRoundTrip(fs[0], buf, off, len, max);
      RoundTrip(fs[1..], buf, mid, len, max);
      assert KindsOf(fs)[1..] == KindsOf(fs[1..]);
      assert fs == [fs[0]] + fs[1..];
    }
  }
}
