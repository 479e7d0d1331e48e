/** The word-wise memory helpers of string_utils.h. Addresses are indices of the memory. */
module Memory {
  import opened Machine
  import opened Wire

  /** A 32-bit store; the byte order of loads and stores is the same and does not matter. */
  method StoreWord(mem: array<u8>, a: nat, w: u32)
    requires a + 4 <= mem.Length && a % 4 == 0
    modifies mem
    ensures mem[a..a + 4] == Le(w, 4)
    ensures forall i :: 0 <= i < mem.Length && !(a <= i < a + 4) ==> mem[i] == old(mem[i])
  {
    var _ := PutU32(mem, a, w);
    assert forall i :: 0 <= i < a ==> mem[i] == mem[..a + 4][i];
    assert forall i :: a + 4 <= i < mem.Length ==> mem[i] == mem[a + 4..][i - (a + 4)];
    assert mem[a..a + 4] == mem[..a + 4][a..];
  }

  method LoadWord(mem: array<u8>, a: nat) returns (w: u32)
    requires a + 4 <= mem.Length && a % 4 == 0
    ensures w == U32At(mem[..], a) && Le(w, 4) == mem[a..a + 4]
  {
    var end;
    w, end := ReadU32(mem, a);
    LeOfValue(mem[a..a + 4]);
    assert mem[..][a..a + 4] == mem[a..a + 4];
  }

  /** `n` bytes from `dst` are `val`; the rest is the same. */
  ghost predicate Filled(before: Bytes, after: Bytes, dst: nat, val: u8, n: nat) {
    dst + n <= |before| == |after|
    && (forall i :: dst <= i < dst + n ==> after[i] == val)
    && (forall i :: 0 <= i < |before| && !(dst <= i < dst + n) ==> after[i] == before[i])
  }

  lemma FillsJoin(m0: Bytes, m1: Bytes, m2: Bytes, dst: nat, val: u8, a: nat, b: nat)
    requires Filled(m0, m1, dst, val, a) && Filled(m1, m2, dst + a, val, b)
    ensures Filled(m0, m2, dst, val, a + b)
  {
  }

  method FillByte(mem: array<u8>, d: nat, val: u8)
    requires d < mem.Length
    modifies mem
    ensures Filled(old(mem[..]), mem[..], d, val, 1)
  {
    mem[d] := val;
  }

  method FillWord(mem: array<u8>, d: nat, val: u8, w: u32)
    requires d + 4 <= mem.Length && d % 4 == 0 && Le(w, 4) == [val, val, val, val]
    modifies mem
    ensures Filled(old(mem[..]), mem[..], d, val, 4)
  {
    StoreWord(mem, d, w);
    assert forall i :: d <= i < d + 4 ==> mem[i] == mem[d..d + 4][i - d];
  }

  /** v9p_memset: align, fill by words, finish by bytes; every alignment and length. */
  method Memset(mem: array<u8>, dst: nat, c: int, n: nat)
    requires dst + n <= mem.Length
    modifies mem
    ensures Filled(old(mem[..]), mem[..], dst, c % 0x100, n)
  {
    hide Filled;
    var val: u8 := c % 0x100;
    ghost var m := mem[..];
    var k := 0;
    FilledNone(m, dst, val);
    while k < n && (dst + k) % 4 != 0
      invariant 0 <= k <= n && Filled(m, mem[..], dst, val, k)
    {
      ghost var was := mem[..];
      FillByte(mem, dst + k, val);
      FillsJoin(m, was, mem[..], dst, val, k, 1);
      k := k + 1;
    }
    if n - k >= 4 {
      var w: u32 := val as int + val as int * 0x100 + val as int * 0x1_0000 + val as int * 0x100_0000;
      Repeated(val, w);
      while n - k >= 4
        invariant 0 <= k <= n && Filled(m, mem[..], dst, val, k) && (dst + k) % 4 == 0
      {
        ghost var was := mem[..];
        FillWord(mem, dst + k, val, w);
        FillsJoin(m, was, mem[..], dst, val, k, 4);
        k := k + 4;
      }
    }
    while k < n
      invariant 0 <= k <= n && Filled(m, mem[..], dst, val, k)
    {
      ghost var was := mem[..];
      FillByte(mem, dst + k, val);
      FillsJoin(m, was, mem[..], dst, val, k, 1);
      k := k + 1;
    }
  }

  lemma FilledNone(m: Bytes, dst: nat, val: u8)
    requires dst <= |m|
    ensures Filled(m, m, dst, val, 0)
  {
  }

  lemma Repeated(val: u8, w: u32)
    requires w == val as int + val as int * 0x100 + val as int * 0x1_0000 + val as int * 0x100_0000
    ensures Le(w, 4) == [val, val, val, val]
  {
    hide Le;
    LeBytes4(w);
    var v := val as int;
    Digit(w, v * 0x1_0101, v);
    Digit(v * 0x1_0101, v * 0x101, v);
    Digit(v * 0x101, v, v);
    assert w / 0x1_0000 == w / 0x100 / 0x100 && w / 0x100_0000 == w / 0x1_0000 / 0x100;
  }

  lemma Digit(x: int, q: int, r: int)
    requires x == 0x100 * q + r && 0 <= r < 0x100
    ensures x / 0x100 == q && x % 0x100 == r
  {
  }

  /** `n` bytes of `before` from `src` are at `dst` in `after`; the rest is the same. */
  ghost predicate Copied(before: Bytes, after: Bytes, dst: nat, src: nat, n: nat) {
    dst + n <= |before| == |after| && src + n <= |before|
    && (forall i :: dst <= i < dst + n ==> after[i] == before[src + (i - dst)])
    && (forall i :: 0 <= i < |before| && !(dst <= i < dst + n) ==> after[i] == before[i])
  }

  /** On disjoint regions, copying a first part and then the rest is copying all. */
  lemma CopiesJoin(m0: Bytes, m1: Bytes, m2: Bytes, dst: nat, src: nat, a: nat, b: nat)
    requires Copied(m0, m1, dst, src, a) && Copied(m1, m2, dst + a, src + a, b)
    requires dst + a + b <= src || src + a + b <= dst
    ensures Copied(m0, m2, dst, src, a + b)
  {
    forall i | dst <= i < dst + a + b
      ensures m2[i] == m0[src + (i - dst)]
    {
      if i >= dst + a {
        assert m2[i] == m1[(src + a) + (i - (dst + a))] && (src + a) + (i - (dst + a)) == src + (i - dst);
      }
    }
  }

  lemma SliceCopied(before: Bytes, after: Bytes, d: nat, s: nat, n: nat)
    requires d + n <= |before| == |after| && s + n <= |before| && after[d..d + n] == before[s..s + n]
    requires forall i :: 0 <= i < |before| && !(d <= i < d + n) ==> after[i] == before[i]
    ensures Copied(before, after, d, s, n)
  {
    forall i | d <= i < d + n
      ensures after[i] == before[s + (i - d)]
    {
      assert after[i] == after[d..d + n][i - d] && before[s + (i - d)] == before[s..s + n][i - d];
    }
  }

  method CopyByte(mem: array<u8>, d: nat, s: nat)
    requires d < mem.Length && s < mem.Length
    modifies mem
    ensures Copied(old(mem[..]), mem[..], d, s, 1)
  {
    mem[d] := mem[s];
  }

  method CopyWord(mem: array<u8>, d: nat, s: nat)
    requires d + 4 <= mem.Length && s + 4 <= mem.Length && d % 4 == 0 && s % 4 == 0
    modifies mem
    ensures Copied(old(mem[..]), mem[..], d, s, 4)
  {
    var w := LoadWord(mem, s);
    StoreWord(mem, d, w);
    assert mem[..][d..d + 4] == mem[d..d + 4] && old(mem[..])[s..s + 4] == old(mem[s..s + 4]);
    SliceCopied(old(mem[..]), mem[..], d, s, 4);
  }

  /** v9p_memcpy on regions that do not overlap: words if the alignments agree, else bytes. */
  method Memcpy(mem: array<u8>, dst: nat, src: nat, n: nat)
    requires dst + n <= mem.Length && src + n <= mem.Length && (dst + n <= src || src + n <= dst)
    modifies mem
    ensures Copied(old(mem[..]), mem[..], dst, src, n)
  {
    hide Copied;
    ghost var m := mem[..];
    var k := 0;
    CopiedNone(m, dst, src);
    if n >= 16 && dst % 4 == src % 4 {
      while k < n && (dst + k) % 4 != 0
        invariant 0 <= k <= n && Copied(m, mem[..], dst, src, k) && k <= Pad(dst)
      {
        ghost var was := mem[..];
        CopyByte(mem, dst + k, src + k);
        CopiesJoin(m, was, mem[..], dst, src, k, 1);
        k := k + 1;
      }
      k := CopyWords(mem, dst, src, n, k, m);
    }
    while k < n
      invariant 0 <= k <= n && Copied(m, mem[..], dst, src, k)
    {
      ghost var was := mem[..];
      CopyByte(mem, dst + k, src + k);
      CopiesJoin(m, was, mem[..], dst, src, k, 1);
      k := k + 1;
    }
  }

  /** Bytes up to the next word boundary. */
  function Pad(a: nat): (p: nat)
    ensures p < 4 && (a + p) % 4 == 0
  {
    (4 - a % 4) % 4
  }

  /** One more word after `k` copied bytes. */
  method CopyNextWord(mem: array<u8>, dst: nat, src: nat, k: nat, ghost m: Bytes)
    requires dst + k + 4 <= mem.Length && src + k + 4 <= mem.Length && (dst + k) % 4 == 0 && (src + k) % 4 == 0
    requires (dst + k + 4 <= src || src + k + 4 <= dst) && Copied(m, mem[..], dst, src, k)
    modifies mem
    ensures Copied(m, mem[..], dst, src, k + 4)
  {
    hide Copied;
    CopyWord(mem, dst + k, src + k);
    CopiesJoin(m, old(mem[..]), mem[..], dst, src, k, 4);
  }

  method CopyWords(mem: array<u8>, dst: nat, src: nat, n: nat, from: nat, ghost m: Bytes) returns (k: nat)
    requires dst + n <= mem.Length && src + n <= mem.Length && (dst + n <= src || src + n <= dst)
    requires from <= n && (dst + from) % 4 == 0 && dst % 4 == src % 4 && Copied(m, mem[..], dst, src, from)
    modifies mem
    ensures k <= n && Copied(m, mem[..], dst, src, k)
  {
    hide Copied;
    SameAlignment(dst, src, from);
    k := from;
    while n - k >= 4
      invariant k <= n && Copied(m, mem[..], dst, src, k) && (dst + k) % 4 == 0 && (src + k) % 4 == 0
    {
      CopyNextWord(mem, dst, src, k, m);
      NextWord(dst + k);
      NextWord(src + k);
      k := k + 4;
    }
  }

  lemma NextWord(a: nat)
    requires a % 4 == 0
    ensures (a + 4) % 4 == 0
  {
  }

  lemma SameAlignment(a: nat, b: nat, k: nat)
    requires a % 4 == b % 4 && (a + k) % 4 == 0
    ensures (b + k) % 4 == 0
  {
  }

  lemma CopiedNone(m: Bytes, dst: nat, src: nat)
    requires dst <= |m| && src <= |m|
    ensures Copied(m, m, dst, src, 0)
  {
  }

  /** v9p_memmove: the old source arrives, whatever the overlap. */
  method Memmove(mem: array<u8>, dst: nat, src: nat, n: nat)
    requires dst + n <= mem.Length && src + n <= mem.Length
    modifies mem
    ensures Copied(old(mem[..]), mem[..], dst, src, n)
  {
    if dst < src {
      var k := 0;
      while k < n
        invariant 0 <= k <= n
        invariant forall i :: 0 <= i < mem.Length ==>
                    mem[i] == if dst <= i < dst + k then old(mem[src + (i - dst)]) else old(mem[i])
      {
        mem[dst + k] := mem[src + k];
        k := k + 1;
      }
    } else if dst > src {
      var k := n;
      while k > 0
        invariant 0 <= k <= n
        invariant forall i :: 0 <= i < mem.Length ==>
                    mem[i] == if dst + k <= i < dst + n then old(mem[src + (i - dst)]) else old(mem[i])
      {
        k := k - 1;
        mem[dst + k] := mem[src + k];
      }
    }
  }
}
