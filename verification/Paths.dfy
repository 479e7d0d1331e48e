/** Paths: the in-place tokeniser of P9_Walk and split_path. */
module Paths {
  import opened Machine
  import opened Wire
  import Protocol
  import Server

  const SLASH: u8 := 47
  const P9_MAXWELEM: nat := 16

  /** Length of the leading run of bytes that are not slashes. */
  function Word(p: Bytes): (n: nat)
    ensures n <= |p| && (n < |p| ==> p[n] == SLASH)
    ensures forall i :: 0 <= i < n ==> p[i] != SLASH
  {
    if p == [] || p[0] == SLASH then 0 else 1 + Word(p[1..])
  }

  function First(p: Bytes, n: nat): (names: seq<Bytes>)
    requires n <= |p|
  {
    if n == 0 then [] else [p[..n]]
  }

  /** The non-empty '/'-separated components of a path. */
  function Components(p: Bytes): (names: seq<Bytes>)
    decreases |p|
  {
    var n := Word(p);
    if n == |p| then First(p, n) else First(p, n) + Components(p[n + 1..])
  }

  lemma WordUnique(p: Bytes, n: nat)
    requires n <= |p| && (n < |p| ==> p[n] == SLASH) && forall i :: 0 <= i < n ==> p[i] != SLASH
    ensures Word(p) == n
  {
  }

  /** The definition of Components at a word of length `n`. */
  lemma Unroll(p: Bytes, n: nat)
    requires n <= |p| && (n < |p| ==> p[n] == SLASH) && forall i :: 0 <= i < n ==> p[i] != SLASH
    ensures Components(p) == First(p, n) + if n < |p| then Components(p[n + 1..]) else []
  {
    hide Word, Components, First;
    WordUnique(p, n);
    Unfold(p, n);
    assert First(p, n) + [] == First(p, n);
  }

  lemma Unfold(p: Bytes, n: nat)
    requires n == Word(p)
    ensures Components(p) == if n == |p| then First(p, n) else First(p, n) + Components(p[n + 1..])
  {
    hide Word, First;
  }

  /** A slash separates: the components of both sides are the components of the whole. */
  lemma {:induction false} SlashSplits(a: Bytes, b: Bytes)
    ensures Components(a + [SLASH] + b) == Components(a) + Components(b)
    decreases |a|
  {
    hide Word, Components, First;
    var p, n := a + [SLASH] + b, Word(a);
    Unroll(a, n);
    Unroll(p, n);
    FirstOfPrefix(a, [SLASH] + b, n);
    assert a + ([SLASH] + b) == p;
    if n < |a| {
      SlashSplits(a[n + 1..], b);
      assert p[n + 1..] == a[n + 1..] + [SLASH] + b;
      assert First(a, n) + (Components(a[n + 1..]) + Components(b))
          == First(a, n) + Components(a[n + 1..]) + Components(b);
    } else {
      assert p[n + 1..] == b;
    }
  }

  lemma FirstOfPrefix(a: Bytes, b: Bytes, n: nat)
    requires n <= |a|
    ensures First(a + b, n) == First(a, n)
  {
    assert (a + b)[..n] == a[..n];
  }

  /** One word without a slash is its own component. */
  lemma OneWord(w: Bytes)
    requires SLASH !in w
    ensures Components(w) == if w == [] then [] else [w]
  {
    WordUnique(w, |w|);
    assert w[..|w|] == w;
  }

  lemma {:induction false} ComponentsProper(p: Bytes, i: nat)
    requires i < |Components(p)|
    ensures 0 < |Components(p)[i]| <= |p|
    decreases |p|
  {
    hide Word, Components;
    var n := Word(p);
    Unroll(p, n);
    var k := |First(p, n)|;
    if i >= k {
      ComponentsProper(p[n + 1..], i - k);
    }
  }

  // ---- split_path ----

  function Letters(p: Bytes): (n: nat) {
    if p == [] then 0 else (if p[0] == SLASH then 0 else 1) + Letters(p[1..])
  }

  function Total(names: seq<Bytes>): (n: nat) {
    if names == [] then 0 else |names[0]| + Total(names[1..])
  }

  lemma {:induction false} LettersConcat(a: Bytes, b: Bytes)
    ensures Letters(a + b) == Letters(a) + Letters(b)
  {
    if a == [] {
      assert a + b == b;
    } else {
      LettersConcat(a[1..], b);
      assert (a + b)[1..] == a[1..] + b;
    }
  }

  lemma {:induction false} LettersOfWord(w: Bytes)
    requires SLASH !in w
    ensures Letters(w) == |w|
  {
    if w == [] {
    } else {
      LettersOfWord(w[1..]);
    }
  }

  lemma {:induction false} NoLetters(s: Bytes)
    ensures Letters(s) == 0 <==> forall i :: 0 <= i < |s| ==> s[i] == SLASH
  {
    if s == [] {
    } else {
      NoLetters(s[1..]);
      assert forall i :: 0 <= i < |s[1..]| ==> s[1..][i] == s[i + 1];
    }
  }

  lemma TotalOfFirst(p: Bytes, n: nat, rest: seq<Bytes>)
    requires n <= |p|
    ensures Total(First(p, n) + rest) == n + Total(rest)
  {
    if n == 0 {
      assert First(p, n) + rest == rest;
    } else {
      assert (First(p, n) + rest)[1..] == rest;
    }
  }

  /** Components hold every byte of the path but the slashes. */
  lemma {:induction false} ComponentsTotal(p: Bytes)
    ensures Total(Components(p)) == Letters(p)
    decreases |p|
  {
    hide Word, Components, First;
    var n := Word(p);
    Unroll(p, n);
    assert p == p[..n] + p[n..];
    LettersConcat(p[..n], p[n..]);
    LettersOfWord(p[..n]);
    if n < |p| {
      ComponentsTotal(p[n + 1..]);
      assert p[n..][1..] == p[n + 1..];
      TotalOfFirst(p, n, Components(p[n + 1..]));
    } else {
      TotalOfFirst(p, n, []);
    }
  }

  lemma {:induction false} TrailingSlashes(a: Bytes, s: Bytes)
    requires forall i :: 0 <= i < |s| ==> s[i] == SLASH
    ensures Components(a + s) == Components(a)
    decreases |s|
  {
    if s == [] {
      assert a + s == a;
    } else {
      TrailingSlashes(a, s[..|s| - 1]);
      SlashSplits(a + s[..|s| - 1], []);
      assert a + s == a + s[..|s| - 1] + [SLASH] + [];
    }
  }

  /** A prefix has the same components exactly when only slashes follow it. */
  lemma PrefixComponents(a: Bytes, s: Bytes)
    ensures Components(a) == Components(a + s) <==> forall i :: 0 <= i < |s| ==> s[i] == SLASH
  {
    ComponentsTotal(a);
    ComponentsTotal(a + s);
    LettersConcat(a, s);
    NoLetters(s);
    if forall i :: 0 <= i < |s| ==> s[i] == SLASH {
      TrailingSlashes(a, s);
    }
  }

  /** Index of the last slash, or -1. */
  function LastSlash(p: Bytes): (k: int)
    ensures -1 <= k < |p| && (k >= 0 ==> p[k] == SLASH)
    ensures forall i :: k < i < |p| ==> p[i] != SLASH
  {
    if p == [] then -1
    else if p[|p| - 1] == SLASH then |p| - 1
    else LastSlash(p[..|p| - 1])
  }

  lemma NoSlash()
    ensures LastSlash([]) == -1
  {
  }

  lemma LastSlashNext(path: Bytes, i: nat)
    requires i < |path|
    ensures LastSlash(path[..i + 1]) == if path[i] == SLASH then i else LastSlash(path[..i])
  {
    var p := path[..i + 1];
    assert p[|p| - 1] == path[i] && p[..|p| - 1] == path[..i];
  }

  /** What split_path leaves in its buffers of 1024 and 256 bytes. */
  method SplitPath(path: Bytes) returns (parent: Bytes, name: Bytes)
    ensures var k := LastSlash(path);
      && parent == (if k <= 0 then [SLASH] else path[..if k < 1024 then k else 1023])
      && name == path[k + 1..if |path| - (k + 1) < 256 then |path| else k + 256]
    ensures Components(parent) + [name] == Components(path) <==> Splits(path)
  {
    hide Components, Splits, LastSlash;
    NoSlash();
    var last := -1;
    for i := 0 to |path|
      invariant last == LastSlash(path[..i]) < i
    {
      LastSlashNext(path, i);
      if path[i] == SLASH {
        last := i;
      }
    }
    assert path[..|path|] == path;
    if last <= 0 {
      parent := [SLASH];
    } else {
      parent := path[..if last < 1024 then last else 1023];
    }
    name := path[last + 1..if |path| - (last + 1) < 256 then |path| else last + 256];
    SplitExact(path, parent, name);
  }

  /** Paths that split_path splits without loss: the last name is there and under 256 bytes,
      and what the parent buffer cuts off is only slashes. */
  predicate Splits(path: Bytes) {
    var k := LastSlash(path);
    k + 1 < |path| < k + 1 + 256 && forall i :: 1023 <= i < k ==> path[i] == SLASH
  }

  /** Walking to the parent and then to the name is walking the path, exactly for those. */
  lemma SplitExact(path: Bytes, parent: Bytes, name: Bytes)
    requires var k := LastSlash(path);
      && parent == (if k <= 0 then [SLASH] else path[..if k < 1024 then k else 1023])
      && name == path[k + 1..if |path| - (k + 1) < 256 then |path| else k + 256]
    ensures Components(parent) + [name] == Components(path) <==> Splits(path)
  {
    hide LastSlash, Components;
    var k := LastSlash(path);
    PathOfParts(path);
    LastIsWord(path);
    ParentComponents(path, parent);
    LastsDiffer(Components(parent), name, Components(Leading(path)), LastName(path));
    if LastName(path) == [] && Components(parent) + [name] == Components(path) {
      ComponentsProper(path, |Components(path)| - 1);
      assert false;
    }
  }

  lemma LastsDiffer(a: seq<Bytes>, x: Bytes, b: seq<Bytes>, y: Bytes)
    ensures a + [x] == b + [y] <==> a == b && x == y
  {
    if a + [x] == b + [y] {
      assert (a + [x])[..|a|] == a && (b + [y])[..|b|] == b && (a + [x])[|a|] == x && (b + [y])[|b|] == y;
    }
  }

  /** Everything before the last slash, and everything after it. */
  function Leading(path: Bytes): (p: Bytes) {
    var k := LastSlash(path);
    if k < 0 then [] else path[..k]
  }

  function LastName(path: Bytes): (w: Bytes) {
    path[LastSlash(path) + 1..]
  }

  lemma SplitAt(path: Bytes, k: nat)
    requires k < |path| && path[k] == SLASH
    ensures Components(path) == Components(path[..k]) + Components(path[k + 1..])
  {
    hide Components;
    SlashSplits(path[..k], path[k + 1..]);
    assert path == path[..k] + [SLASH] + path[k + 1..];
  }

  lemma LastIsWord(path: Bytes)
    ensures Components(LastName(path)) == if LastName(path) == [] then [] else [LastName(path)]
  {
    OneWord(LastName(path));
  }

  lemma PathOfParts(path: Bytes)
    ensures Components(path) == Components(Leading(path)) + Components(LastName(path))
  {
    hide Components, LastSlash;
    if LastSlash(path) >= 0 {
      SplitAt(path, LastSlash(path));
    } else {
      OneWord([]);
      assert LastName(path) == path;
      assert [] + Components(path) == Components(path);
    }
  }

  lemma ParentComponents(path: Bytes, parent: Bytes)
    requires var k := LastSlash(path);
      parent == (if k <= 0 then [SLASH] else path[..if k < 1024 then k else 1023])
    ensures var k := LastSlash(path);
      Components(parent) == Components(Leading(path)) <==> forall i :: 1023 <= i < k ==> path[i] == SLASH
  {
    hide LastSlash;
    var k := LastSlash(path);
    if k <= 0 {
      SlashSplits([], []);
      assert [] + [SLASH] + [] == [SLASH] && Leading(path) == [];
    } else if k > 1023 {
      var rest := path[1023..k];
      assert path[..k] == parent + rest;
      PrefixComponents(parent, rest);
      assert forall i :: 0 <= i < |rest| ==> rest[i] == path[1023 + i];
      assert forall i :: 1023 <= i < k ==> path[i] == rest[i - 1023];
    }
  }

  // ---- The tokeniser of P9_Walk ----

  /** At `start` the buffer holds the NUL-terminated string `name`. */
  predicate Holds(buf: Bytes, start: nat, name: Bytes) {
    start + |name| < |buf| && buf[start..start + |name|] == name && buf[start + |name|] == 0 && 0 !in name
  }

  /** The buffer from `p` on is the path's rest, NUL-terminated. */
  predicate Rest(buf: Bytes, path: Bytes, p: nat) {
    p <= |path| < |buf| && buf[p..|path|] == path[p..] && buf[|path|] == 0 && 0 !in path
  }

  /** The strings at `starts` are `names`; all but the last end before `p`. */
  ghost predicate Tokens(buf: Bytes, starts: seq<nat>, names: seq<Bytes>, p: nat) {
    |starts| == |names|
    && forall i :: 0 <= i < |starts| ==> Holds(buf, starts[i], names[i]) && starts[i] + |names[i]| <= p
  }

  /** Ending a word at a slash leaves the earlier strings alone. */
  lemma TokensKept(buf: Bytes, starts: seq<nat>, names: seq<Bytes>, p: nat, q: nat)
    requires Tokens(buf, starts, names, p) && p <= q < |buf| && buf[q] != 0
    ensures Tokens(buf[q := 0], starts, names, q + 1)
  {
    forall i | 0 <= i < |starts|
      ensures Holds(buf[q := 0], starts[i], names[i])
    {
      var s, e := starts[i], starts[i] + |names[i]|;
      assert e < q;
      assert buf[q := 0][s..e] == buf[s..e];
    }
  }

  /** The components of what is left, after the slashes before the next word. */
  lemma {:induction false} SkipSlashes(path: Bytes, p: nat, q: nat)
    requires p <= q <= |path| && forall i :: p <= i < q ==> path[i] == SLASH
    ensures Components(path[p..]) == Components(path[q..])
    decreases q - p
  {
    if p == q {
    } else {
      Unroll(path[p..], 0);
      assert path[p..][1..] == path[p + 1..];
      SkipSlashes(path, p + 1, q);
    }
  }

  lemma TakeWord(path: Bytes, p: nat, q: nat)
    requires p < q <= |path| && (q < |path| ==> path[q] == SLASH) && forall i :: p <= i < q ==> path[i] != SLASH
    ensures Components(path[p..]) == [path[p..q]] + if q < |path| then Components(path[q + 1..]) else []
  {
    hide Components;
    Unroll(path[p..], q - p);
    assert path[p..][..q - p] == path[p..q];
    if q < |path| {
      assert path[p..][q - p + 1..] == path[q + 1..];
    }
  }

  method SkipWhile(buf: array<u8>, from: nat, ghost path: Bytes) returns (p: nat)
    requires Rest(buf[..], path, from)
    ensures from <= p <= |path| && Rest(buf[..], path, p)
    ensures forall i :: from <= i < p ==> path[i] == SLASH
    ensures p < |path| ==> path[p] != SLASH
  {
    p := from;
    while buf[p] == SLASH
      invariant from <= p <= |path| && forall i :: from <= i < p ==> path[i] == SLASH
      decreases |path| - p
    {
      assert p < |path| && buf[..][from..|path|][p - from] == path[from..][p - from];
      p := p + 1;
    }
    RestAfter(buf[..], path, from, p);
    assert p < |path| ==> buf[..][from..|path|][p - from] == path[from..][p - from];
  }

  lemma RestAfter(buf: Bytes, path: Bytes, p: nat, q: nat)
    requires Rest(buf, path, p) && p <= q <= |path|
    ensures Rest(buf, path, q)
  {
    assert buf[q..|path|] == buf[p..|path|][q - p..];
    assert path[q..] == path[p..][q - p..];
  }

  method SkipWord(buf: array<u8>, from: nat, ghost path: Bytes) returns (p: nat)
    requires Rest(buf[..], path, from)
    ensures from <= p <= |path| && Rest(buf[..], path, p)
    ensures forall i :: from <= i < p ==> path[i] != SLASH
    ensures p < |path| ==> path[p] == SLASH
    ensures buf[from..p] == path[from..p]
  {
    p := from;
    while buf[p] != 0 && buf[p] != SLASH
      invariant from <= p <= |path| && forall i :: from <= i < p ==> path[i] != SLASH
      decreases |path| - p
    {
      assert p < |path| && buf[..][from..|path|][p - from] == path[from..][p - from];
      p := p + 1;
    }
    RestAfter(buf[..], path, from, p);
    assert p < |path| ==> buf[..][from..|path|][p - from] == path[from..][p - from];
    assert buf[from..p] == buf[..][from..|path|][..p - from];
    assert path[from..p] == path[from..][..p - from];
  }

  lemma WordEndsAtSlash(buf: Bytes, path: Bytes, starts: seq<nat>, names: seq<Bytes>, p: nat, q: nat, e: nat)
    requires Tokens(buf, starts, names, p) && p <= q < e < |path| && Rest(buf, path, e)
    requires buf[q..e] == path[q..e] && buf[e] == SLASH
    ensures Tokens(buf[e := 0], starts + [q], names + [path[q..e]], e + 1) && Rest(buf[e := 0], path, e + 1)
  {
    hide Holds;
    TokensKept(buf, starts, names, p, e);
    StringEnds(buf, path, q, e);
    assert buf[e := 0][e + 1..|path|] == buf[e..|path|][1..];
    assert path[e + 1..] == path[e..][1..];
  }

  lemma StringEnds(buf: Bytes, path: Bytes, q: nat, e: nat)
    requires q < e <= |path| && e < |buf| && buf[q..e] == path[q..e] && 0 !in path
    ensures Holds(buf[e := 0], q, path[q..e])
  {
    assert buf[e := 0][q..e] == buf[q..e];
  }

  lemma WordEndsAtNul(buf: Bytes, path: Bytes, starts: seq<nat>, names: seq<Bytes>, p: nat, q: nat)
    requires Tokens(buf, starts, names, p) && p <= q < |path| && Rest(buf, path, |path|)
    requires buf[q..|path|] == path[q..|path|]
    ensures Tokens(buf, starts + [q], names + [path[q..|path|]], |path|)
  {
    hide Holds;
    StringEnds(buf, path, q, |path|);
    assert buf[|path| := 0] == buf;
  }

  /** One component: from `p` over slashes to the word at `q`, which ends at `e`. */
  lemma NextName(path: Bytes, names: seq<Bytes>, p: nat, q: nat, e: nat)
    requires p <= q < e <= |path| && names + Components(path[p..]) == Components(path)
    requires forall i :: p <= i < q ==> path[i] == SLASH
    requires (e < |path| ==> path[e] == SLASH) && forall i :: q <= i < e ==> path[i] != SLASH
    ensures (names + [path[q..e]]) + Components(path[if e < |path| then e + 1 else e..]) == Components(path)
    ensures |names| < |Components(path)|
  {
    hide Components;
    SkipSlashes(path, p, q);
    TakeWord(path, q, e);
    OneWord([]);
    if e == |path| {
      assert path[e..] == [];
    }
  }

  lemma NoMoreNames(path: Bytes, names: seq<Bytes>, p: nat)
    requires p <= |path| && names + Components(path[p..]) == Components(path)
    requires forall i :: p <= i < |path| ==> path[i] == SLASH
    ensures names == Components(path)
  {
    hide Components;
    SkipSlashes(path, p, |path|);
    OneWord([]);
    assert path[|path|..] == [];
  }

  /** strlen and copy, as p9_put_str reads a component. */
  method ReadString(buf: array<u8>, start: nat, ghost name: Bytes) returns (s: Bytes)
    requires Holds(buf[..], start, name)
    ensures s == name
  {
    var n := 0;
    assert forall k :: 0 <= k < |name| ==> name[k] == buf[start + k];
    while buf[start + n] != 0
      invariant n <= |name|
      decreases |name| - n
    {
      n := n + 1;
    }
    s := buf[start..start + n];
    assert buf[..][start..start + n] == s;
  }

  method ReadStrings(buf: array<u8>, starts: seq<nat>, ghost names: seq<Bytes>, ghost p: nat)
    returns (words: seq<Bytes>)
    requires Tokens(buf[..], starts, names, p)
    ensures words == names
  {
    hide Holds;
    words := [];
    for i := 0 to |starts|
      invariant words == names[..i]
    {
      var s := ReadString(buf, starts[i], names[i]);
      words := words + [s];
    }
  }

  /** The tokeniser: cuts the copy of the path in place at the slashes, then reads the words.
      ENAMETOOLONG exactly for 1024 bytes and more or more than 16 components; otherwise the
      strings put on the wire are the components, in order. */
  method Tokenise(path: Bytes) returns (r: Protocol.Result<seq<Bytes>>)
    requires 0 !in path
    ensures r == if |path| >= 1024 || |Components(path)| > P9_MAXWELEM then Protocol.Err(-36)
                 else Protocol.Ok(Components(path))
  {
    hide Components, Holds;
    if |path| >= 1024 {
      return Protocol.Err(-36);
    }
    var buf := new u8[1024](i => if 0 <= i < |path| then path[i] else 0);
    var starts: seq<nat>, p := [], 0;
    ghost var names: seq<Bytes> := [];
    assert buf[..|path|] == path;
    assert path[0..] == path;
    while buf[p] != 0
      invariant Rest(buf[..], path, p) && Tokens(buf[..], starts, names, p) && |starts| <= P9_MAXWELEM
      invariant names + Components(path[p..]) == Components(path)
      decreases |path| - p
    {
      var q := SkipWhile(buf, p, path);
      NulIsEnd(buf[..], path, q);
      if buf[q] == 0 {
        SkipSlashes(path, p, q);
        TokensGrow(buf[..], starts, names, p, q);
        p := q;
        break;
      }
      var e := SkipWord(buf, q, path);
      NulIsEnd(buf[..], path, e);
      NextName(path, names, p, q, e);
      if |starts| >= P9_MAXWELEM {
        return Protocol.Err(-36);
      }
      if buf[e] == SLASH {
        WordEndsAtSlash(buf[..], path, starts, names, p, q, e);
        ghost var was := buf[..];
        buf[e] := 0;
        assert buf[..] == was[e := 0];
        p := e + 1;
      } else {
        WordEndsAtNul(buf[..], path, starts, names, p, q);
        p := e;
      }
      starts := starts + [q];
      names := names + [path[q..e]];
    }
    NulIsEnd(buf[..], path, p);
    NoMoreNames(path, names, p);
    var words := ReadStrings(buf, starts, names, p);
    r := Protocol.Ok(words);
  }

  /** P9_Walk's request: the components of the path, in order, are on the wire. */
  method PutWalk(buf: array<u8>, tag: u16, fid: u32, newfid: u32, path: Bytes) returns (r: Protocol.Result<nat>)
    requires 0 !in path && buf.Length == Protocol.P9_MSIZE
    modifies buf
    ensures r.Err? <==> |path| >= 1024 || |Components(path)| > P9_MAXWELEM
    ensures r.Err? ==> r.code == -36 && buf[..] == old(buf[..])
    ensures r.Ok? ==> r.value <= buf.Length
    ensures r.Ok? ==>
      Server.Parse(buf[..r.value]) == Server.Understood(Protocol.Twalk(fid, newfid, Components(path)), tag)
  {
    hide Components, Protocol.OnWire, Protocol.Length, Server.Parse;
    var names := Tokenise(path);
    if names.Err? {
      return Protocol.Err(names.code);
    }
    forall i | 0 <= i < |names.value|
      ensures |names.value[i]| < 1024
    {
      ComponentsProper(path, i);
    }
    var walk := Protocol.Twalk(fid, newfid, names.value);
    Protocol.RequestFits(walk, Protocol.P9_MSIZE);
    Server.RequestUnderstood(walk, tag, Protocol.P9_MSIZE);
    var end := Protocol.PutRequest(buf, walk, tag);
    r := Protocol.Ok(end);
  }

  lemma NulIsEnd(buf: Bytes, path: Bytes, p: nat)
    requires Rest(buf, path, p)
    ensures buf[p] == if p < |path| then path[p] else 0
    ensures buf[p] == 0 <==> p == |path|
  {
    if p < |path| {
      assert buf[p..|path|][0] == path[p..][0];
    }
  }

  lemma TokensGrow(buf: Bytes, starts: seq<nat>, names: seq<Bytes>, p: nat, q: nat)
    requires Tokens(buf, starts, names, p) && p <= q
    ensures Tokens(buf, starts, names, q)
  {
  }
}
