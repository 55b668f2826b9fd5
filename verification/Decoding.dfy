/** The decoders as they run: a read cursor and heap allocations that may fail at any point. Pointers are positive
    numbers, 0 is NULL.
    `bridge/src/ipc_v1.c`, and the owners of decoded messages in `bridge/src/bridge.c`. */
module Decoding {
  import opened Bytes
  import opened Wire
  import opened Codec

  /** One block, or nothing for NULL. */
  function Block(p: int): multiset<int> {
    if p == 0 then multiset{} else multiset{p}
  }

  /** The heap: blocks are handed out and must be returned exactly once. */
  class Ledger {
    var live: multiset<int>
    var next: int
    ghost var refusals: nat  // requests that came back empty

    ghost predicate Valid()
      reads this
    {
      next > 0 && forall p | p in live :: live[p] == 1 && 0 < p < next
    }

    constructor ()
      ensures Valid() && live == multiset{}
    {
      live, next, refusals := multiset{}, 1, 0;
    }

    method Malloc() returns (p: int)
      requires Valid()
      modifies this
      ensures Valid() && live == old(live) + Block(p) && p !in old(live)
      ensures refusals == old(refusals) + (if p == 0 then 1 else 0)
    {
      var failed: bool := *;
      if failed {
        refusals := refusals + 1;
        return 0;
      }
      p := next;
      live, next := live + multiset{p}, next + 1;
    }

    /** Freeing NULL does nothing; anything else must be live, so nothing is freed twice. */
    method Free(p: int, ghost rest: multiset<int>)
      requires Valid() && live == rest + Block(p)
      modifies this
      ensures Valid() && live == rest && refusals == old(refusals)
    {
      assert p != 0 ==> p in live && live - multiset{p} == rest;
      if p != 0 { live := live - multiset{p}; }
    }
  }

  lemma Join(a: multiset<int>, b: multiset<int>, c: multiset<int>)
    ensures a + (b + c) == a + b + c == a + c + b
  {
  }

  // ---------------------------------------------------------------
  // Decoded messages in memory

  /** A heap string: its block, and the text up to the first NUL in it. */
  datatype Str = Str(ptr: int, text: Text)

  const NULL_STRING := Str(0, [])

  datatype Entry = Entry(key: Str, value: Str)

  /** One struct member after decoding. A zero pointer owns nothing. */
  datatype Slot =
    | SU32(word: u32)
    | SU64(long: u64)
    | SString(s: Str)
    | SWords(ptr: int, words: seq<u32>)
    | SLongs(ptr: int, longs: seq<u64>)
    | SPairs(ptr: int, entries: seq<Entry>)

  function EntriesOwn(es: seq<Entry>): multiset<int> {
    if es == [] then multiset{} else Block(es[0].key.ptr) + Block(es[0].value.ptr) + EntriesOwn(es[1..])
  }

  function Owns(s: Slot): multiset<int> {
    match s
    case SU32(_) => multiset{}
    case SU64(_) => multiset{}
    case SString(t) => Block(t.ptr)
    case SWords(p, _) => Block(p)
    case SLongs(p, _) => Block(p)
    case SPairs(p, es) => EntriesOwn(es) + Block(p)
  }

  function AllOwn(out: seq<Slot>): multiset<int> {
    if out == [] then multiset{} else Owns(out[0]) + AllOwn(out[1..])
  }

  function Pairs(es: seq<Entry>): (kvs: seq<Kv>)
    ensures |kvs| == |es|
  {
    if es == [] then []
    else Pairs(es[..|es| - 1]) + [Kv(es[|es| - 1].key.text, es[|es| - 1].value.text)]
  }

  function ValueOf(s: Slot): Value {
    match s
    case SU32(w) => VU32(w)
    case SU64(l) => VU64(l)
    case SString(t) => VString(t.text)
    case SWords(_, a) => VArrayU32(a)
    case SLongs(_, a) => VArrayU64(a)
    case SPairs(_, es) => VKvList(Pairs(es))
  }

  function Values(out: seq<Slot>): (vs: seq<Value>)
    ensures |vs| == |out|
  {
    if out == [] then [] else Values(out[..|out| - 1]) + [ValueOf(out[|out| - 1])]
  }

  /** A struct member filled with zero bytes. */
  function Zero(k: Kind): Slot {
    match k
    case KU32 => SU32(0)
    case KU64 => SU64(0)
    case KString => SString(NULL_STRING)
    case KArrayU32 => SWords(0, [])
    case KArrayU64 => SLongs(0, [])
    case KKvList => SPairs(0, [])
  }

  function KindOf(s: Slot): Kind {
    match s
    case SU32(_) => KU32
    case SU64(_) => KU64
    case SString(_) => KString
    case SWords(_, _) => KArrayU32
    case SLongs(_, _) => KArrayU64
    case SPairs(_, _) => KKvList
  }

  function Zeroed(ks: seq<Kind>): (out: seq<Slot>)
    ensures |out| == |ks|
  {
    if ks == [] then [] else [Zero(ks[0])] + Zeroed(ks[1..])
  }

  lemma ZeroOwnsNothing(k: Kind)
    ensures Owns(Zero(k)) == multiset{}
  {
    assert EntriesOwn([]) == multiset{};
  }

  lemma {:induction false} ZeroedOwnsNothing(ks: seq<Kind>)
    ensures AllOwn(Zeroed(ks)) == multiset{}
  {
    if ks != [] {
      ZeroOwnsNothing(ks[0]);
      hide Owns, Zero;
      ZeroedOwnsNothing(ks[1..]);
      assert Zeroed(ks)[1..] == Zeroed(ks[1..]);
    }
  }

  lemma {:induction false} EntriesOwnSnoc(es: seq<Entry>, e: Entry)
    ensures EntriesOwn(es + [e]) == EntriesOwn(es) + Block(e.key.ptr) + Block(e.value.ptr)
  {
    hide Block;
    if es == [] {
      assert [e][1..] == [] && [] + [e] == [e];
    } else {
      EntriesOwnSnoc(es[1..], e);
      assert (es + [e])[1..] == es[1..] + [e];
    }
  }

  lemma OneMoreOwned(rest: multiset<int>, es: seq<Entry>, e: Entry)
    ensures rest + EntriesOwn(es) + Block(e.key.ptr) + Block(e.value.ptr) == rest + EntriesOwn(es + [e])
  {
    hide Block, EntriesOwn;
    EntriesOwnSnoc(es, e);
    Join(rest, EntriesOwn(es), Block(e.key.ptr));
    Join(rest, EntriesOwn(es) + Block(e.key.ptr), Block(e.value.ptr));
  }

  lemma {:induction false} AllOwnConcat(a: seq<Slot>, b: seq<Slot>)
    ensures AllOwn(a + b) == AllOwn(a) + AllOwn(b)
  {
    hide Owns;
    if a == [] {
      assert a + b == b;
    } else {
      AllOwnConcat(a[1..], b);
      assert (a + b)[1..] == a[1..] + b;
    }
  }

  lemma AllOwnSnoc(a: seq<Slot>, s: Slot)
    ensures AllOwn(a + [s]) == AllOwn(a) + Owns(s)
  {
    hide Owns;
    AllOwnConcat(a, [s]);
    assert [s][1..] == [];
  }

  // ---------------------------------------------------------------
  // Freeing

  /** One entry's two strings. */
  method FreeEntry(h: Ledger, e: Entry, ghost rest: multiset<int>)
    requires h.Valid() && h.live == rest + (Block(e.key.ptr) + Block(e.value.ptr))
    modifies h
    ensures h.Valid() && h.live == rest && h.refusals == old(h.refusals)
  {
    hide Block;
    Join(rest, Block(e.key.ptr), Block(e.value.ptr));
    h.Free(e.key.ptr, rest + Block(e.value.ptr));
    h.Free(e.value.ptr, rest);
  }

  method FreeEntries(h: Ledger, es: seq<Entry>, ghost rest: multiset<int>)
    requires h.Valid() && h.live == rest + EntriesOwn(es)
    modifies h
    ensures h.Valid() && h.live == rest && h.refusals == old(h.refusals)
  {
    hide Block;
    assert es[0..] == es;
    for i := 0 to |es|
      invariant h.Valid() && h.live == rest + EntriesOwn(es[i..]) && h.refusals == old(h.refusals)
    {
      assert es[i..][1..] == es[i + 1..];
      Join(rest, Block(es[i].key.ptr) + Block(es[i].value.ptr), EntriesOwn(es[i + 1..]));
      FreeEntry(h, es[i], rest + EntriesOwn(es[i + 1..]));
    }
  }

  method FreePairs(h: Ledger, p: int, es: seq<Entry>, ghost rest: multiset<int>) returns (cleared: Slot)
    requires h.Valid() && h.live == rest + (EntriesOwn(es) + Block(p))
    modifies h
    ensures h.Valid() && h.live == rest && h.refusals == old(h.refusals)
    ensures Owns(cleared) == multiset{} && cleared == SPairs(0, [])
  {
    hide EntriesOwn, Block;
    Join(rest, EntriesOwn(es), Block(p));
    FreeEntries(h, es, rest + Block(p));
    h.Free(p, rest);
    ZeroOwnsNothing(KKvList);
    return SPairs(0, []);
  }

  /** Frees one member and clears its pointer; scalars are left as they are. */
  lemma ClearedOwnsNothing(s: Slot)
    ensures Owns(Zero(KindOf(s))) == multiset{} && (s.SU32? || s.SU64? ==> Owns(s) == multiset{})
    ensures match s
      case SString(_) => Zero(KindOf(s)) == SString(NULL_STRING)
      case SWords(_, _) => Zero(KindOf(s)) == SWords(0, [])
      case SLongs(_, _) => Zero(KindOf(s)) == SLongs(0, [])
      case SPairs(_, _) => Zero(KindOf(s)) == SPairs(0, [])
      case _ => true
  {
    ZeroOwnsNothing(KindOf(s));
  }

  method FreeSlot(h: Ledger, s: Slot, ghost rest: multiset<int>) returns (cleared: Slot)
    requires h.Valid() && h.live == rest + Owns(s)
    modifies h
    ensures h.Valid() && h.live == rest && h.refusals == old(h.refusals)
    ensures Owns(cleared) == multiset{} && cleared == if s.SU32? || s.SU64? then s else Zero(KindOf(s))
  {
    ClearedOwnsNothing(s);
    hide EntriesOwn, Zero, KindOf, Block;
    match s
    case SU32(_) => return s;
    case SU64(_) => return s;
    case SString(t) => h.Free(t.ptr, rest); return SString(NULL_STRING);
    case SWords(p, _) => h.Free(p, rest); return SWords(0, []);
    case SLongs(p, _) => h.Free(p, rest); return SLongs(0, []);
    case SPairs(p, es) => cleared := FreePairs(h, p, es, rest);
  }

  method FreeMessage(h: Ledger, out: seq<Slot>, ghost rest: multiset<int>) returns (cleared: seq<Slot>)
    requires h.Valid() && h.live == rest + AllOwn(out)
    modifies h
    ensures h.Valid() && h.live == rest && h.refusals == old(h.refusals)
    ensures |cleared| == |out| && AllOwn(cleared) == multiset{}
    ensures forall i | 0 <= i < |out| ::
      cleared[i] == if out[i].SU32? || out[i].SU64? then out[i] else Zero(KindOf(out[i]))
  {
    hide Owns, Zero, KindOf;
    assert out[0..] == out;
    cleared := [];
    for i := 0 to |out|
      invariant h.Valid() && h.live == rest + AllOwn(out[i..]) && h.refusals == old(h.refusals)
      invariant |cleared| == i && AllOwn(cleared) == multiset{}
      invariant forall j | 0 <= j < i ::
        cleared[j] == if out[j].SU32? || out[j].SU64? then out[j] else Zero(KindOf(out[j]))
    {
      assert out[i..][1..] == out[i + 1..];
      var s := FreeSlot(h, out[i], rest + AllOwn(out[i + 1..]));
      AllOwnSnoc(cleared, s);
      cleared := cleared + [s];
    }
  }

  // ---------------------------------------------------------------
  // Reading

  /** A reader does what the format says, unless an allocation failed. */
  predicate Outcome<T(==)>(rc: int, refused: bool, parse: Parse<T>, value: T, next: nat) {
    if refused then rc == WW_ERR_NOMEM
    else
      match parse
      case Parsed(v, n) => rc == WW_OK && value == v && next == n
      case Bad(c) => rc == c && c != WW_OK && c != WW_ERR_NOMEM
  }

  class Reader {
    const buf: seq<byte>
    var pos: nat

    ghost predicate Valid()
      reads this
    {
      pos <= |buf|
    }

    constructor (b: seq<byte>)
      ensures Valid() && buf == b && pos == 0
    {
      buf, pos := b, 0;
    }

    method ReadU32() returns (rc: int, w: u32)
      requires Valid()
      modifies this
      ensures Valid() && Outcome(rc, false, ParseU32(buf, old(pos)), w, pos)
    {
      w := 0;
      if |buf| - pos < 4 { return WW_ERR_SHORT, w; }
      w := U32Of(buf[pos], buf[pos + 1], buf[pos + 2], buf[pos + 3]);
      pos := pos + 4;
      rc := WW_OK;
    }

    method ReadU64() returns (rc: int, l: u64)
      requires Valid()
      modifies this
      ensures Valid() && Outcome(rc, false, ParseU64(buf, old(pos)), l, pos)
    {
      l := 0;
      if |buf| - pos < 8 { return WW_ERR_SHORT, l; }
      var low: int := U32Of(buf[pos], buf[pos + 1], buf[pos + 2], buf[pos + 3]);
      var high: int := U32Of(buf[pos + 4], buf[pos + 5], buf[pos + 6], buf[pos + 7]);
      l := low + U32_LIMIT * high;
      pos := pos + 8;
      rc := WW_OK;
    }

    method ReadString(h: Ledger) returns (rc: int, s: Str)
      requires Valid() && h.Valid()
      modifies this, h
      ensures Valid() && h.Valid() && h.live == old(h.live) + Block(s.ptr)
      ensures rc != WW_OK ==> s == NULL_STRING
      ensures h.refusals >= old(h.refusals)
      ensures Outcome(rc, h.refusals > old(h.refusals), ParseString(buf, old(pos)), s.text, pos)
    {
      hide U32Of;
      s := NULL_STRING;
      var len: int;
      rc, len := ReadU32();
      if rc != WW_OK { return; }
      if len == 0 { return WW_ERR_BAD_STRING, s; }
      var padded := (len + 3) / 4 * 4;
      if |buf| - pos < padded { return WW_ERR_SHORT, s; }
      if buf[pos + len - 1] != 0 { return WW_ERR_BAD_STRING, s; }
      var p := h.Malloc();
      if p == 0 { return WW_ERR_NOMEM, s; }
      s := Str(p, UpToNul(buf[pos..pos + len - 1]));
      pos := pos + padded;
    }

    method ReadArrayU32(h: Ledger) returns (rc: int, s: Slot)
      requires Valid() && h.Valid()
      modifies this, h
      ensures Valid() && h.Valid() && h.live == old(h.live) + Owns(s)
      ensures rc != WW_OK ==> s == Zero(KArrayU32)
      ensures h.refusals >= old(h.refusals)
      ensures Outcome(rc, h.refusals > old(h.refusals), ParseField(buf, old(pos), KArrayU32), ValueOf(s), pos)
    {
      hide ParseU32, ParseU64, ParseWords;
      s := SWords(0, []);
      var n: int;
      rc, n := ReadU32();
      if rc != WW_OK { return; }
      ghost var start := pos;
      NoWords(buf, start);
      if n == 0 { return; }
      var p := h.Malloc();
      if p == 0 { return WW_ERR_NOMEM, s; }
      var arr: seq<u32> := [];
      for i := 0 to n
        invariant Valid() && h.Valid() && h.live == old(h.live) + Block(p) && h.refusals == old(h.refusals)
        invariant ParseWords(buf, start, i) == Parsed(arr, pos)
      {
        ghost var at := pos;
        var w;
        rc, w := ReadU32();
        if rc != WW_OK {
          WordsStayBad(buf, start, i, n, arr, at, rc);
          h.Free(p, old(h.live));
          return;
        }
        WordsOneMore(buf, start, i, arr, at, w, pos);
        arr := arr + [w];
      }
      return WW_OK, SWords(p, arr);
    }

    method ReadArrayU64(h: Ledger) returns (rc: int, s: Slot)
      requires Valid() && h.Valid()
      modifies this, h
      ensures Valid() && h.Valid() && h.live == old(h.live) + Owns(s)
      ensures rc != WW_OK ==> s == Zero(KArrayU64)
      ensures h.refusals >= old(h.refusals)
      ensures Outcome(rc, h.refusals > old(h.refusals), ParseField(buf, old(pos), KArrayU64), ValueOf(s), pos)
    {
      hide ParseU32, ParseU64, ParseLongs;
      s := SLongs(0, []);
      var n: int;
      rc, n := ReadU32();
      if rc != WW_OK { return; }
      ghost var start := pos;
      NoLongs(buf, start);
      if n == 0 { return; }
      var p := h.Malloc();
      if p == 0 { return WW_ERR_NOMEM, s; }
      var arr: seq<u64> := [];
      for i := 0 to n
        invariant Valid() && h.Valid() && h.live == old(h.live) + Block(p) && h.refusals == old(h.refusals)
        invariant ParseLongs(buf, start, i) == Parsed(arr, pos)
      {
        ghost var at := pos;
        var w;
        rc, w := ReadU64();
        if rc != WW_OK {
          LongsStayBad(buf, start, i, n, arr, at, rc);
          h.Free(p, old(h.live));
          return;
        }
        LongsOneMore(buf, start, i, arr, at, w, pos);
        arr := arr + [w];
      }
      return WW_OK, SLongs(p, arr);
    }

    /** Key and value of one entry; when the second fails the first stays with the caller. */
    method ReadEntry(h: Ledger) returns (rc: int, e: Entry)
      requires Valid() && h.Valid()
      modifies this, h
      ensures Valid() && h.Valid() && h.live == old(h.live) + Block(e.key.ptr) + Block(e.value.ptr)
      ensures h.refusals >= old(h.refusals)
      ensures Outcome(rc, h.refusals > old(h.refusals), ParsePair(buf, old(pos)), Kv(e.key.text, e.value.text), pos)
    {
      hide ParseString;
      var key, value := NULL_STRING, NULL_STRING;
      rc, key := ReadString(h);
      if rc == WW_OK {
        rc, value := ReadString(h);
      }
      e := Entry(key, value);
    }

    /** `n` entries into an array already allocated; a failure frees the entries read so far. */
    method ReadEntries(h: Ledger, n: nat) returns (rc: int, es: seq<Entry>)
      requires Valid() && h.Valid()
      modifies this, h
      ensures Valid() && h.Valid() && h.live == old(h.live) + EntriesOwn(es)
      ensures rc != WW_OK ==> es == []
      ensures h.refusals >= old(h.refusals)
      ensures Outcome(rc, h.refusals > old(h.refusals), ParsePairs(buf, old(pos), n), Pairs(es), pos)
    {
      hide ParsePair, ParsePairs, EntriesOwn, Pairs, Block;
      NoEntries();
      NoPairsYet(buf, pos);
      es := [];
      for i := 0 to n
        invariant Valid() && h.Valid() && h.refusals == old(h.refusals)
        invariant h.live == old(h.live) + EntriesOwn(es)
        invariant ParsePairs(buf, old(pos), i) == Parsed(Pairs(es), pos)
      {
        ghost var at := pos;
        var e;
        rc, e := ReadEntry(h);
        OneMoreOwned(old(h.live), es, e);
        if rc != WW_OK {
          if h.refusals == old(h.refusals) { PairsStayBad(buf, old(pos), i, n, Pairs(es), at, rc); }
          FreeEntries(h, es + [e], old(h.live));
          es := [];
          return;
        }
        PairsOneMore(buf, old(pos), i, es, at, e, pos);
        es := es + [e];
      }
      rc := WW_OK;
    }

    /** The array and its `n` entries; a count of zero leaves a NULL array. */
    method ReadPairs(h: Ledger, n: nat) returns (rc: int, p: int, es: seq<Entry>)
      requires Valid() && h.Valid()
      modifies this, h
      ensures Valid() && h.Valid() && h.live == old(h.live) + (EntriesOwn(es) + Block(p))
      ensures rc != WW_OK ==> p == 0 && es == []
      ensures h.refusals >= old(h.refusals)
      ensures Outcome(rc, h.refusals > old(h.refusals), ParsePairs(buf, old(pos), n), Pairs(es), pos)
    {
      hide ParsePairs, EntriesOwn, Pairs;
      NoEntries();
      NoPairsYet(buf, pos);
      rc, p, es := WW_OK, 0, [];
      if n == 0 { return; }
      p := h.Malloc();
      if p == 0 { return WW_ERR_NOMEM, 0, []; }
      rc, es := ReadEntries(h, n);
      if rc != WW_OK {
        h.Free(p, old(h.live));
        p := 0;
      }
    }

    method ReadKvList(h: Ledger) returns (rc: int, s: Slot)
      requires Valid() && h.Valid()
      modifies this, h
      ensures Valid() && h.Valid() && h.live == old(h.live) + Owns(s)
      ensures rc != WW_OK ==> s == Zero(KKvList)
      ensures h.refusals >= old(h.refusals)
      ensures Outcome(rc, h.refusals > old(h.refusals), ParseField(buf, old(pos), KKvList), ValueOf(s), pos)
    {
      hide ParseU32, ParsePairs, EntriesOwn, Pairs;
      NoEntries();
      s := SPairs(0, []);
      var n: int;
      rc, n := ReadU32();
      if rc != WW_OK { return; }
      var p, es;
      rc, p, es := ReadPairs(h, n);
      s := SPairs(p, es);
    }

    method ReadField(h: Ledger, k: Kind) returns (rc: int, s: Slot)
      requires Valid() && h.Valid()
      modifies this, h
      ensures Valid() && h.Valid() && h.live == old(h.live) + Owns(s)
      ensures h.refusals >= old(h.refusals)
      ensures Outcome(rc, h.refusals > old(h.refusals), ParseField(buf, old(pos), k), ValueOf(s), pos)
    {
      hide ParseU32, ParseU64, ParseString, ParseWords, ParseLongs, ParsePairs, EntriesOwn;
      match k
      case KU32 => var w; rc, w := ReadU32(); s := SU32(w);
      case KU64 => var l; rc, l := ReadU64(); s := SU64(l);
      case KString => var t; rc, t := ReadString(h); s := SString(t);
      case KArrayU32 => rc, s := ReadArrayU32(h);
      case KArrayU64 => rc, s := ReadArrayU64(h);
      case KKvList => rc, s := ReadKvList(h);
    }
  }

  lemma NoWords(buf: seq<byte>, start: nat)
    ensures ParseWords(buf, start, 0) == Parsed([], start)
  {
  }

  lemma WordsOneMore(buf: seq<byte>, start: nat, i: nat, arr: seq<u32>, at: nat, w: u32, end: nat)
    requires ParseWords(buf, start, i) == Parsed(arr, at) && ParseU32(buf, at) == Parsed(w, end)
    ensures ParseWords(buf, start, i + 1) == Parsed(arr + [w], end)
  {
    hide ParseU32;
  }

  lemma {:induction false} WordsStayBad(buf: seq<byte>, start: nat, i: nat, n: nat, arr: seq<u32>, at: nat, c: int)
    requires i < n && ParseWords(buf, start, i) == Parsed(arr, at) && ParseU32(buf, at) == Bad(c)
    ensures ParseWords(buf, start, n) == Bad(c)
    decreases n
  {
    hide ParseU32;
    if i + 1 < n {
      WordsStayBad(buf, start, i, n - 1, arr, at, c);
    }
  }

  lemma NoLongs(buf: seq<byte>, start: nat)
    ensures ParseLongs(buf, start, 0) == Parsed([], start)
  {
  }

  lemma LongsOneMore(buf: seq<byte>, start: nat, i: nat, arr: seq<u64>, at: nat, w: u64, end: nat)
    requires ParseLongs(buf, start, i) == Parsed(arr, at) && ParseU64(buf, at) == Parsed(w, end)
    ensures ParseLongs(buf, start, i + 1) == Parsed(arr + [w], end)
  {
    hide ParseU64;
  }

  lemma {:induction false} LongsStayBad(buf: seq<byte>, start: nat, i: nat, n: nat, arr: seq<u64>, at: nat, c: int)
    requires i < n && ParseLongs(buf, start, i) == Parsed(arr, at) && ParseU64(buf, at) == Bad(c)
    ensures ParseLongs(buf, start, n) == Bad(c)
    decreases n
  {
    hide ParseU64;
    if i + 1 < n {
      LongsStayBad(buf, start, i, n - 1, arr, at, c);
    }
  }

  lemma NoEntries()
    ensures EntriesOwn([]) == multiset{} && Pairs([]) == []
  {
  }

  lemma NoPairsYet(buf: seq<byte>, start: nat)
    ensures ParsePairs(buf, start, 0) == Parsed([], start)
  {
  }

  lemma PairsOneMore(buf: seq<byte>, start: nat, i: nat, es: seq<Entry>, at: nat, e: Entry, end: nat)
    requires ParsePairs(buf, start, i) == Parsed(Pairs(es), at)
    requires ParsePair(buf, at) == Parsed(Kv(e.key.text, e.value.text), end)
    ensures ParsePairs(buf, start, i + 1) == Parsed(Pairs(es + [e]), end)
  {
    hide ParsePair;
    assert (es + [e])[..|es|] == es;
  }

  lemma {:induction false} PairsStayBad(buf: seq<byte>, start: nat, i: nat, n: nat, kvs: seq<Kv>, at: nat, c: int)
    requires i < n && ParsePairs(buf, start, i) == Parsed(kvs, at) && ParsePair(buf, at) == Bad(c)
    ensures ParsePairs(buf, start, n) == Bad(c)
    decreases n
  {
    hide ParsePair;
    if i + 1 < n {
      PairsStayBad(buf, start, i, n - 1, kvs, at, c);
    }
  }

  // ---------------------------------------------------------------
  // Whole messages

  lemma NoSlots(buf: seq<byte>, ks: seq<Kind>)
    ensures AllOwn([]) == multiset{} && ParseFields(buf, 0, ks[..0]) == Parsed(Values([]), 0)
  {
  }

  lemma FieldsOneMore(buf: seq<byte>, ks: seq<Kind>, i: nat, done: seq<Slot>, at: nat, s: Slot, end: nat)
    requires i < |ks| && ParseFields(buf, 0, ks[..i]) == Parsed(Values(done), at)
    requires ParseField(buf, at, ks[i]) == Parsed(ValueOf(s), end)
    ensures ParseFields(buf, 0, ks[..i + 1]) == Parsed(Values(done + [s]), end)
  {
    hide ParseField, ValueOf;
    assert (done + [s])[..|done|] == done;
    assert ks[..i + 1][..i] == ks[..i];
  }

  lemma FieldBad(buf: seq<byte>, ks: seq<Kind>, i: nat, vs: seq<Value>, at: nat, c: int)
    requires i < |ks| && ParseFields(buf, 0, ks[..i]) == Parsed(vs, at) && ParseField(buf, at, ks[i]) == Bad(c)
    ensures ParseFields(buf, 0, ks[..i + 1]) == Bad(c)
  {
    hide ParseField;
    assert ks[..i + 1][..i] == ks[..i];
  }

  lemma {:induction false} FieldsStayBad(buf: seq<byte>, ks: seq<Kind>, i: nat, c: int)
    requires i <= |ks| && ParseFields(buf, 0, ks[..i]) == Bad(c)
    ensures ParseFields(buf, 0, ks) == Bad(c)
    decreases |ks| - i
  {
    hide ParseField;
    if i == |ks| {
      assert ks[..i] == ks;
    } else {
      assert ks[..i + 1][..i] == ks[..i];
      FieldsStayBad(buf, ks, i + 1, c);
    }
  }

  /** The fields of one message into a zeroed struct, up to the first failure. */
  method ReadFields(r: Reader, h: Ledger, ks: seq<Kind>) returns (rc: int, out: seq<Slot>)
    requires r.Valid() && h.Valid() && r.pos == 0
    modifies r, h
    ensures r.Valid() && h.Valid() && h.live == old(h.live) + AllOwn(out) && |out| == |ks|
    ensures h.refusals >= old(h.refusals)
    ensures Outcome(rc, h.refusals > old(h.refusals), ParseFields(r.buf, 0, ks), Values(out), r.pos)
  {
    hide ParseFields, ParseField, ValueOf, Values, Owns, AllOwn;
    NoSlots(r.buf, ks);
    out := [];
    for i := 0 to |ks|
      invariant r.Valid() && h.Valid() && h.refusals == old(h.refusals)
      invariant |out| == i && h.live == old(h.live) + AllOwn(out)
      invariant ParseFields(r.buf, 0, ks[..i]) == Parsed(Values(out), r.pos)
    {
      ghost var at := r.pos;
      var s;
      rc, s := r.ReadField(h, ks[i]);
      AllOwnSnoc(out, s);
      if rc != WW_OK {
        if h.refusals == old(h.refusals) {
          FieldBad(r.buf, ks, i, Values(out), at, rc);
          FieldsStayBad(r.buf, ks, i + 1, rc);
        }
        ZeroedOwnsNothing(ks[i + 1..]);
        AllOwnConcat(out + [s], Zeroed(ks[i + 1..]));
        out := out + [s] + Zeroed(ks[i + 1..]);
        return;
      }
      FieldsOneMore(r.buf, ks, i, out, at, s, r.pos);
      out := out + [s];
    }
    assert ks[..|ks|] == ks;
    rc := WW_OK;
  }

  /** Every generated decoder: on any failure the struct is freed and left owning nothing, and the heap is as
      before; on success the struct owns exactly what was allocated. */
  method Decode(h: Ledger, buf: seq<byte>, ks: seq<Kind>) returns (rc: int, out: seq<Slot>)
    requires h.Valid()
    modifies h
    ensures h.Valid() && h.live == old(h.live) + AllOwn(out) && |out| == |ks|
    ensures rc != WW_OK ==> AllOwn(out) == multiset{}
    ensures h.refusals >= old(h.refusals)
    ensures Outcome(rc, h.refusals > old(h.refusals), ParseMessage(buf, ks), Values(out), |buf|)
  {
    hide ParseFields, Values, AllOwn;
    var r := new Reader(buf);
    rc, out := ReadFields(r, h, ks);
    if rc != WW_OK {
      out := FreeMessage(h, out, old(h.live));
      return;
    }
    if r.pos != |buf| {
      out := FreeMessage(h, out, old(h.live));
      return WW_ERR_TRAILING, out;
    }
  }
}
