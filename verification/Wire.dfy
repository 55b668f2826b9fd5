/** The inter-process wire format: what the generated encoders write and the decoders accept, as functions
    on bytes. `bridge/src/ipc_v1.c`. */
module Wire {
  import opened Bytes

  const WW_OK := 0
  const WW_ERR_SHORT := -1
  const WW_ERR_BAD_STRING := -2
  const WW_ERR_TRAILING := -4
  const WW_ERR_UNKNOWN_OPCODE := -5
  const WW_ERR_NOMEM := -6
  const WW_ERR_OVERFLOW := -7

  /** A message is a fixed list of typed fields; a float travels as its 32-bit pattern. */
  datatype Kind = KU32 | KU64 | KString | KArrayU32 | KArrayU64 | KKvList

  type Text = seq<byte>

  datatype Kv = Kv(key: Text, value: Text)

  datatype Value =
    | VU32(word: u32)
    | VU64(long: u64)
    | VString(text: Text)
    | VArrayU32(words: seq<u32>)
    | VArrayU64(longs: seq<u64>)
    | VKvList(pairs: seq<Kv>)

  /** A C string holds no NUL, and its length with the NUL must fit a 32-bit word. */
  predicate CString(t: Text) {
    0 !in t && |t| <= 0xffff_fffe
  }

  predicate CStrings(kvs: seq<Kv>) {
    forall i | 0 <= i < |kvs| :: CString(kvs[i].key) && CString(kvs[i].value)
  }

  predicate Fits(v: Value, k: Kind) {
    match v
    case VU32(_) => k == KU32
    case VU64(_) => k == KU64
    case VString(t) => k == KString && CString(t)
    case VArrayU32(a) => k == KArrayU32 && |a| < U32_LIMIT
    case VArrayU64(a) => k == KArrayU64 && |a| < U32_LIMIT
    case VKvList(kvs) => k == KKvList && |kvs| < U32_LIMIT && CStrings(kvs)
  }

  predicate FitsAll(vs: seq<Value>, ks: seq<Kind>) {
    |vs| == |ks| && forall i | 0 <= i < |vs| :: Fits(vs[i], ks[i])
  }

  // ---------------------------------------------------------------
  // Writing

  /** Bytes that bring a length to a multiple of four. */
  function Pad(n: nat): nat {
    (4 - n % 4) % 4
  }

  function Zeros(n: nat): (z: seq<byte>)
    ensures |z| == n
  {
    seq(n, i => 0)
  }

  /** A string written at absolute offset `start`: length with NUL, bytes, NUL, and zeros up to the next multiple
      of four of the whole buffer. */
  function StringBytes(start: nat, t: Text): seq<byte>
    requires |t| <= 0xffff_fffe
  {
    U32Bytes(|t| + 1) + t + [0] + Zeros(Pad(start + 4 + |t| + 1))
  }

  function WordsBytes(a: seq<u32>): seq<byte> {
    if a == [] then [] else WordsBytes(a[..|a| - 1]) + U32Bytes(a[|a| - 1])
  }

  function LongsBytes(a: seq<u64>): seq<byte> {
    if a == [] then [] else LongsBytes(a[..|a| - 1]) + U64Bytes(a[|a| - 1])
  }

  predicate Writable(kvs: seq<Kv>) {
    forall i | 0 <= i < |kvs| :: |kvs[i].key| <= 0xffff_fffe && |kvs[i].value| <= 0xffff_fffe
  }

  function PairBytes(start: nat, kv: Kv): seq<byte>
    requires |kv.key| <= 0xffff_fffe && |kv.value| <= 0xffff_fffe
  {
    var key := StringBytes(start, kv.key);
    key + StringBytes(start + |key|, kv.value)
  }

  function PairsBytes(start: nat, kvs: seq<Kv>): seq<byte>
    requires Writable(kvs)
  {
    if kvs == [] then []
    else
      var before := PairsBytes(start, kvs[..|kvs| - 1]);
      before + PairBytes(start + |before|, kvs[|kvs| - 1])
  }

  function FieldBytes(start: nat, v: Value, k: Kind): seq<byte>
    requires Fits(v, k)
  {
    match v
    case VU32(w) => U32Bytes(w)
    case VU64(l) => U64Bytes(l)
    case VString(t) => StringBytes(start, t)
    case VArrayU32(a) => U32Bytes(|a|) + WordsBytes(a)
    case VArrayU64(a) => U32Bytes(|a|) + LongsBytes(a)
    case VKvList(kvs) => U32Bytes(|kvs|) + PairsBytes(start + 4, kvs)
  }

  function MessageBytes(start: nat, vs: seq<Value>, ks: seq<Kind>): seq<byte>
    requires FitsAll(vs, ks)
  {
    if vs == [] then []
    else
      var n := |vs| - 1;
      var before := MessageBytes(start, vs[..n], ks[..n]);
      before + FieldBytes(start + |before|, vs[n], ks[n])
  }

  // ---------------------------------------------------------------
  // Reading

  datatype Parse<+T> = Parsed(value: T, next: nat) | Bad(code: int)

  function ParseU32(buf: seq<byte>, pos: nat): Parse<u32> {
    if pos + 4 > |buf| then Bad(WW_ERR_SHORT)
    else Parsed(U32Of(buf[pos], buf[pos + 1], buf[pos + 2], buf[pos + 3]), pos + 4)
  }

  function ParseU64(buf: seq<byte>, pos: nat): Parse<u64> {
    if pos + 8 > |buf| then Bad(WW_ERR_SHORT)
    else
      var low: int := U32Of(buf[pos], buf[pos + 1], buf[pos + 2], buf[pos + 3]);
      var high: int := U32Of(buf[pos + 4], buf[pos + 5], buf[pos + 6], buf[pos + 7]);
      Parsed(low + U32_LIMIT * high, pos + 8)
  }

  /** A length rounded up to a multiple of four: the reader pads relative to the string, not to the buffer. */
  function Padded(len: nat): nat {
    (len + 3) / 4 * 4
  }

  /** A C string ends at its first NUL, whatever follows in its buffer. */
  function UpToNul(t: Text): (s: Text)
    ensures |s| <= |t| && 0 !in s && (s == t <==> 0 !in t) && (|s| == |t| <==> 0 !in t)
  {
    if t == [] || t[0] == 0 then [] else [t[0]] + UpToNul(t[1..])
  }

  function ParseString(buf: seq<byte>, pos: nat): (r: Parse<Text>)
    ensures r.Parsed? ==> pos < r.next <= |buf|
  {
    match ParseU32(buf, pos)
    case Bad(c) => Bad(c)
    case Parsed(len, p) =>
      if len == 0 then Bad(WW_ERR_BAD_STRING)
      else if p + Padded(len) > |buf| then Bad(WW_ERR_SHORT)
      else if buf[p + len - 1] != 0 then Bad(WW_ERR_BAD_STRING)
      else Parsed(UpToNul(buf[p..p + len - 1]), p + Padded(len))
  }

  function ParseWords(buf: seq<byte>, pos: nat, n: nat): (r: Parse<seq<u32>>)
    ensures r.Parsed? ==> |r.value| == n && pos <= r.next
  {
    if n == 0 then Parsed([], pos)
    else
      match ParseWords(buf, pos, n - 1)
      case Bad(c) => Bad(c)
      case Parsed(a, p) =>
        match ParseU32(buf, p)
        case Bad(c) => Bad(c)
        case Parsed(w, q) => Parsed(a + [w], q)
  }

  function ParseLongs(buf: seq<byte>, pos: nat, n: nat): (r: Parse<seq<u64>>)
    ensures r.Parsed? ==> |r.value| == n && pos <= r.next
  {
    if n == 0 then Parsed([], pos)
    else
      match ParseLongs(buf, pos, n - 1)
      case Bad(c) => Bad(c)
      case Parsed(a, p) =>
        match ParseU64(buf, p)
        case Bad(c) => Bad(c)
        case Parsed(w, q) => Parsed(a + [w], q)
  }

  function ParsePair(buf: seq<byte>, pos: nat): (r: Parse<Kv>)
    ensures r.Parsed? ==> pos < r.next
  {
    match ParseString(buf, pos)
    case Bad(c) => Bad(c)
    case Parsed(key, p) =>
      match ParseString(buf, p)
      case Bad(c) => Bad(c)
      case Parsed(value, q) => Parsed(Kv(key, value), q)
  }

  function ParsePairs(buf: seq<byte>, pos: nat, n: nat): (r: Parse<seq<Kv>>)
    ensures r.Parsed? ==> |r.value| == n && pos <= r.next
  {
    if n == 0 then Parsed([], pos)
    else
      match ParsePairs(buf, pos, n - 1)
      case Bad(c) => Bad(c)
      case Parsed(a, p) =>
        match ParsePair(buf, p)
        case Bad(c) => Bad(c)
        case Parsed(kv, q) => Parsed(a + [kv], q)
  }

  function ParseField(buf: seq<byte>, pos: nat, k: Kind): Parse<Value> {
    match k
    case KU32 => (match ParseU32(buf, pos) case Bad(c) => Bad(c) case Parsed(w, p) => Parsed(VU32(w), p))
    case KU64 => (match ParseU64(buf, pos) case Bad(c) => Bad(c) case Parsed(w, p) => Parsed(VU64(w), p))
    case KString => (match ParseString(buf, pos) case Bad(c) => Bad(c) case Parsed(t, p) => Parsed(VString(t), p))
    case KArrayU32 =>
      (match ParseU32(buf, pos)
       case Bad(c) => Bad(c)
       case Parsed(n, p) => match ParseWords(buf, p, n) case Bad(c) => Bad(c)
         case Parsed(a, q) => Parsed(VArrayU32(a), q))
    case KArrayU64 =>
      (match ParseU32(buf, pos)
       case Bad(c) => Bad(c)
       case Parsed(n, p) => match ParseLongs(buf, p, n) case Bad(c) => Bad(c)
         case Parsed(a, q) => Parsed(VArrayU64(a), q))
    case KKvList =>
      (match ParseU32(buf, pos)
       case Bad(c) => Bad(c)
       case Parsed(n, p) => match ParsePairs(buf, p, n) case Bad(c) => Bad(c)
         case Parsed(a, q) => Parsed(VKvList(a), q))
  }

  function ParseFields(buf: seq<byte>, pos: nat, ks: seq<Kind>): (r: Parse<seq<Value>>)
    ensures r.Parsed? ==> |r.value| == |ks|
  {
    if ks == [] then Parsed([], pos)
    else
      match ParseFields(buf, pos, ks[..|ks| - 1])
      case Bad(c) => Bad(c)
      case Parsed(vs, p) =>
        match ParseField(buf, p, ks[|ks| - 1])
        case Bad(c) => Bad(c)
        case Parsed(v, q) => Parsed(vs + [v], q)
  }

  /** A whole body: all fields and nothing after them. */
  function ParseMessage(buf: seq<byte>, ks: seq<Kind>): Parse<seq<Value>> {
    match ParseFields(buf, 0, ks)
    case Bad(c) => Bad(c)
    case Parsed(vs, p) => if p == |buf| then Parsed(vs, p) else Bad(WW_ERR_TRAILING)
  }

  // ---------------------------------------------------------------
  // Why absolute and relative padding agree

  /** The writer pads to the buffer, the reader to the string: they agree exactly at aligned offsets. */
  lemma PaddingAgreesIffAligned(start: nat, t: Text)
    requires |t| <= 0xffff_fffe
    ensures |StringBytes(start, t)| == 4 + Padded(|t| + 1) <==> start % 4 == 0
  {
    var len := |t| + 1;
    assert |StringBytes(start, t)| == 4 + len + Pad(start + 4 + len);
    PadOf(start + 4 + len, (start / 4) + 1 + (len / 4) + (start % 4 + len % 4) / 4, (start % 4 + len % 4) % 4);
    PaddedOf(len, len / 4, len % 4);
    hide Pad, Padded, StringBytes;
  }

  lemma PadOf(n: nat, quarters: nat, rest: nat)
    requires n == 4 * quarters + rest && rest < 4
    ensures Pad(n) == if rest == 0 then 0 else 4 - rest
  {
    assert n % 4 == rest;
  }

  lemma PaddedOf(n: nat, quarters: nat, rest: nat)
    requires n == 4 * quarters + rest && rest < 4
    ensures Padded(n) == n + if rest == 0 then 0 else 4 - rest
  {
    assert (n + 3) / 4 == quarters + if rest == 0 then 0 else 1;
  }

  /** A byte string occurs in a buffer at an offset. */
  ghost predicate At(buf: seq<byte>, pos: nat, b: seq<byte>) {
    pos + |b| <= |buf| && buf[pos..pos + |b|] == b
  }

  lemma AtSplit(buf: seq<byte>, pos: nat, a: seq<byte>, b: seq<byte>)
    requires At(buf, pos, a + b)
    ensures At(buf, pos, a) && At(buf, pos + |a|, b)
  {
    var s := buf[pos..pos + |a + b|];
    assert s[..|a|] == a && s[|a|..] == b;
    assert s[..|a|] == buf[pos..pos + |a|];
    assert s[|a|..] == buf[pos + |a|..pos + |a| + |b|];
  }

  lemma ReadU32(buf: seq<byte>, pos: nat, w: u32)
    requires At(buf, pos, U32Bytes(w))
    ensures ParseU32(buf, pos) == Parsed(w, pos + 4)
  {
    var b := buf[pos..pos + 4];
    assert b == U32Bytes(w);
    assert forall i | 0 <= i < 4 :: buf[pos + i] == b[i];
    U32RoundTrip(w);
  }

  lemma ReadU64(buf: seq<byte>, pos: nat, w: u64)
    requires At(buf, pos, U64Bytes(w))
    ensures ParseU64(buf, pos) == Parsed(w, pos + 8)
  {
    var b := buf[pos..pos + 8];
    assert b == U64Bytes(w);
    assert forall i | 0 <= i < 8 :: buf[pos + i] == b[i];
    U64RoundTrip(w);
  }

  predicate Aligned(n: nat) {
    n % 4 == 0
  }

  lemma AlignedSum(a: nat, b: nat)
    requires Aligned(a) && Aligned(b)
    ensures Aligned(a + b)
  {
  }

  /** Every field keeps the offset aligned and reads back from it. */
  lemma ReadString(buf: seq<byte>, pos: nat, t: Text)
    requires CString(t) && Aligned(pos) && At(buf, pos, StringBytes(pos, t))
    ensures ParseString(buf, pos) == Parsed(t, pos + |StringBytes(pos, t)|)
    ensures Aligned(|StringBytes(pos, t)|)
  {
    hide U32Bytes, ParseU32, Pad, Padded;
    var z := Zeros(Pad(pos + 4 + |t| + 1));
    var b := StringBytes(pos, t);
    assert b == U32Bytes(|t| + 1) + (t + [0] + z);
    AtSplit(buf, pos, U32Bytes(|t| + 1), t + [0] + z);
    ReadU32(buf, pos, |t| + 1);
    AtSplit(buf, pos + 4, t + [0], z);
    AtSplit(buf, pos + 4, t, [0]);
    assert buf[pos + 4 + |t|] == buf[pos + 4 + |t|..pos + 4 + |t| + 1][0];
    PaddingAgreesIffAligned(pos, t);
    PaddedIsAligned(|t| + 1);
  }

  lemma PaddedIsAligned(n: nat)
    ensures Aligned(4 + Padded(n))
  {
    assert 4 + (n + 3) / 4 * 4 == 4 * (1 + (n + 3) / 4);
  }

  lemma ReadWordsNone(buf: seq<byte>, pos: nat, a: seq<u32>)
    requires a == []
    ensures ParseWords(buf, pos, |a|) == Parsed(a, pos + |WordsBytes(a)|) && |WordsBytes(a)| == 0
  {
  }

  lemma ReadWordsOneMore(buf: seq<byte>, pos: nat, a: seq<u32>, q: nat)
    requires a != [] && ParseWords(buf, pos, |a| - 1) == Parsed(a[..|a| - 1], q)
    requires ParseU32(buf, q) == Parsed(a[|a| - 1], q + 4)
    ensures ParseWords(buf, pos, |a|) == Parsed(a, q + 4)
  {
    hide ParseU32;
    assert a == a[..|a| - 1] + [a[|a| - 1]];
  }

  lemma {:induction false} ReadWords(buf: seq<byte>, pos: nat, a: seq<u32>)
    requires At(buf, pos, WordsBytes(a))
    ensures ParseWords(buf, pos, |a|) == Parsed(a, pos + |WordsBytes(a)|)
    ensures |WordsBytes(a)| == 4 * |a|
    decreases |a|
  {
    hide At, ParseWords, ParseU32, U32Bytes;
    if a == [] {
      ReadWordsNone(buf, pos, a);
      return;
    }
    var init, w := a[..|a| - 1], a[|a| - 1];
    var before := WordsBytes(init);
    assert WordsBytes(a) == before + U32Bytes(w);
    hide WordsBytes;
    AtSplit(buf, pos, before, U32Bytes(w));
    ReadWords(buf, pos, init);
    ReadU32(buf, pos + |before|, w);
    ReadWordsOneMore(buf, pos, a, pos + |before|);
  }

  lemma ReadLongsNone(buf: seq<byte>, pos: nat, a: seq<u64>)
    requires a == []
    ensures ParseLongs(buf, pos, |a|) == Parsed(a, pos + |LongsBytes(a)|) && |LongsBytes(a)| == 0
  {
  }

  lemma ReadLongsOneMore(buf: seq<byte>, pos: nat, a: seq<u64>, q: nat)
    requires a != [] && ParseLongs(buf, pos, |a| - 1) == Parsed(a[..|a| - 1], q)
    requires ParseU64(buf, q) == Parsed(a[|a| - 1], q + 8)
    ensures ParseLongs(buf, pos, |a|) == Parsed(a, q + 8)
  {
    hide ParseU64;
    assert a == a[..|a| - 1] + [a[|a| - 1]];
  }

  lemma {:induction false} ReadLongs(buf: seq<byte>, pos: nat, a: seq<u64>)
    requires At(buf, pos, LongsBytes(a))
    ensures ParseLongs(buf, pos, |a|) == Parsed(a, pos + |LongsBytes(a)|)
    ensures |LongsBytes(a)| == 8 * |a|
    decreases |a|
  {
    hide At, ParseLongs, ParseU64, U64Bytes;
    if a == [] {
      ReadLongsNone(buf, pos, a);
      return;
    }
    var init, w := a[..|a| - 1], a[|a| - 1];
    var before := LongsBytes(init);
    assert LongsBytes(a) == before + U64Bytes(w);
    hide LongsBytes;
    AtSplit(buf, pos, before, U64Bytes(w));
    ReadLongs(buf, pos, init);
    ReadU64(buf, pos + |before|, w);
    ReadLongsOneMore(buf, pos, a, pos + |before|);
  }

  lemma ReadPair(buf: seq<byte>, pos: nat, kv: Kv)
    requires CString(kv.key) && CString(kv.value) && Aligned(pos) && At(buf, pos, PairBytes(pos, kv))
    ensures ParsePair(buf, pos) == Parsed(kv, pos + |PairBytes(pos, kv)|)
    ensures Aligned(|PairBytes(pos, kv)|)
  {
    hide StringBytes, ParseString, At, Aligned;
    var key := StringBytes(pos, kv.key);
    AtSplit(buf, pos, key, StringBytes(pos + |key|, kv.value));
    ReadString(buf, pos, kv.key);
    AlignedSum(pos, |key|);
    ReadString(buf, pos + |key|, kv.value);
    AlignedSum(|key|, |StringBytes(pos + |key|, kv.value)|);
  }

  lemma ParseOneMorePair(buf: seq<byte>, pos: nat, kvs: seq<Kv>, q: nat, end: nat)
    requires kvs != []
    requires ParsePairs(buf, pos, |kvs| - 1) == Parsed(kvs[..|kvs| - 1], q)
    requires ParsePair(buf, q) == Parsed(kvs[|kvs| - 1], end)
    ensures ParsePairs(buf, pos, |kvs|) == Parsed(kvs, end)
  {
    hide ParsePair;
    assert kvs == kvs[..|kvs| - 1] + [kvs[|kvs| - 1]];
  }

  lemma WriteOneMorePair(start: nat, kvs: seq<Kv>)
    requires kvs != [] && Writable(kvs)
    ensures var before := PairsBytes(start, kvs[..|kvs| - 1]);
            PairsBytes(start, kvs) == before + PairBytes(start + |before|, kvs[|kvs| - 1])
  {
    hide PairBytes;
  }

  lemma ReadNoPairs(buf: seq<byte>, pos: nat, kvs: seq<Kv>)
    requires kvs == [] && Writable(kvs)
    ensures ParsePairs(buf, pos, |kvs|) == Parsed(kvs, pos + |PairsBytes(pos, kvs)|)
    ensures Aligned(|PairsBytes(pos, kvs)|)
  {
  }

  lemma {:induction false} ReadPairs(buf: seq<byte>, pos: nat, kvs: seq<Kv>)
    requires CStrings(kvs) && Aligned(pos) && At(buf, pos, PairsBytes(pos, kvs))
    ensures ParsePairs(buf, pos, |kvs|) == Parsed(kvs, pos + |PairsBytes(pos, kvs)|)
    ensures Aligned(|PairsBytes(pos, kvs)|)
    decreases |kvs|
  {
    hide PairBytes, ParsePair, PairsBytes, ParsePairs, At, Aligned;
    if kvs == [] {
      ReadNoPairs(buf, pos, kvs);
      return;
    }
    WriteOneMorePair(pos, kvs);
    var init, kv := kvs[..|kvs| - 1], kvs[|kvs| - 1];
    var before := PairsBytes(pos, init);
    var pair := PairBytes(pos + |before|, kv);
    AtSplit(buf, pos, before, pair);
    ReadPairs(buf, pos, init);
    AlignedSum(pos, |before|);
    ReadPair(buf, pos + |before|, kv);
    AlignedSum(|before|, |pair|);
    ParseOneMorePair(buf, pos, kvs, pos + |before|, pos + |before| + |pair|);
  }

  lemma ReadField(buf: seq<byte>, pos: nat, v: Value, k: Kind)
    requires Fits(v, k) && Aligned(pos) && At(buf, pos, FieldBytes(pos, v, k))
    ensures ParseField(buf, pos, k) == Parsed(v, pos + |FieldBytes(pos, v, k)|)
    ensures Aligned(|FieldBytes(pos, v, k)|)
  {
    hide At, U32Bytes, U64Bytes, ParseU32, ParseU64, StringBytes, ParseString;
    match v
    case VU32(w) => ReadU32(buf, pos, w);
    case VU64(l) => ReadU64(buf, pos, l);
    case VString(t) => ReadString(buf, pos, t);
    case VArrayU32(a) => ReadWordArray(buf, pos, a);
    case VArrayU64(a) => ReadLongArray(buf, pos, a);
    case VKvList(kvs) => ReadKvList(buf, pos, kvs);
  }

  lemma AlignedArray(n: nat)
    ensures Aligned(4 + 4 * n) && Aligned(4 + 8 * n)
  {
    assert 4 + 4 * n == 4 * (1 + n) && 4 + 8 * n == 4 * (1 + 2 * n);
  }

  lemma ReadWordArray(buf: seq<byte>, pos: nat, a: seq<u32>)
    requires |a| < U32_LIMIT && Aligned(pos) && At(buf, pos, FieldBytes(pos, VArrayU32(a), KArrayU32))
    ensures ParseField(buf, pos, KArrayU32) == Parsed(VArrayU32(a), pos + |FieldBytes(pos, VArrayU32(a), KArrayU32)|)
    ensures Aligned(|FieldBytes(pos, VArrayU32(a), KArrayU32)|)
  {
    hide At, WordsBytes, ParseU32, ParseWords, U32Bytes, Aligned;
    AtSplit(buf, pos, U32Bytes(|a|), WordsBytes(a));
    ReadU32(buf, pos, |a|);
    ReadWords(buf, pos + 4, a);
    AlignedArray(|a|);
  }

  lemma ReadLongArray(buf: seq<byte>, pos: nat, a: seq<u64>)
    requires |a| < U32_LIMIT && Aligned(pos) && At(buf, pos, FieldBytes(pos, VArrayU64(a), KArrayU64))
    ensures ParseField(buf, pos, KArrayU64) == Parsed(VArrayU64(a), pos + |FieldBytes(pos, VArrayU64(a), KArrayU64)|)
    ensures Aligned(|FieldBytes(pos, VArrayU64(a), KArrayU64)|)
  {
    hide At, LongsBytes, ParseU32, ParseLongs, U32Bytes, Aligned;
    AtSplit(buf, pos, U32Bytes(|a|), LongsBytes(a));
    ReadU32(buf, pos, |a|);
    ReadLongs(buf, pos + 4, a);
    AlignedArray(|a|);
  }

  lemma ReadKvList(buf: seq<byte>, pos: nat, kvs: seq<Kv>)
    requires Fits(VKvList(kvs), KKvList) && Aligned(pos) && At(buf, pos, FieldBytes(pos, VKvList(kvs), KKvList))
    ensures ParseField(buf, pos, KKvList) == Parsed(VKvList(kvs), pos + |FieldBytes(pos, VKvList(kvs), KKvList)|)
    ensures Aligned(|FieldBytes(pos, VKvList(kvs), KKvList)|)
  {
    hide At, PairsBytes, ParseU32, ParsePairs, U32Bytes;
    AtSplit(buf, pos, U32Bytes(|kvs|), PairsBytes(pos + 4, kvs));
    ReadU32(buf, pos, |kvs|);
    ReadPairs(buf, pos + 4, kvs);
  }

  lemma ParseOneMoreField(buf: seq<byte>, pos: nat, vs: seq<Value>, ks: seq<Kind>, q: nat, end: nat)
    requires vs != [] && |vs| == |ks|
    requires ParseFields(buf, pos, ks[..|ks| - 1]) == Parsed(vs[..|vs| - 1], q)
    requires ParseField(buf, q, ks[|ks| - 1]) == Parsed(vs[|vs| - 1], end)
    ensures ParseFields(buf, pos, ks) == Parsed(vs, end)
  {
    hide ParseField;
    assert vs == vs[..|vs| - 1] + [vs[|vs| - 1]];
  }

  lemma WriteOneMoreField(start: nat, vs: seq<Value>, ks: seq<Kind>)
    requires vs != [] && FitsAll(vs, ks)
    ensures var n := |vs| - 1; var before := MessageBytes(start, vs[..n], ks[..n]);
            MessageBytes(start, vs, ks) == before + FieldBytes(start + |before|, vs[n], ks[n])
  {
    hide FieldBytes, Fits;
  }

  lemma ReadNoFields(buf: seq<byte>, pos: nat, vs: seq<Value>, ks: seq<Kind>)
    requires vs == [] && FitsAll(vs, ks)
    ensures ParseFields(buf, pos, ks) == Parsed(vs, pos + |MessageBytes(pos, vs, ks)|)
    ensures Aligned(|MessageBytes(pos, vs, ks)|)
  {
  }

  lemma {:induction false} ReadFields(buf: seq<byte>, pos: nat, vs: seq<Value>, ks: seq<Kind>)
    requires FitsAll(vs, ks) && Aligned(pos) && At(buf, pos, MessageBytes(pos, vs, ks))
    ensures ParseFields(buf, pos, ks) == Parsed(vs, pos + |MessageBytes(pos, vs, ks)|)
    ensures Aligned(|MessageBytes(pos, vs, ks)|)
    decreases |vs|
  {
    hide FieldBytes, ParseField, MessageBytes, ParseFields, At, Aligned, Fits;
    if vs == [] {
      ReadNoFields(buf, pos, vs, ks);
      return;
    }
    WriteOneMoreField(pos, vs, ks);
    var n := |vs| - 1;
    var before := MessageBytes(pos, vs[..n], ks[..n]);
    var field := FieldBytes(pos + |before|, vs[n], ks[n]);
    AtSplit(buf, pos, before, field);
    ReadFields(buf, pos, vs[..n], ks[..n]);
    AlignedSum(pos, |before|);
    ReadField(buf, pos + |before|, vs[n], ks[n]);
    AlignedSum(|before|, |field|);
    ParseOneMoreField(buf, pos, vs, ks, pos + |before|, pos + |before| + |field|);
  }

  /** Codec round trip: whatever the field list, decoding what the encoder writes into an empty buffer returns
      the message and consumes everything. */
  lemma RoundTrip(vs: seq<Value>, ks: seq<Kind>)
    requires FitsAll(vs, ks)
    ensures ParseMessage(MessageBytes(0, vs, ks), ks) == Parsed(vs, |MessageBytes(0, vs, ks)|)
    ensures Aligned(|MessageBytes(0, vs, ks)|)
  {
    var b := MessageBytes(0, vs, ks);
    assert b[0..0 + |b|] == b;
    ReadFields(b, 0, vs, ks);
  }

  /** Consequently two messages of one type with the same bytes are the same message. */
  lemma EncodingIsInjective(a: seq<Value>, b: seq<Value>, ks: seq<Kind>)
    requires FitsAll(a, ks) && FitsAll(b, ks) && MessageBytes(0, a, ks) == MessageBytes(0, b, ks)
    ensures a == b
  {
    RoundTrip(a, ks);
    RoundTrip(b, ks);
  }

  /** The other direction fails: padding is not checked on the way in, so different bytes can mean the same. */
  lemma DecodingIsNotInjective()
    ensures exists b: seq<byte>, c: seq<byte> :: b != c && ParseMessage(b, [KString]).Parsed?
              && ParseMessage(b, [KString]) == ParseMessage(c, [KString])
  {
    var b: seq<byte> := [1, 0, 0, 0, 0, 0, 0, 0];
    var c: seq<byte> := [1, 0, 0, 0, 0, 9, 9, 9];
    assert b[7] != c[7];
    assert b[4..4] == [] && c[4..4] == [];
    assert ParseString(b, 0) == Parsed([], 8) && ParseString(c, 0) == Parsed([], 8);
    OneField(b, KString);
    OneField(c, KString);
    assert ParseMessage(b, [KString]) == Parsed([VString([])], 8) == ParseMessage(c, [KString]);
  }

  lemma OneField(buf: seq<byte>, k: Kind)
    ensures ParseFields(buf, 0, [k]) == match ParseField(buf, 0, k) case Bad(c) => Bad(c)
      case Parsed(v, p) => Parsed([v], p)
  {
    assert [k][..0] == [];
    assert ParseFields(buf, 0, [k][..0]) == Parsed([], 0);
    assert forall v: Value :: [] + [v] == [v];
  }

  /** Appending to a buffer that is not aligned, a string does not read back where it was written. */
  lemma MisalignedStringIsLost(buf: seq<byte>, pos: nat, t: Text)
    requires CString(t) && pos % 4 != 0 && At(buf, pos, StringBytes(pos, t))
    ensures ParseString(buf, pos) != Parsed(t, pos + |StringBytes(pos, t)|)
  {
    PaddingAgreesIffAligned(pos, t);
    AtSplit(buf, pos, U32Bytes(|t| + 1), t + [0] + Zeros(Pad(pos + 4 + |t| + 1)));
    ReadU32(buf, pos, |t| + 1);
  }
}
