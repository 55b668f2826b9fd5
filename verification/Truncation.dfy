/** What the decoders make of a message that was cut short or has something after it. `bridge/src/ipc_v1.c`. */
module Truncation {
  import opened Bytes
  import opened Wire

  /** The buffer ends inside `b`, which started at `pos`. */
  ghost predicate CutIn(buf: seq<byte>, pos: nat, b: seq<byte>) {
    pos <= |buf| < pos + |b| && buf[pos..] == b[..|buf| - pos]
  }

  /** Two pieces, cut: in the first, or in the second with the first one whole. */
  lemma CutSplit(buf: seq<byte>, pos: nat, a: seq<byte>, b: seq<byte>)
    requires CutIn(buf, pos, a + b)
    ensures CutIn(buf, pos, a) || (At(buf, pos, a) && CutIn(buf, pos + |a|, b))
  {
    var s := buf[pos..];
    if |s| < |a| {
      assert s == a[..|s|];
    } else {
      assert s[..|a|] == a && s[|a|..] == b[..|s| - |a|];
      assert s[..|a|] == buf[pos..pos + |a|] && s[|a|..] == buf[pos + |a|..];
    }
  }

  lemma ShortU32(buf: seq<byte>, pos: nat, w: u32)
    requires CutIn(buf, pos, U32Bytes(w))
    ensures ParseU32(buf, pos) == Bad(WW_ERR_SHORT)
  {
  }

  lemma ShortString(buf: seq<byte>, pos: nat, t: Text)
    requires CString(t) && Aligned(pos) && CutIn(buf, pos, StringBytes(pos, t))
    ensures ParseString(buf, pos) == Bad(WW_ERR_SHORT)
  {
    hide U32Bytes, ParseU32, Pad, Padded, Zeros;
    var tail := t + [0] + Zeros(Pad(pos + 4 + |t| + 1));
    assert StringBytes(pos, t) == U32Bytes(|t| + 1) + tail;
    PaddingAgreesIffAligned(pos, t);
    CutSplit(buf, pos, U32Bytes(|t| + 1), tail);
    if CutIn(buf, pos, U32Bytes(|t| + 1)) {
      ShortU32(buf, pos, |t| + 1);
    } else {
      ReadU32(buf, pos, |t| + 1);
    }
    hide CutIn, At;
  }

  /** Words need their bytes, whatever these are. */
  lemma {:induction false} ShortWords(buf: seq<byte>, pos: nat, n: nat)
    requires pos <= |buf|
    ensures if pos + 4 * n <= |buf| then ParseWords(buf, pos, n).Parsed? && ParseWords(buf, pos, n).next == pos + 4 * n
            else ParseWords(buf, pos, n) == Bad(WW_ERR_SHORT)
    decreases n
  {
    if n > 0 { ShortWords(buf, pos, n - 1); }
  }

  lemma {:induction false} ShortLongs(buf: seq<byte>, pos: nat, n: nat)
    requires pos <= |buf|
    ensures if pos + 8 * n <= |buf| then ParseLongs(buf, pos, n).Parsed? && ParseLongs(buf, pos, n).next == pos + 8 * n
            else ParseLongs(buf, pos, n) == Bad(WW_ERR_SHORT)
    decreases n
  {
    if n > 0 { ShortLongs(buf, pos, n - 1); }
  }

  lemma ShortPair(buf: seq<byte>, pos: nat, kv: Kv)
    requires CString(kv.key) && CString(kv.value) && Aligned(pos) && CutIn(buf, pos, PairBytes(pos, kv))
    ensures ParsePair(buf, pos) == Bad(WW_ERR_SHORT)
  {
    hide StringBytes, ParseString, At, Aligned, CutIn;
    var key := StringBytes(pos, kv.key);
    CutSplit(buf, pos, key, StringBytes(pos + |key|, kv.value));
    if CutIn(buf, pos, key) {
      ShortString(buf, pos, kv.key);
    } else {
      ReadString(buf, pos, kv.key);
      AlignedSum(pos, |key|);
      ShortString(buf, pos + |key|, kv.value);
    }
  }

  lemma {:induction false} ShortPairs(buf: seq<byte>, pos: nat, kvs: seq<Kv>)
    requires CStrings(kvs) && Aligned(pos) && CutIn(buf, pos, PairsBytes(pos, kvs))
    ensures ParsePairs(buf, pos, |kvs|) == Bad(WW_ERR_SHORT)
    decreases |kvs|
  {
    NoPairsToCut(buf, pos, kvs);
    hide PairBytes, PairsBytes, ParsePairs, At, Aligned, CutIn;
    var init := kvs[..|kvs| - 1];
    if CutIn(buf, pos, PairsBytes(pos, init)) {
      ShortPairs(buf, pos, init);
      PairsStop(buf, pos, |kvs|);
    } else {
      ShortLastPair(buf, pos, kvs);
    }
  }

  lemma ShortLastPair(buf: seq<byte>, pos: nat, kvs: seq<Kv>)
    requires CStrings(kvs) && Aligned(pos) && kvs != [] && CutIn(buf, pos, PairsBytes(pos, kvs))
    requires !CutIn(buf, pos, PairsBytes(pos, kvs[..|kvs| - 1]))
    ensures ParsePairs(buf, pos, |kvs|) == Bad(WW_ERR_SHORT)
  {
    hide PairBytes, ParsePair, PairsBytes, ParsePairs, At, Aligned, CutIn;
    var init, kv := kvs[..|kvs| - 1], kvs[|kvs| - 1];
    var before := PairsBytes(pos, init);
    WriteOneMorePair(pos, kvs);
    CutSplit(buf, pos, before, PairBytes(pos + |before|, kv));
    ReadPairs(buf, pos, init);
    AlignedSum(pos, |before|);
    ShortPair(buf, pos + |before|, kv);
    PairsStop(buf, pos, |kvs|);
  }

  lemma PairsStop(buf: seq<byte>, pos: nat, n: nat)
    requires n > 0
    ensures ParsePairs(buf, pos, n - 1).Bad? ==> ParsePairs(buf, pos, n) == Bad(ParsePairs(buf, pos, n - 1).code)
    ensures ParsePairs(buf, pos, n - 1).Parsed? ==>
      var p := ParsePair(buf, ParsePairs(buf, pos, n - 1).next); p.Bad? ==> ParsePairs(buf, pos, n) == Bad(p.code)
  {
    hide ParsePair;
  }

  lemma FieldsStop(buf: seq<byte>, pos: nat, ks: seq<Kind>)
    requires ks != []
    ensures var before := ParseFields(buf, pos, ks[..|ks| - 1]);
      && (before.Bad? ==> ParseFields(buf, pos, ks) == Bad(before.code))
      && (before.Parsed? ==>
            var p := ParseField(buf, before.next, ks[|ks| - 1]); p.Bad? ==> ParseFields(buf, pos, ks) == Bad(p.code))
  {
    hide ParseField;
  }

  lemma NoPairsToCut(buf: seq<byte>, pos: nat, kvs: seq<Kv>)
    requires CStrings(kvs) && CutIn(buf, pos, PairsBytes(pos, kvs))
    ensures kvs != []
  {
  }

  lemma ShortField(buf: seq<byte>, pos: nat, v: Value, k: Kind)
    requires Fits(v, k) && Aligned(pos) && CutIn(buf, pos, FieldBytes(pos, v, k))
    ensures ParseField(buf, pos, k) == Bad(WW_ERR_SHORT)
  {
    match v
    case VU32(w) => ShortU32(buf, pos, w);
    case VU64(l) =>
    case VString(t) => hide StringBytes, ParseString; ShortString(buf, pos, t);
    case VArrayU32(a) => ShortWordArray(buf, pos, a);
    case VArrayU64(a) => ShortLongArray(buf, pos, a);
    case VKvList(kvs) => ShortKvList(buf, pos, kvs);
  }

  lemma ShortWordArray(buf: seq<byte>, pos: nat, a: seq<u32>)
    requires |a| < U32_LIMIT && CutIn(buf, pos, FieldBytes(pos, VArrayU32(a), KArrayU32))
    ensures ParseField(buf, pos, KArrayU32) == Bad(WW_ERR_SHORT)
  {
    hide WordsBytes, ParseU32, ParseWords, U32Bytes;
    CutSplit(buf, pos, U32Bytes(|a|), WordsBytes(a));
    ReadWords(WordsBytes(a), 0, a);
    if CutIn(buf, pos, U32Bytes(|a|)) {
      ShortU32(buf, pos, |a|);
    } else {
      ReadU32(buf, pos, |a|);
      ShortWords(buf, pos + 4, |a|);
    }
  }

  lemma ShortLongArray(buf: seq<byte>, pos: nat, a: seq<u64>)
    requires |a| < U32_LIMIT && CutIn(buf, pos, FieldBytes(pos, VArrayU64(a), KArrayU64))
    ensures ParseField(buf, pos, KArrayU64) == Bad(WW_ERR_SHORT)
  {
    hide LongsBytes, ParseU32, ParseLongs, U32Bytes;
    CutSplit(buf, pos, U32Bytes(|a|), LongsBytes(a));
    ReadLongs(LongsBytes(a), 0, a);
    if CutIn(buf, pos, U32Bytes(|a|)) {
      ShortU32(buf, pos, |a|);
    } else {
      ReadU32(buf, pos, |a|);
      ShortLongs(buf, pos + 4, |a|);
    }
  }

  lemma ShortKvList(buf: seq<byte>, pos: nat, kvs: seq<Kv>)
    requires Fits(VKvList(kvs), KKvList) && Aligned(pos) && CutIn(buf, pos, FieldBytes(pos, VKvList(kvs), KKvList))
    ensures ParseField(buf, pos, KKvList) == Bad(WW_ERR_SHORT)
  {
    hide PairsBytes, ParseU32, ParsePairs, U32Bytes, CutIn, At;
    CutSplit(buf, pos, U32Bytes(|kvs|), PairsBytes(pos + 4, kvs));
    if CutIn(buf, pos, U32Bytes(|kvs|)) {
      ShortU32(buf, pos, |kvs|);
    } else {
      ReadU32(buf, pos, |kvs|);
      ShortPairs(buf, pos + 4, kvs);
    }
  }

  lemma {:induction false} ShortFields(buf: seq<byte>, pos: nat, vs: seq<Value>, ks: seq<Kind>)
    requires FitsAll(vs, ks) && Aligned(pos) && CutIn(buf, pos, MessageBytes(pos, vs, ks))
    ensures ParseFields(buf, pos, ks) == Bad(WW_ERR_SHORT)
    decreases |vs|
  {
    NoFieldsToCut(buf, pos, vs, ks);
    hide MessageBytes, ParseFields, At, Aligned, Fits, CutIn;
    var n := |vs| - 1;
    if CutIn(buf, pos, MessageBytes(pos, vs[..n], ks[..n])) {
      ShortFields(buf, pos, vs[..n], ks[..n]);
      FieldsStop(buf, pos, ks);
    } else {
      ShortLastField(buf, pos, vs, ks);
    }
  }

  lemma ShortLastField(buf: seq<byte>, pos: nat, vs: seq<Value>, ks: seq<Kind>)
    requires FitsAll(vs, ks) && Aligned(pos) && vs != [] && CutIn(buf, pos, MessageBytes(pos, vs, ks))
    requires var n := |vs| - 1; !CutIn(buf, pos, MessageBytes(pos, vs[..n], ks[..n]))
    ensures ParseFields(buf, pos, ks) == Bad(WW_ERR_SHORT)
  {
    hide FieldBytes, ParseField, MessageBytes, ParseFields, At, Aligned, Fits, CutIn;
    var n := |vs| - 1;
    var before := MessageBytes(pos, vs[..n], ks[..n]);
    WriteOneMoreField(pos, vs, ks);
    CutSplit(buf, pos, before, FieldBytes(pos + |before|, vs[n], ks[n]));
    ReadFields(buf, pos, vs[..n], ks[..n]);
    AlignedSum(pos, |before|);
    ShortField(buf, pos + |before|, vs[n], ks[n]);
    FieldsStop(buf, pos, ks);
  }

  lemma NoFieldsToCut(buf: seq<byte>, pos: nat, vs: seq<Value>, ks: seq<Kind>)
    requires FitsAll(vs, ks) && CutIn(buf, pos, MessageBytes(pos, vs, ks))
    ensures vs != []
  {
  }

  /** An encoded message that was cut short is refused as short, wherever it was cut. */
  lemma CutMessageIsShort(vs: seq<Value>, ks: seq<Kind>, n: nat)
    requires FitsAll(vs, ks) && n < |MessageBytes(0, vs, ks)|
    ensures ParseMessage(MessageBytes(0, vs, ks)[..n], ks) == Bad(WW_ERR_SHORT)
  {
    hide MessageBytes, ParseFields, FitsAll;
    var buf := MessageBytes(0, vs, ks)[..n];
    assert buf[0..] == buf;
    ShortFields(buf, 0, vs, ks);
  }

  /** An encoded message with anything after it is refused for that. */
  lemma LongMessageTrails(vs: seq<Value>, ks: seq<Kind>, more: seq<byte>)
    requires FitsAll(vs, ks) && more != []
    ensures ParseMessage(MessageBytes(0, vs, ks) + more, ks) == Bad(WW_ERR_TRAILING)
  {
    hide MessageBytes, ParseFields, FitsAll;
    var buf := MessageBytes(0, vs, ks) + more;
    assert buf[0..0 + |MessageBytes(0, vs, ks)|] == MessageBytes(0, vs, ks);
    ReadFields(buf, 0, vs, ks);
  }

  /** A string that claims no byte at all, or whose last byte is not NUL, is a bad string. */
  lemma BadStrings(buf: seq<byte>, pos: nat, len: u32)
    requires At(buf, pos, U32Bytes(len)) && pos + 4 + Padded(len) <= |buf|
    ensures ParseString(buf, pos) == Bad(WW_ERR_BAD_STRING) <==> len == 0 || buf[pos + 4 + len - 1] != 0
  {
    hide U32Bytes, ParseU32;
    ReadU32(buf, pos, len);
  }

  // ---------------------------------------------------------------
  // Messages of words and longs only

  function FixedSize(ks: seq<Kind>): nat {
    if ks == [] then 0 else FixedSize(ks[1..]) + if ks[0] == KU64 then 8 else 4
  }

  predicate AllFixed(ks: seq<Kind>) {
    forall i | 0 <= i < |ks| :: ks[i] == KU32 || ks[i] == KU64
  }

  lemma {:induction false} FixedSizeSnoc(ks: seq<Kind>)
    requires ks != []
    ensures FixedSize(ks) == FixedSize(ks[..|ks| - 1]) + if ks[|ks| - 1] == KU64 then 8 else 4
    decreases |ks|
  {
    if |ks| > 1 {
      FixedSizeSnoc(ks[1..]);
      assert ks[1..][..|ks| - 2] == ks[..|ks| - 1][1..];
    } else {
      assert ks[..0] == [] && ks[1..] == [];
    }
  }

  lemma {:induction false} FixedFields(buf: seq<byte>, ks: seq<Kind>)
    requires AllFixed(ks)
    ensures if FixedSize(ks) <= |buf|
            then ParseFields(buf, 0, ks).Parsed? && ParseFields(buf, 0, ks).next == FixedSize(ks)
            else ParseFields(buf, 0, ks) == Bad(WW_ERR_SHORT)
    decreases |ks|
  {
    if ks != [] {
      FixedSizeSnoc(ks);
      FixedFields(buf, ks[..|ks| - 1]);
    }
  }

  /** Such a message is accepted exactly when it has the right size, whatever its bytes. */
  lemma FixedMessage(buf: seq<byte>, ks: seq<Kind>)
    requires AllFixed(ks)
    ensures ParseMessage(buf, ks).Parsed? <==> |buf| == FixedSize(ks)
    ensures |buf| < FixedSize(ks) ==> ParseMessage(buf, ks) == Bad(WW_ERR_SHORT)
    ensures |buf| > FixedSize(ks) ==> ParseMessage(buf, ks) == Bad(WW_ERR_TRAILING)
  {
    hide ParseFields, FixedSize;
    FixedFields(buf, ks);
  }

  // ---------------------------------------------------------------
  // The layout itself

  /** The least significant byte comes first. */
  lemma LittleEndian(h: u16, w: u32, l: u64)
    ensures U16Bytes(h)[0] == h % 256 && U32Bytes(w)[0] == w % 256 && U64Bytes(l)[0] == l % 256
    ensures U32Bytes(0x0403_0201) == [1, 2, 3, 4] && U64Bytes(0x0807_0605_0403_0201) == [1, 2, 3, 4, 5, 6, 7, 8]
    ensures U16Bytes(0x0201) == [1, 2]
  {
    var q: int := l / U32_LIMIT;
    assert l == 256 * (0x100_0000 * q) + l % U32_LIMIT;
  }

  /** A string is its length with the NUL, its bytes, the NUL, and zeros to the next multiple of four, no more. */
  lemma StringLayout(start: nat, t: Text)
    requires |t| <= 0xffff_fffe
    ensures var b := StringBytes(start, t);
      && |b| < |t| + 9 && (start + |b|) % 4 == 0
      && b[..4] == U32Bytes(|t| + 1) && b[4..4 + |t|] == t && forall i | 4 + |t| <= i < |b| :: b[i] == 0
  {
    hide U32Bytes;
    var n := start + 4 + |t| + 1;
    assert (n + Pad(n)) % 4 == 0 by { PadOf(n, n / 4, n % 4); }
  }

  /** Words and longs stand one after the other, and a key before its value. */
  lemma ElementLayout(a: seq<u32>, b: seq<u64>, kv: Kv, start: nat, i: nat)
    requires |kv.key| <= 0xffff_fffe && |kv.value| <= 0xffff_fffe
    ensures i < |a| ==> At(WordsBytes(a), 4 * i, U32Bytes(a[i]))
    ensures i < |b| ==> At(LongsBytes(b), 8 * i, U64Bytes(b[i]))
    ensures At(PairBytes(start, kv), 0, StringBytes(start, kv.key))
  {
    if i < |a| { WordAt(a, i); }
    if i < |b| { LongAt(b, i); }
    hide StringBytes;
  }

  lemma {:induction false} WordAt(a: seq<u32>, i: nat)
    requires i < |a|
    ensures |WordsBytes(a)| == 4 * |a| && At(WordsBytes(a), 4 * i, U32Bytes(a[i]))
    decreases |a|
  {
    hide U32Bytes;
    var init := a[..|a| - 1];
    ReadWords(WordsBytes(init), 0, init);
    if i < |a| - 1 { WordAt(init, i); }
  }

  lemma {:induction false} LongAt(a: seq<u64>, i: nat)
    requires i < |a|
    ensures |LongsBytes(a)| == 8 * |a| && At(LongsBytes(a), 8 * i, U64Bytes(a[i]))
    decreases |a|
  {
    hide U64Bytes;
    var init := a[..|a| - 1];
    ReadLongs(LongsBytes(init), 0, init);
    if i < |a| - 1 { LongAt(init, i); }
  }
}
