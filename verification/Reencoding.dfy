/** Encoding what was decoded: which byte strings come back unchanged. `bridge/src/ipc_v1.c`. */
module Reencoding {
  import opened Bytes
  import opened Wire

  // ---------------------------------------------------------------
  // Canonical bytes

  /** The bytes of a string that parses at `pos` hold no NUL but the last, and its padding is all zero. */
  predicate CanonicalString(buf: seq<byte>, pos: nat)
    requires ParseString(buf, pos).Parsed?
  {
    var len: int := ParseU32(buf, pos).value;
    && (forall i | pos + 4 <= i < pos + 4 + len - 1 :: buf[i] != 0)
    && (forall i | pos + 4 + len <= i < pos + 4 + Padded(len) :: buf[i] == 0)
  }

  predicate CanonicalPair(buf: seq<byte>, pos: nat)
    requires ParsePair(buf, pos).Parsed?
  {
    CanonicalString(buf, pos) && CanonicalString(buf, ParseString(buf, pos).next)
  }

  predicate CanonicalPairs(buf: seq<byte>, pos: nat, n: nat)
    requires ParsePairs(buf, pos, n).Parsed?
  {
    n == 0 || (CanonicalPairs(buf, pos, n - 1) && CanonicalPair(buf, ParsePairs(buf, pos, n - 1).next))
  }

  predicate CanonicalField(buf: seq<byte>, pos: nat, k: Kind)
    requires ParseField(buf, pos, k).Parsed?
  {
    match k
    case KString => CanonicalString(buf, pos)
    case KKvList => CanonicalPairs(buf, pos + 4, ParseU32(buf, pos).value)
    case _ => true
  }

  /** Every pad byte is zero and no string has an inner NUL. */
  predicate Canonical(buf: seq<byte>, ks: seq<Kind>)
    requires ParseFields(buf, 0, ks).Parsed?
  {
    if ks == [] then true
    else
      var n := |ks| - 1;
      Canonical(buf, ks[..n]) && CanonicalField(buf, ParseFields(buf, 0, ks[..n]).next, ks[n])
  }

  // ---------------------------------------------------------------
  // Pieces

  /** An encoding no longer than the bytes it was decoded from, and equal to them exactly when they are canonical. */
  ghost predicate Reencodes(e: seq<byte>, buf: seq<byte>, pos: nat, end: nat, canonical: bool) {
    && pos <= end <= |buf| && Aligned(end - pos) && Aligned(|e|) && |e| <= end - pos
    && (e == buf[pos..end] <==> canonical)
  }

  lemma JoinPieces(e: seq<byte>, f: seq<byte>, buf: seq<byte>, pos: nat, mid: nat, end: nat, c: bool, d: bool)
    requires Reencodes(e, buf, pos, mid, c) && Reencodes(f, buf, mid, end, d)
    ensures Reencodes(e + f, buf, pos, end, c && d)
  {
    assert buf[pos..end] == buf[pos..mid] + buf[mid..end];
    AlignedSum(|e|, |f|);
    AlignedSum(mid - pos, end - mid);
    SumsEqual(e, f, buf[pos..mid], buf[mid..end]);
    hide Aligned;
  }

  lemma SumsEqual(e: seq<byte>, f: seq<byte>, x: seq<byte>, y: seq<byte>)
    requires |e| <= |x| && |f| <= |y|
    ensures e + f == x + y <==> e == x && f == y
  {
    if e + f == x + y {
      assert |e + f| == |x + y|;
      assert (e + f)[..|e|] == e && (x + y)[..|e|] == x;
      assert (e + f)[|e|..] == f && (x + y)[|e|..] == y;
    }
  }

  lemma NoPiece(buf: seq<byte>, pos: nat)
    requires pos <= |buf|
    ensures Reencodes([], buf, pos, pos, true)
  {
  }

  lemma WordAgain(buf: seq<byte>, pos: nat)
    requires ParseU32(buf, pos).Parsed?
    ensures Reencodes(U32Bytes(ParseU32(buf, pos).value), buf, pos, pos + 4, true) && ParseU32(buf, pos).next == pos + 4
  {
    hide U32Bytes, U32Of;
    var b := buf[pos..pos + 4];
    assert b[0] == buf[pos] && b[1] == buf[pos + 1] && b[2] == buf[pos + 2] && b[3] == buf[pos + 3];
    U32Spelled(b);
  }

  lemma U64Halves(low: u32, high: u32)
    ensures U64Bytes(low + U32_LIMIT * high) == U32Bytes(low) + U32Bytes(high)
  {
    hide U32Bytes;
    var (l: int, h: int) := (low, high);
    assert (l + U32_LIMIT * h) / U32_LIMIT == h && (l + U32_LIMIT * h) % U32_LIMIT == l;
  }

  lemma LongAgain(buf: seq<byte>, pos: nat)
    requires ParseU64(buf, pos).Parsed?
    ensures Reencodes(U64Bytes(ParseU64(buf, pos).value), buf, pos, pos + 8, true) && ParseU64(buf, pos).next == pos + 8
  {
    WordAgain(buf, pos);
    WordAgain(buf, pos + 4);
    var low, high := ParseU32(buf, pos).value, ParseU32(buf, pos + 4).value;
    assert ParseU64(buf, pos).value == low + U32_LIMIT * high;
    hide U32Bytes, U64Bytes, U32Of, ParseU32, ParseU64, Reencodes;
    U64Halves(low, high);
    JoinPieces(U32Bytes(low), U32Bytes(high), buf, pos, pos + 4, pos + 8, true, true);
  }

  /** The length of an encoded string and its padding do not depend on where it starts, as long as that is aligned. */
  lemma StringAnywhere(a: nat, b: nat, t: Text)
    requires Aligned(a) && Aligned(b) && |t| <= 0xffff_fffe
    ensures StringBytes(a, t) == StringBytes(b, t)
  {
    var len := |t| + 1;
    PadOf(a + 4 + len, a / 4 + 1 + len / 4, len % 4);
    PadOf(b + 4 + len, b / 4 + 1 + len / 4, len % 4);
    hide Pad;
    assert Pad(a + 4 + len) == Pad(b + 4 + len);
    assert a + 4 + |t| + 1 == a + 4 + len && b + 4 + |t| + 1 == b + 4 + len;
  }

  lemma PaddedGrows(a: nat, b: nat)
    requires a <= b
    ensures Padded(a) <= Padded(b)
  {
  }

  lemma StringAgain(buf: seq<byte>, pos: nat, start: nat)
    requires ParseString(buf, pos).Parsed? && Aligned(start)
    ensures var r := ParseString(buf, pos);
      CString(r.value) && Reencodes(StringBytes(start, r.value), buf, pos, r.next, CanonicalString(buf, pos))
  {
    var len: nat := ParseU32(buf, pos).value;
    StringPieces(buf, pos, len);
    var raw := buf[pos + 4..pos + 4 + len - 1];
    var t := UpToNul(raw);
    hide ParseU32, ParseString, CanonicalString, UpToNul, Reencodes, Aligned, StringBytes, Padded;
    StringAnywhere(start, 0, t);
    StringEqual(buf, pos, raw, t, len);
    LengthOfString(t);
    PaddedPiece(StringBytes(0, t), buf, pos, |t| + 1, len, CanonicalString(buf, pos));
  }

  lemma PaddedPiece(e: seq<byte>, buf: seq<byte>, pos: nat, n: nat, len: nat, c: bool)
    requires n <= len && pos + 4 + Padded(len) <= |buf| && |e| == 4 + Padded(n)
    requires e == buf[pos..pos + 4 + Padded(len)] <==> c
    ensures Reencodes(e, buf, pos, pos + 4 + Padded(len), c)
  {
    PaddedGrows(n, len);
    PaddedIsAligned(n);
    PaddedIsAligned(len);
    hide Padded, Aligned;
  }

  lemma LengthOfString(t: Text)
    requires |t| <= 0xffff_fffe
    ensures |StringBytes(0, t)| == 4 + Padded(|t| + 1)
  {
    PaddingAgreesIffAligned(0, t);
  }

  /** A string's bytes on the wire: length word, text, NUL, padding. */
  lemma StringPieces(buf: seq<byte>, pos: nat, len: nat)
    requires ParseString(buf, pos).Parsed? && len == ParseU32(buf, pos).value
    ensures var p := pos + 4;
      len > 0 && p + len <= p + Padded(len) <= |buf| && buf[p + len - 1] == 0
      && ParseString(buf, pos) == Parsed(UpToNul(buf[p..p + len - 1]), p + Padded(len))
      && buf[pos..p + Padded(len)] == U32Bytes(len) + buf[p..p + len - 1] + [0] + buf[p + len..p + Padded(len)]
  {
    var p, end := pos + 4, pos + 4 + Padded(len);
    WordAgain(buf, pos);
    hide U32Bytes, ParseU32;
    assert buf[pos..end] == buf[pos..p] + buf[p..p + len - 1] + buf[p + len - 1..p + len] + buf[p + len..end];
  }

  lemma SamePieces(word: seq<byte>, t: Text, z: seq<byte>, raw: Text, pad: seq<byte>)
    requires |t| == |raw|
    ensures word + t + [0] + z == word + raw + [0] + pad <==> t == raw && z == pad
  {
    var (a, b) := (word + t + [0] + z, word + raw + [0] + pad);
    var n := |word| + |t|;
    assert a[|word|..n] == t && b[|word|..n] == raw && a[n + 1..] == z && b[n + 1..] == pad;
  }

  lemma AllZero(pad: seq<byte>, n: nat)
    requires |pad| == n
    ensures pad == Zeros(n) <==> forall i | 0 <= i < n :: pad[i] == 0
  {
  }

  lemma CanonicalPieces(buf: seq<byte>, pos: nat, len: nat)
    requires ParseString(buf, pos).Parsed? && len == ParseU32(buf, pos).value
    ensures len > 0 && pos + 4 + len <= pos + 4 + Padded(len) <= |buf|
    ensures var p := pos + 4; var (raw, pad) := (buf[p..p + len - 1], buf[p + len..p + Padded(len)]);
      CanonicalString(buf, pos) <==> 0 !in raw && pad == Zeros(Padded(len) - len)
  {
    var p := pos + 4;
    var (raw, pad) := (buf[p..p + len - 1], buf[p + len..p + Padded(len)]);
    AllZero(pad, Padded(len) - len);
    assert forall i | 0 <= i < |raw| :: raw[i] == buf[p + i];
    assert forall i | p <= i < p + len - 1 :: buf[i] == raw[i - p];
    assert forall i | 0 <= i < |pad| :: pad[i] == buf[p + len + i];
    assert forall i | p + len <= i < p + Padded(len) :: buf[i] == pad[i - (p + len)];
  }

  /** The four pieces of an encoded string against the bytes it was read from. */
  lemma StringEqual(buf: seq<byte>, pos: nat, raw: Text, t: Text, len: nat)
    requires ParseString(buf, pos).Parsed? && len == ParseU32(buf, pos).value && len > 0
    requires pos + 4 + len - 1 <= |buf| && raw == buf[pos + 4..pos + 4 + len - 1] && t == UpToNul(raw)
    requires pos + 4 + Padded(len) <= |buf|
    ensures StringBytes(0, t) == buf[pos..pos + 4 + Padded(len)] <==> CanonicalString(buf, pos)
  {
    var p, end := pos + 4, pos + 4 + Padded(len);
    StringPieces(buf, pos, len);
    CanonicalPieces(buf, pos, len);
    PaddingAgreesIffAligned(0, t);
    var (z, pad) := (Zeros(Pad(0 + 4 + |t| + 1)), buf[p + len..end]);
    assert StringBytes(0, t) == U32Bytes(|t| + 1) + t + [0] + z;
    if StringBytes(0, t) == buf[pos..end] { SameLength(buf, pos, t, len); }
    hide U32Bytes, ParseU32, Pad, Padded, UpToNul, CanonicalString, ParseString, StringBytes;
    if |t| + 1 == len {
      SamePieces(U32Bytes(len), t, z, raw, pad);
    }
  }

  /** Equal encodings carry equal length words. */
  lemma SameLength(buf: seq<byte>, pos: nat, t: Text, len: int)
    requires ParseString(buf, pos).Parsed? && len == ParseU32(buf, pos).value && |t| <= 0xffff_fffe
    requires StringBytes(0, t) == buf[pos..pos + 4 + Padded(len)]
    ensures |t| + 1 == len
  {
    hide U32Bytes, U32Of;
    var b := StringBytes(0, t);
    assert b[..4] == U32Bytes(|t| + 1);
    assert b[..4] == buf[pos..pos + 4];
    ReadU32(buf, pos, |t| + 1);
  }

  // ---------------------------------------------------------------
  // Arrays and lists

  lemma {:induction false} WordsAgain(buf: seq<byte>, pos: nat, n: nat)
    requires pos <= |buf| && ParseWords(buf, pos, n).Parsed?
    ensures var r := ParseWords(buf, pos, n); Reencodes(WordsBytes(r.value), buf, pos, r.next, true)
    decreases n
  {
    hide U32Bytes, ParseU32, Reencodes;
    if n == 0 {
      NoPiece(buf, pos);
    } else {
      WordsAgain(buf, pos, n - 1);
      var before := ParseWords(buf, pos, n - 1);
      WordAgain(buf, before.next);
      var w := ParseU32(buf, before.next).value;
      JoinPieces(WordsBytes(before.value), U32Bytes(w), buf, pos, before.next, before.next + 4, true, true);
      assert (before.value + [w])[..n - 1] == before.value;
    }
  }

  lemma {:induction false} LongsAgain(buf: seq<byte>, pos: nat, n: nat)
    requires pos <= |buf| && ParseLongs(buf, pos, n).Parsed?
    ensures var r := ParseLongs(buf, pos, n); Reencodes(LongsBytes(r.value), buf, pos, r.next, true)
    decreases n
  {
    hide U64Bytes, ParseU64, Reencodes;
    if n == 0 {
      NoPiece(buf, pos);
    } else {
      LongsAgain(buf, pos, n - 1);
      var before := ParseLongs(buf, pos, n - 1);
      LongAgain(buf, before.next);
      var w := ParseU64(buf, before.next).value;
      JoinPieces(LongsBytes(before.value), U64Bytes(w), buf, pos, before.next, before.next + 8, true, true);
      assert (before.value + [w])[..n - 1] == before.value;
    }
  }

  lemma AlignedPiece(e: seq<byte>, buf: seq<byte>, pos: nat, end: nat, c: bool, start: nat)
    requires Reencodes(e, buf, pos, end, c) && Aligned(start)
    ensures Aligned(start + |e|)
  {
  }

  lemma PairAgain(buf: seq<byte>, pos: nat, start: nat)
    requires ParsePair(buf, pos).Parsed? && Aligned(start)
    ensures var r := ParsePair(buf, pos);
      CString(r.value.key) && CString(r.value.value)
      && Reencodes(PairBytes(start, r.value), buf, pos, r.next, CanonicalPair(buf, pos))
  {
    hide StringBytes, ParseString, CanonicalString, Reencodes, Aligned;
    var key := ParseString(buf, pos);
    StringAgain(buf, pos, start);
    var e := StringBytes(start, key.value);
    AlignedPiece(e, buf, pos, key.next, CanonicalString(buf, pos), start);
    var value := ParseString(buf, key.next);
    StringAgain(buf, key.next, start + |e|);
    JoinPieces(e, StringBytes(start + |e|, value.value), buf, pos, key.next, value.next,
               CanonicalString(buf, pos), CanonicalString(buf, key.next));
  }

  lemma CStringsSnoc(kvs: seq<Kv>, kv: Kv)
    requires CStrings(kvs) && CString(kv.key) && CString(kv.value)
    ensures CStrings(kvs + [kv])
  {
    hide CString;
  }

  lemma {:induction false} PairsAgain(buf: seq<byte>, pos: nat, n: nat, start: nat)
    requires pos <= |buf| && ParsePairs(buf, pos, n).Parsed? && Aligned(start)
    ensures var r := ParsePairs(buf, pos, n);
      CStrings(r.value) && Reencodes(PairsBytes(start, r.value), buf, pos, r.next, CanonicalPairs(buf, pos, n))
    decreases n
  {
    hide PairBytes, ParsePair, CanonicalPair, Reencodes, Aligned;
    if n == 0 {
      NoPiece(buf, pos);
    } else {
      PairsAgain(buf, pos, n - 1, start);
      var before := ParsePairs(buf, pos, n - 1);
      var e := PairsBytes(start, before.value);
      AlignedPiece(e, buf, pos, before.next, CanonicalPairs(buf, pos, n - 1), start);
      PairAgain(buf, before.next, start + |e|);
      var r := ParsePair(buf, before.next);
      CStringsSnoc(before.value, r.value);
      JoinPieces(e, PairBytes(start + |e|, r.value), buf, pos, before.next, r.next,
                 CanonicalPairs(buf, pos, n - 1), CanonicalPair(buf, before.next));
      var all := before.value + [r.value];
      assert all[..n - 1] == before.value;
    }
  }

  // ---------------------------------------------------------------
  // Fields and messages

  lemma FieldAgain(buf: seq<byte>, pos: nat, k: Kind, start: nat)
    requires pos <= |buf| && ParseField(buf, pos, k).Parsed? && Aligned(start)
    ensures var r := ParseField(buf, pos, k);
      Fits(r.value, k) && Reencodes(FieldBytes(start, r.value, k), buf, pos, r.next, CanonicalField(buf, pos, k))
  {
    hide U32Bytes, U64Bytes, ParseU32, ParseU64, ParseString, StringBytes, Reencodes, Aligned, WordsBytes, LongsBytes,
         PairsBytes, ParseWords, ParseLongs, ParsePairs, CanonicalString, CanonicalPairs, CStrings, CString;
    match k
    case KU32 => WordAgain(buf, pos);
    case KU64 => LongAgain(buf, pos);
    case KString => StringAgain(buf, pos, start);
    case KArrayU32 => ArrayU32Again(buf, pos);
    case KArrayU64 => ArrayU64Again(buf, pos);
    case KKvList => KvListAgain(buf, pos, start);
  }

  lemma ArrayU32Again(buf: seq<byte>, pos: nat)
    requires ParseField(buf, pos, KArrayU32).Parsed?
    ensures var r := ParseField(buf, pos, KArrayU32);
      r.value.VArrayU32? && |r.value.words| < U32_LIMIT
      && Reencodes(U32Bytes(|r.value.words|) + WordsBytes(r.value.words), buf, pos, r.next, true)
  {
    hide U32Bytes, ParseU32, Reencodes, WordsBytes, ParseWords;
    WordAgain(buf, pos);
    PieceInside(U32Bytes(ParseU32(buf, pos).value), buf, pos, pos + 4, true);
    var n := ParseU32(buf, pos).value;
    WordsAgain(buf, pos + 4, n);
    var a := ParseWords(buf, pos + 4, n);
    JoinPieces(U32Bytes(n), WordsBytes(a.value), buf, pos, pos + 4, a.next, true, true);
  }

  lemma ArrayU64Again(buf: seq<byte>, pos: nat)
    requires ParseField(buf, pos, KArrayU64).Parsed?
    ensures var r := ParseField(buf, pos, KArrayU64);
      r.value.VArrayU64? && |r.value.longs| < U32_LIMIT
      && Reencodes(U32Bytes(|r.value.longs|) + LongsBytes(r.value.longs), buf, pos, r.next, true)
  {
    hide U32Bytes, ParseU32, Reencodes, LongsBytes, ParseLongs;
    WordAgain(buf, pos);
    PieceInside(U32Bytes(ParseU32(buf, pos).value), buf, pos, pos + 4, true);
    var n := ParseU32(buf, pos).value;
    LongsAgain(buf, pos + 4, n);
    var a := ParseLongs(buf, pos + 4, n);
    JoinPieces(U32Bytes(n), LongsBytes(a.value), buf, pos, pos + 4, a.next, true, true);
  }

  lemma KvListAgain(buf: seq<byte>, pos: nat, start: nat)
    requires ParseField(buf, pos, KKvList).Parsed? && Aligned(start)
    ensures var r := ParseField(buf, pos, KKvList);
      r.value.VKvList? && |r.value.pairs| < U32_LIMIT && CStrings(r.value.pairs) && Writable(r.value.pairs)
      && Reencodes(U32Bytes(|r.value.pairs|) + PairsBytes(start + 4, r.value.pairs), buf, pos, r.next,
        CanonicalField(buf, pos, KKvList))
  {
    hide U32Bytes, ParseU32, Reencodes, PairsBytes, ParsePairs, CanonicalPairs;
    WordAgain(buf, pos);
    PieceInside(U32Bytes(ParseU32(buf, pos).value), buf, pos, pos + 4, true);
    var n := ParseU32(buf, pos).value;
    PairsAgain(buf, pos + 4, n, start + 4);
    var a := ParsePairs(buf, pos + 4, n);
    JoinPieces(U32Bytes(n), PairsBytes(start + 4, a.value), buf, pos, pos + 4, a.next, true,
      CanonicalPairs(buf, pos + 4, n));
  }

  lemma PieceInside(e: seq<byte>, buf: seq<byte>, pos: nat, end: nat, c: bool)
    requires Reencodes(e, buf, pos, end, c)
    ensures pos <= end <= |buf|
  {
  }

  lemma FitsSnoc(vs: seq<Value>, ks: seq<Kind>, v: Value)
    requires ks != [] && FitsAll(vs, ks[..|ks| - 1]) && Fits(v, ks[|ks| - 1])
    ensures FitsAll(vs + [v], ks)
  {
    hide Fits;
    var n := |ks| - 1;
    forall i | 0 <= i < |ks| ensures Fits((vs + [v])[i], ks[i]) {
      if i < n { assert ks[..n][i] == ks[i]; }
    }
  }

  lemma {:induction false} FieldsAgain(buf: seq<byte>, ks: seq<Kind>)
    requires ParseFields(buf, 0, ks).Parsed?
    ensures var r := ParseFields(buf, 0, ks);
      FitsAll(r.value, ks) && Reencodes(MessageBytes(0, r.value, ks), buf, 0, r.next, Canonical(buf, ks))
    decreases |ks|
  {
    hide FieldBytes, ParseField, CanonicalField, Reencodes, Aligned, Fits;
    NoPiece(buf, 0);
    if ks != [] {
      var n := |ks| - 1;
      FieldsAgain(buf, ks[..n]);
      var before := ParseFields(buf, 0, ks[..n]);
      var e := MessageBytes(0, before.value, ks[..n]);
      PieceInside(e, buf, 0, before.next, Canonical(buf, ks[..n]));
      ZeroIsAligned();
      AlignedPiece(e, buf, 0, before.next, Canonical(buf, ks[..n]), 0);
      FieldAgain(buf, before.next, ks[n], |e|);
      var r := ParseField(buf, before.next, ks[n]);
      FitsSnoc(before.value, ks, r.value);
      JoinPieces(e, FieldBytes(|e|, r.value, ks[n]), buf, 0, before.next, r.next,
                 Canonical(buf, ks[..n]), CanonicalField(buf, before.next, ks[n]));
      assert (before.value + [r.value])[..n] == before.value;
    }
  }

  lemma ZeroIsAligned()
    ensures Aligned(0)
  {
  }

  /** Whatever decodes is a message its encoder accepts, and encoding it gives the same bytes back exactly when
      they were canonical: all padding zero, no NUL inside a string. */
  lemma ReencodesIffCanonical(buf: seq<byte>, ks: seq<Kind>)
    requires ParseMessage(buf, ks).Parsed?
    ensures var vs := ParseMessage(buf, ks).value;
      FitsAll(vs, ks) && (MessageBytes(0, vs, ks) == buf <==> Canonical(buf, ks))
      && |MessageBytes(0, vs, ks)| <= |buf|
  {
    hide ParseFields, MessageBytes, Canonical, FitsAll;
    FieldsAgain(buf, ks);
    assert buf[0..|buf|] == buf;
  }

  /** Two different byte strings with one meaning differ in padding, or in what follows a NUL: canonical bytes
      are determined by the message. */
  lemma CanonicalIsUnique(a: seq<byte>, b: seq<byte>, ks: seq<Kind>)
    requires ParseMessage(a, ks).Parsed? && ParseMessage(b, ks).Parsed?
    requires ParseMessage(a, ks).value == ParseMessage(b, ks).value && Canonical(a, ks) && Canonical(b, ks)
    ensures a == b
  {
    ReencodesIffCanonical(a, ks);
    ReencodesIffCanonical(b, ks);
  }
}
