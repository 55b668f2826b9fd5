/** The encoders as they run: an output buffer that grows by allocations that may fail. `bridge/src/ipc_v1.c`. */
module Codec {
  import opened Bytes
  import opened Wire

  // The messages of the protocol, field by field.
  function Init(): seq<Kind> { [KU32, KKvList, KString] }
  function SettingChanged(): seq<Kind> { [KKvList] }
  function NegotiateBuffers(): seq<Kind> { [KU32, KU64, KU32, KU32, KU32, KU32, KU32, KU32, KU32] }
  function BindBuffers(): seq<Kind> {
    [KU64, KU32, KU32, KU32, KU32, KU32, KU64, KU32, KArrayU32, KArrayU32, KArrayU64]
  }
  function FrameReady(): seq<Kind> { [KU32, KU64, KU64, KU64] }
  function FormatCaps(): seq<Kind> {
    [KArrayU32, KArrayU32, KArrayU64, KArrayU32, KArrayU32, KArrayU32, KU32, KU32, KU32, KU32, KU32, KU32, KU32]
  }
  function BindFailed(): seq<Kind> { [KU32, KU64, KU32, KString] }
  function InitNack(): seq<Kind> { [KU32, KU32, KString] }
  function ReportState(): seq<Kind> { [KKvList] }
  function PointerMotion(): seq<Kind> { [KU32, KU32, KU64, KU32] }
  function PointerButton(): seq<Kind> { [KU32, KU32, KU32, KU32, KU64, KU32] }
  function PointerAxis(): seq<Kind> { [KU32, KU32, KU32, KU32, KU32, KU64, KU32] }
  function SetFps(): seq<Kind> { [KU32] }
  function Ready(): seq<Kind> { [KU32, KU32] }
  function ErrorReport(): seq<Kind> { [KString] }
  function Empty(): seq<Kind> { [] }

  const SIZE_MAX := U64_LIMIT - 1

  // ---------------------------------------------------------------
  // The output buffer

  /** `ww_buf_t`: storage of `data.Length` bytes of which the first `len` are in use. */
  class Buf {
    var data: array<byte>
    var len: nat
    ghost var contents: seq<byte>  // the bytes in use
    ghost var refusals: nat        // requests for memory that came back empty

    ghost predicate Valid()
      reads this, data
    {
      len <= data.Length && contents == data[..len]
    }

    constructor ()
      ensures Valid() && fresh(data) && contents == []
    {
      data := new byte[0];
      len := 0;
      contents, refusals := [], 0;
    }

    /** Doubles the capacity until the bytes fit; on failure nothing changes. */
    method Reserve(additional: nat) returns (rc: int)
      requires Valid()
      modifies this
      ensures Valid() && contents == old(contents) && len == old(len)
      ensures data == old(data) || fresh(data)
      ensures rc in {WW_OK, WW_ERR_OVERFLOW, WW_ERR_NOMEM}
      ensures rc == WW_OK ==> len + additional <= data.Length
      ensures rc != WW_OK ==> data == old(data)
      ensures rc == WW_ERR_OVERFLOW ==> len + additional > SIZE_MAX / 2
      ensures rc == WW_ERR_NOMEM ==> len + additional > old(data).Length
      ensures refusals >= old(refusals) && (refusals > old(refusals) <==> rc == WW_ERR_NOMEM)
    {
      if additional > SIZE_MAX - len { return WW_ERR_OVERFLOW; }
      var need := len + additional;
      if need > data.Length {
        var newCap := if data.Length != 0 then data.Length else 64;
        while newCap < need
          invariant newCap > 0
          decreases need - newCap
        {
          if newCap > SIZE_MAX / 2 { return WW_ERR_OVERFLOW; }
          newCap := newCap * 2;
        }
        var failed: bool := *;
        if failed {
          refusals := refusals + 1;
          return WW_ERR_NOMEM;
        }
        var bigger := new byte[newCap];
        forall i | 0 <= i < len {
          bigger[i] := data[i];
        }
        data := bigger;
      }
      return WW_OK;
    }

    method WriteBytes(src: seq<byte>) returns (rc: int)
      requires Valid()
      modifies this, data
      ensures Valid() && (data == old(data) || fresh(data))
      ensures rc == WW_OK ==> contents == old(contents) + src
      ensures rc != WW_OK ==> contents == old(contents)
      ensures rc in {WW_OK, WW_ERR_OVERFLOW, WW_ERR_NOMEM}
      ensures refusals >= old(refusals) && (rc == WW_OK ==> refusals == old(refusals))
      ensures refusals == old(refusals) && |old(contents)| + |src| <= SIZE_MAX / 2 ==> rc == WW_OK
    {
      rc := Reserve(|src|);
      if rc != WW_OK { return; }
      forall i | 0 <= i < |src| {
        data[len + i] := src[i];
      }
      assert data[..len] == contents;
      assert data[len..len + |src|] == src;
      len := len + |src|;
      contents := contents + src;
    }

    /** `w_u32`, `w_i32` and `w_f32`. */
    method WriteU32(v: u32) returns (rc: int)
      requires Valid()
      modifies this, data
      ensures Wrote(rc, old(contents), U32Bytes(v), old(refusals)) && (data == old(data) || fresh(data))
    {
      rc := WriteBytes(U32Bytes(v));
    }

    method WriteU64(v: u64) returns (rc: int)
      requires Valid()
      modifies this, data
      ensures Wrote(rc, old(contents), U64Bytes(v), old(refusals)) && (data == old(data) || fresh(data))
    {
      rc := WriteBytes(U64Bytes(v));
    }

    /** After a success the buffer holds `before` and then `bytes`; after a failure it still starts with `before`.
        Only refused memory and half the address space make a write fail. */
    ghost predicate Wrote(rc: int, before: seq<byte>, bytes: seq<byte>, refused: nat)
      reads this, data
    {
      && Valid()
      && rc in {WW_OK, WW_ERR_OVERFLOW, WW_ERR_NOMEM}
      && (if rc == WW_OK then contents == before + bytes else before <= contents)
      && refusals >= refused && (rc == WW_OK ==> refusals == refused)
      && (refusals == refused && |before| + |bytes| <= SIZE_MAX / 2 ==> rc == WW_OK)
    }

    /** Pads with zeros to a multiple of four of the whole buffer. */
    method Pad4() returns (rc: int)
      requires Valid()
      modifies this, data
      ensures Wrote(rc, old(contents), Zeros(Pad(old(len))), old(refusals)) && (data == old(data) || fresh(data))
    {
      var pad := (4 - len % 4) % 4;
      if pad == 0 {
        assert Zeros(0) == [];
        assert contents + [] == contents;
        return WW_OK;
      }
      rc := WriteBytes(Zeros(pad));
    }

    /** A NULL string is written like the empty one. */
    method WriteString(t: Text) returns (rc: int)
      requires Valid()
      modifies this, data
      ensures Valid() && (data == old(data) || fresh(data))
      ensures |t| > 0xffff_fffe ==> rc == WW_ERR_OVERFLOW && contents == old(contents)
      ensures |t| <= 0xffff_fffe ==> Wrote(rc, old(contents), StringBytes(|old(contents)|, t), old(refusals))
    {
      hide U32Bytes, Zeros;
      if |t| > 0xffff_fffe { return WW_ERR_OVERFLOW; }
      ghost var c := contents;
      rc := WriteU32(|t| + 1);
      if rc != WW_OK { return; }
      rc := WriteBytes(t);
      if rc != WW_OK { return; }
      rc := WriteBytes([0]);
      if rc != WW_OK { return; }
      ghost var z := Zeros(Pad(|c| + 4 + |t| + 1));
      assert contents == c + U32Bytes(|t| + 1) + t + [0];
      rc := Pad4();
      FourPieces(c, U32Bytes(|t| + 1), t, [0], z);
    }

    method WriteArrayU32(a: seq<u32>) returns (rc: int)
      requires Valid() && |a| < U32_LIMIT
      modifies this, data
      ensures Wrote(rc, old(contents), U32Bytes(|a|) + WordsBytes(a), old(refusals)) &&
        (data == old(data) || fresh(data))
    {
      hide U32Bytes, U64Bytes, WordsBytes;
      ghost var c := contents;
      rc := WriteU32(|a|);
      if rc != WW_OK { return; }
      ghost var head := c + U32Bytes(|a|);
      NoWordBytes(a);
      for i := 0 to |a|
        invariant Valid() && (data == old(data) || fresh(data)) && refusals == old(refusals)
        invariant contents == head + WordsBytes(a[..i])
      {
        OneMoreWord(a, i);
        rc := WriteU32(a[i]);
        Regroup(head, WordsBytes(a[..i]), U32Bytes(a[i]));
        if rc != WW_OK {
          PrefixOfLonger(head, WordsBytes(a[..i]), contents);
          PrefixOfLonger(c, U32Bytes(|a|), contents);
          WordsGrow(a, i + 1);
          return;
        }
      }
      assert a[..|a|] == a;
      Regroup(c, U32Bytes(|a|), WordsBytes(a));
      rc := WW_OK;
    }

    method WriteArrayU64(a: seq<u64>) returns (rc: int)
      requires Valid() && |a| < U32_LIMIT
      modifies this, data
      ensures Wrote(rc, old(contents), U32Bytes(|a|) + LongsBytes(a), old(refusals)) &&
        (data == old(data) || fresh(data))
    {
      hide U32Bytes, U64Bytes, LongsBytes;
      ghost var c := contents;
      rc := WriteU32(|a|);
      if rc != WW_OK { return; }
      ghost var head := c + U32Bytes(|a|);
      NoLongBytes(a);
      for i := 0 to |a|
        invariant Valid() && (data == old(data) || fresh(data)) && refusals == old(refusals)
        invariant contents == head + LongsBytes(a[..i])
      {
        OneMoreLong(a, i);
        rc := WriteU64(a[i]);
        Regroup(head, LongsBytes(a[..i]), U64Bytes(a[i]));
        if rc != WW_OK {
          PrefixOfLonger(head, LongsBytes(a[..i]), contents);
          PrefixOfLonger(c, U32Bytes(|a|), contents);
          LongsGrow(a, i + 1);
          return;
        }
      }
      assert a[..|a|] == a;
      Regroup(c, U32Bytes(|a|), LongsBytes(a));
      rc := WW_OK;
    }

    method WritePair(kv: Kv) returns (rc: int)
      requires Valid() && |kv.key| <= 0xffff_fffe && |kv.value| <= 0xffff_fffe
      modifies this, data
      ensures Wrote(rc, old(contents), PairBytes(|old(contents)|, kv), old(refusals)) &&
        (data == old(data) || fresh(data))
    {
      ghost var c := contents;
      rc := WriteString(kv.key);
      if rc != WW_OK { return; }
      ghost var key := StringBytes(|c|, kv.key);
      rc := WriteString(kv.value);
      assert c + key + StringBytes(|c| + |key|, kv.value) == c + PairBytes(|c|, kv);
    }

    /** One more entry of a list that starts after `c`. */
    method WriteNthPair(kvs: seq<Kv>, i: nat, ghost c: seq<byte>) returns (rc: int)
      requires Valid() && i < |kvs| && Writable(kvs) && contents == c + PairsBytes(|c|, kvs[..i])
      modifies this, data
      ensures Wrote(rc, c, PairsBytes(|c|, kvs[..i + 1]), old(refusals)) && (data == old(data) || fresh(data))
    {
      hide PairsBytes, PairBytes;
      ghost var before := PairsBytes(|c|, kvs[..i]);
      assert kvs[..i + 1][..i] == kvs[..i];
      WriteOneMorePair(|c|, kvs[..i + 1]);
      rc := WritePair(kvs[i]);
      Regroup(c, before, PairBytes(|c| + |before|, kvs[i]));
      PrefixOfLonger(c, before, contents);
    }

    method WriteKvList(kvs: seq<Kv>) returns (rc: int)
      requires Valid() && |kvs| < U32_LIMIT && Writable(kvs)
      modifies this, data
      ensures Wrote(rc, old(contents), U32Bytes(|kvs|) + PairsBytes(|old(contents)| + 4, kvs), old(refusals))
      ensures data == old(data) || fresh(data)
    {
      hide U32Bytes, PairsBytes, Writable;
      ghost var c := contents;
      ghost var head := c + U32Bytes(|kvs|);
      rc := WriteU32(|kvs|);
      if rc != WW_OK { return; }
      NoPairs(|head|, kvs);
      WritablePrefixes(kvs);
      for i := 0 to |kvs|
        invariant Valid() && (data == old(data) || fresh(data)) && refusals == old(refusals)
        invariant contents == head + PairsBytes(|head|, kvs[..i])
      {
        rc := WriteNthPair(kvs, i, head);
        if rc != WW_OK {
          PrefixOfLonger(c, U32Bytes(|kvs|), contents);
          PairsGrow(|head|, kvs, i + 1);
          return;
        }
      }
      assert kvs[..|kvs|] == kvs;
      Regroup(c, U32Bytes(|kvs|), PairsBytes(|head|, kvs));
      rc := WW_OK;
    }

    method WriteField(v: Value, ghost k: Kind) returns (rc: int)
      requires Valid() && Fits(v, k)
      modifies this, data
      ensures Wrote(rc, old(contents), FieldBytes(|old(contents)|, v, k), old(refusals)) &&
        (data == old(data) || fresh(data))
    {
      match v
      case VU32(w) => rc := WriteU32(w);
      case VU64(l) => rc := WriteU64(l);
      case VString(t) => rc := WriteString(t);
      case VArrayU32(a) => rc := WriteArrayU32(a);
      case VArrayU64(a) => rc := WriteArrayU64(a);
      case VKvList(kvs) => rc := WriteKvList(kvs);
    }

    /** One more field of a message that starts after `c`. */
    method WriteNthField(vs: seq<Value>, ghost ks: seq<Kind>, i: nat, ghost c: seq<byte>) returns (rc: int)
      requires Valid() && i < |vs| && FitsAll(vs, ks) && contents == c + MessageBytes(|c|, vs[..i], ks[..i])
      modifies this, data
      ensures Wrote(rc, c, MessageBytes(|c|, vs[..i + 1], ks[..i + 1]), old(refusals)) &&
        (data == old(data) || fresh(data))
    {
      hide MessageBytes, FieldBytes, Fits;
      ghost var before := MessageBytes(|c|, vs[..i], ks[..i]);
      assert vs[..i + 1][..i] == vs[..i] && ks[..i + 1][..i] == ks[..i];
      WriteOneMoreField(|c|, vs[..i + 1], ks[..i + 1]);
      rc := WriteField(vs[i], ks[i]);
      Regroup(c, before, FieldBytes(|c| + |before|, vs[i], ks[i]));
      PrefixOfLonger(c, before, contents);
    }

    /** A message's fields in order, stopping at the first failure. */
    method Encode(vs: seq<Value>, ghost ks: seq<Kind>) returns (rc: int)
      requires Valid() && FitsAll(vs, ks)
      modifies this, data
      ensures Wrote(rc, old(contents), MessageBytes(|old(contents)|, vs, ks), old(refusals)) &&
        (data == old(data) || fresh(data))
    {
      hide MessageBytes, FitsAll;
      ghost var c := contents;
      FittingPrefixes(vs, ks);
      NoFields(|c|, vs, ks);
      for i := 0 to |vs|
        invariant Valid() && (data == old(data) || fresh(data)) && refusals == old(refusals)
        invariant contents == c + MessageBytes(|c|, vs[..i], ks[..i])
      {
        rc := WriteNthField(vs, ks, i, c);
        if rc != WW_OK {
          FieldsGrow(|c|, vs, ks, i + 1);
          return;
        }
      }
      assert vs[..|vs|] == vs && ks[..|ks|] == ks;
      rc := WW_OK;
    }
  }

  lemma Regroup(a: seq<byte>, b: seq<byte>, c: seq<byte>)
    ensures a + b + c == a + (b + c)
  {
  }

  lemma FourPieces(c: seq<byte>, h: seq<byte>, t: seq<byte>, n: seq<byte>, z: seq<byte>)
    ensures c + h + t + n + z == c + (h + t + n + z)
    ensures c <= c + h + t + n
  {
  }

  lemma PrefixOfLonger(a: seq<byte>, b: seq<byte>, c: seq<byte>)
    ensures a + b <= c ==> a <= c
    ensures a <= a + b
  {
    if a + b <= c {
      assert forall i | 0 <= i < |a| :: (a + b)[i] == a[i];
    }
  }

  lemma NoWordBytes(a: seq<u32>)
    ensures WordsBytes(a[..0]) == []
  {
  }

  lemma NoLongBytes(a: seq<u64>)
    ensures LongsBytes(a[..0]) == []
  {
  }

  lemma OneMoreWord(a: seq<u32>, i: nat)
    requires i < |a|
    ensures WordsBytes(a[..i + 1]) == WordsBytes(a[..i]) + U32Bytes(a[i])
  {
    hide U32Bytes;
    assert a[..i + 1][..i] == a[..i];
  }

  lemma OneMoreLong(a: seq<u64>, i: nat)
    requires i < |a|
    ensures LongsBytes(a[..i + 1]) == LongsBytes(a[..i]) + U64Bytes(a[i])
  {
    hide U64Bytes;
    assert a[..i + 1][..i] == a[..i];
  }

  lemma {:induction false} WordsGrow(a: seq<u32>, n: nat)
    requires n <= |a|
    ensures |WordsBytes(a[..n])| <= |WordsBytes(a)|
  {
    if n < |a| {
      WordsGrow(a[..|a| - 1], n);
      assert a[..|a| - 1][..n] == a[..n];
    } else {
      assert a[..n] == a;
    }
  }

  lemma {:induction false} LongsGrow(a: seq<u64>, n: nat)
    requires n <= |a|
    ensures |LongsBytes(a[..n])| <= |LongsBytes(a)|
  {
    if n < |a| {
      LongsGrow(a[..|a| - 1], n);
      assert a[..|a| - 1][..n] == a[..n];
    } else {
      assert a[..n] == a;
    }
  }

  lemma {:induction false} PairsGrow(start: nat, kvs: seq<Kv>, n: nat)
    requires n <= |kvs| && Writable(kvs)
    ensures |PairsBytes(start, kvs[..n])| <= |PairsBytes(start, kvs)|
    decreases |kvs|
  {
    if n < |kvs| {
      PairsGrow(start, kvs[..|kvs| - 1], n);
      assert kvs[..|kvs| - 1][..n] == kvs[..n];
      WriteOneMorePair(start, kvs);
    } else {
      assert kvs[..n] == kvs;
    }
  }

  lemma {:induction false} FieldsGrow(start: nat, vs: seq<Value>, ks: seq<Kind>, n: nat)
    requires FitsAll(vs, ks) && n <= |vs| && FitsAll(vs[..n], ks[..n])
    ensures |MessageBytes(start, vs[..n], ks[..n])| <= |MessageBytes(start, vs, ks)|
    decreases |vs|
  {
    hide Fits;
    if n < |vs| {
      var m := |vs| - 1;
      assert vs[..m][..n] == vs[..n] && ks[..m][..n] == ks[..n];
      FieldsGrow(start, vs[..m], ks[..m], n);
      WriteOneMoreField(start, vs, ks);
    } else {
      assert vs[..n] == vs && ks[..n] == ks;
    }
  }

  lemma NoPairs(start: nat, kvs: seq<Kv>)
    ensures Writable(kvs[..0]) && PairsBytes(start, kvs[..0]) == []
  {
  }

  lemma WritablePrefixes(kvs: seq<Kv>)
    requires Writable(kvs)
    ensures forall i | 0 <= i <= |kvs| :: Writable(kvs[..i])
  {
  }

  lemma NoFields(start: nat, vs: seq<Value>, ks: seq<Kind>)
    ensures FitsAll(vs[..0], ks[..0]) && MessageBytes(start, vs[..0], ks[..0]) == []
  {
  }

  lemma FittingPrefixes(vs: seq<Value>, ks: seq<Kind>)
    requires FitsAll(vs, ks)
    ensures |vs| == |ks|
    ensures forall i | 0 <= i <= |vs| :: FitsAll(vs[..i], ks[..i])
  {
    hide Fits;
  }
}
