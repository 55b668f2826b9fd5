/** How long a message without strings is: whether a format_caps message fits a frame. `bridge/src/ipc_v1.c`. */
module MessageSizes {
  import opened Bytes
  import opened Wire
  import opened Codec

  /** The bytes of a field, which for a string depend on where it starts and are not counted here. */
  function Size(v: Value): nat {
    match v
    case VU32(_) => 4
    case VU64(_) => 8
    case VArrayU32(a) => 4 + 4 * |a|
    case VArrayU64(a) => 4 + 8 * |a|
    case _ => 0
  }

  function Sizes(vs: seq<Value>): nat {
    if vs == [] then 0 else Sizes(vs[..|vs| - 1]) + Size(vs[|vs| - 1])
  }

  predicate Stringless(ks: seq<Kind>) {
    forall i | 0 <= i < |ks| :: ks[i] != KString && ks[i] != KKvList
  }

  lemma FieldSize(start: nat, v: Value, k: Kind)
    requires Fits(v, k) && k != KString && k != KKvList
    ensures |FieldBytes(start, v, k)| == Size(v)
  {
    hide WordsBytes, LongsBytes;
    match v
    case VArrayU32(a) => ReadWords(WordsBytes(a), 0, a);
    case VArrayU64(a) => ReadLongs(LongsBytes(a), 0, a);
    case _ =>
  }

  lemma {:induction false} MessageSize(start: nat, vs: seq<Value>, ks: seq<Kind>)
    requires FitsAll(vs, ks) && Stringless(ks)
    ensures |MessageBytes(start, vs, ks)| == Sizes(vs)
    decreases |vs|
  {
    hide Fits, FieldBytes, Size;
    if vs != [] {
      var n := |vs| - 1;
      MessageSize(start, vs[..n], ks[..n]);
      WriteOneMoreField(start, vs, ks);
      FieldSize(start + |MessageBytes(start, vs[..n], ks[..n])|, vs[n], ks[n]);
    }
  }

  lemma OneMoreSize(vs: seq<Value>, n: nat)
    requires n < |vs|
    ensures Sizes(vs[..n + 1]) == Sizes(vs[..n]) + Size(vs[n])
  {
    assert vs[..n + 1][..n] == vs[..n];
  }

  lemma {:induction false} WordsFollow(vs: seq<Value>, n: nat)
    requires n <= |vs| && forall i | n <= i < |vs| :: vs[i].VU32?
    ensures Sizes(vs) == Sizes(vs[..n]) + 4 * (|vs| - n)
    decreases |vs| - n
  {
    if n < |vs| {
      WordsFollow(vs, n + 1);
      OneMoreSize(vs, n);
    } else {
      assert vs[..n] == vs;
    }
  }

  /** The bytes of a format_caps body for `runs` fourccs and `n` entries. */
  function CapsBodySize(runs: nat, n: nat): nat {
    84 + 8 * runs + 12 * n
  }

  /** That is what the encoder writes for such arrays and two UUIDs of four words. */
  lemma CapsBodyBytes(start: nat, vs: seq<Value>, runs: nat, n: nat)
    requires FitsAll(vs, FormatCaps())
    requires |vs[0].words| == |vs[1].words| == runs && |vs[2].longs| == |vs[3].words| == n
    requires |vs[4].words| == |vs[5].words| == 4
    ensures |MessageBytes(start, vs, FormatCaps())| == CapsBodySize(runs, n)
  {
    var ks := FormatCaps();
    assert forall i | 0 <= i < 13 :: Fits(vs[i], ks[i]);
    MessageSize(start, vs, ks);
    WordsFollow(vs, 6);
    OneMoreSize(vs, 5);
    OneMoreSize(vs, 4);
    OneMoreSize(vs, 3);
    OneMoreSize(vs, 2);
    OneMoreSize(vs, 1);
    OneMoreSize(vs, 0);
    assert vs[..0] == [];
    hide MessageBytes, Sizes;
  }
}
