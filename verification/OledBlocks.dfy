/** Bits packed into bytes, and blocks of equal length one behind the other. */
module OledBlocks {
  import opened Bytes
  import opened OledText

  // ---------- Bits ----------

  /** The number with these bits, the least significant first. */
  function Pack(bits: seq<bool>): nat {
    if bits == [] then 0 else (if bits[0] then 1 else 0) + 2 * Pack(bits[1..])
  }

  function Power2(n: nat): nat {
    if n == 0 then 1 else 2 * Power2(n - 1)
  }

  lemma {:induction false} PackBound(bits: seq<bool>)
    ensures Pack(bits) < Power2(|bits|)
  {
    if bits != [] {
      PackBound(bits[1..]);
    }
  }

  function PackByte(bits: seq<bool>): byte
    requires |bits| == 8
  {
    PackBound(bits);
    assert Power2(3) == 8 && Power2(6) == 64 && Power2(8) == 256;
    Pack(bits)
  }

  lemma TailOfTail(bits: seq<bool>, k: nat)
    requires k < |bits|
    ensures bits[k..][0] == bits[k] && bits[k..][1..] == bits[k + 1..]
  {
  }

  lemma {:induction false} ShrPack(bits: seq<bool>, k: nat)
    requires |bits| == 8 && k <= 8
    ensures Shr(PackByte(bits), k) == Pack(bits[k..])
  {
    if k == 0 {
      assert bits[0..] == bits;
    } else {
      ShrPack(bits, k - 1);
      TailOfTail(bits, k - 1);
    }
  }

  lemma BitOfByte(bits: seq<bool>, k: nat)
    requires |bits| == 8 && k < 8
    ensures ByteBit(PackByte(bits), k) <==> bits[k]
  {
    ShrPack(bits, k);
    assert bits[k..][0] == bits[k];
  }

  // ---------- Blocks ----------

  /** The blocks one behind the other. */
  function Flat(blocks: seq<seq<byte>>): seq<byte> {
    if blocks == [] then [] else blocks[0] + Flat(blocks[1..])
  }

  /** All blocks have this length. */
  predicate Even(blocks: seq<seq<byte>>, n: nat) {
    forall i :: 0 <= i < |blocks| ==> |blocks[i]| == n
  }

  lemma TimesZero(n: nat)
    ensures Times(n, 0) == 0
  {
  }

  lemma TimesNext(n: nat, i: nat)
    ensures Times(n, i + 1) == n + Times(n, i)
  {
  }

  /** In blocks of equal size, the j-th byte of the i-th block. */
  lemma {:induction false} FlatAt(blocks: seq<seq<byte>>, n: nat, i: nat, j: nat)
    requires Even(blocks, n) && i < |blocks| && j < n
    ensures Times(n, i) + j < |Flat(blocks)| && Flat(blocks)[Times(n, i) + j] == blocks[i][j]
  {
    var rest := blocks[1..];
    if i == 0 {
      TimesZero(n);
    } else {
      FlatAt(rest, n, i - 1, j);
      TimesNext(n, i - 1);
      assert Flat(blocks)[n + (Times(n, i - 1) + j)] == Flat(rest)[Times(n, i - 1) + j];
    }
  }

  lemma {:induction false} FlatLength(blocks: seq<seq<byte>>, n: nat)
    requires Even(blocks, n)
    ensures |Flat(blocks)| == Times(n, |blocks|)
  {
    if blocks == [] {
      TimesZero(n);
    } else {
      FlatLength(blocks[1..], n);
      TimesNext(n, |blocks| - 1);
    }
  }
}
