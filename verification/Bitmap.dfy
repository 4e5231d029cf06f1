/** Bitmaps packed into 32-bit words, and the search for runs of equal bits. */
module Bitmap {
  import opened Prelude
  import opened Bits

  const ElemBits: nat := 32

  function ElemCnt(bitCnt: nat): nat {
    (bitCnt + ElemBits - 1) / ElemBits
  }

  /** Bytes taken by a bitmap: its two-word header and its words. */
  function BufSize(bitCnt: nat): nat {
    8 + 4 * ElemCnt(bitCnt)
  }

  // ---------------------------------------------------------------------
  // What the operations mean for a sequence of booleans.

  function Filled(b: seq<bool>, start: nat, cnt: nat, value: bool): (r: seq<bool>)
    requires start + cnt <= |b|
  {
    b[..start] + seq(cnt, _ => value) + b[start + cnt..]
  }

  lemma FilledStep(b: seq<bool>, start: nat, cnt: nat, value: bool)
    requires start + cnt < |b|
    ensures Filled(b, start, cnt, value)[start + cnt := value] == Filled(b, start, cnt + 1, value)
  {
  }

  /** The cnt bits from i on exist and all have the value. */
  ghost predicate RunAt(b: seq<bool>, i: int, cnt: nat, value: bool) {
    0 <= i && i + cnt <= |b| && forall k :: i <= k < i + cnt ==> b[k] == value
  }

  /** The lowest such run at or after start, if any. */
  ghost predicate FirstRun(b: seq<bool>, start: nat, cnt: nat, value: bool, r: Option<nat>) {
    match r
    case Some(i) => start <= i && RunAt(b, i, cnt, value) && forall k :: start <= k < i ==> !RunAt(b, k, cnt, value)
    case None => forall k :: start <= k ==> !RunAt(b, k, cnt, value)
  }

  // ---------------------------------------------------------------------
  // One word.

  lemma MarkWord(w: nat, k: nat, j: nat)
    requires w < Pow2(32) && k < 32 && j < 32
    ensures Or(w, Pow2(k)) < Pow2(32) && Bit(Or(w, Pow2(k)), j) == (j == k || Bit(w, j))
  {
    Pow2Grows(k, 32);
    OrBelow(w, Pow2(k), 32);
    BitOfOr(w, Pow2(k), j);
    BitOfPow2(k, j);
  }

  lemma ResetWord(w: nat, k: nat, j: nat)
    requires w < Pow2(32) && k < 32 && j < 32
    ensures Pow2(k) < Pow2(32) && And(w, Not(Pow2(k), 32)) < Pow2(32)
    ensures Bit(And(w, Not(Pow2(k), 32)), j) == (j != k && Bit(w, j))
  {
    Pow2Grows(k, 32);
    AndBelow(w, Not(Pow2(k), 32), 32);
    BitOfAnd(w, Not(Pow2(k), 32), j);
    BitOfNot(Pow2(k), 32, j);
    BitOfPow2(k, j);
  }

  /** The bits of n words, in order. */
  ghost function Unpacked(words: seq<nat>, n: nat): (b: seq<bool>)
    requires |words| == ElemCnt(n)
    ensures |b| == n
  {
    seq(n, i requires 0 <= i < n => Bit(words[i / 32], i % 32))
  }

  /** Changing one bit of one word changes that bit of the whole and no other. */
  lemma OneBit(words: seq<nat>, n: nat, i: nat, w: nat, value: bool)
    requires |words| == ElemCnt(n) && i < n
    requires forall j: nat :: j < 32 ==> Bit(w, j) == if j == i % 32 then value else Bit(words[i / 32], j)
    ensures Unpacked(words[i / 32 := w], n) == Unpacked(words, n)[i := value]
  {
    var changed := Unpacked(words[i / 32 := w], n);
    forall k | 0 <= k < n ensures changed[k] == Unpacked(words, n)[i := value][k] {
      assert Bit(w, k % 32) == if k % 32 == i % 32 then value else Bit(words[i / 32], k % 32);
    }
  }

  // ---------------------------------------------------------------------
  // The bitmap.

  class Bitmap {
    const bitCnt: nat
    const bits: array<nat>

    ghost predicate Valid()
      reads bits
    {
      bits.Length == ElemCnt(bitCnt) && forall i :: 0 <= i < bits.Length ==> bits[i] < Pow2(32)
    }

    ghost function Bools(): (b: seq<bool>)
      requires Valid()
      reads bits
      ensures |b| == bitCnt
    {
      Unpacked(bits[..], bitCnt)
    }

    /** bitmap_create: all bits false. */
    constructor (n: nat)
      ensures Valid() && bitCnt == n && fresh(bits) && Bools() == seq(n, _ => false)
    {
      bitCnt := n;
      bits := new nat[ElemCnt(n)](_ => 0);
      new;
      forall i | 0 <= i < n ensures !Bit(bits[..][i / 32], i % 32) {
        BitOfZero(i % 32);
      }
    }

    /** bitmap_mark. */
    method Mark(i: nat)
      requires Valid() && i < bitCnt
      modifies bits
      ensures Valid() && Bools() == old(Bools())[i := true]
    {
      forall j: nat | j < 32 {
        MarkWord(bits[i / 32], i % 32, j);
      }
      OneBit(bits[..], bitCnt, i, Or(bits[i / 32], Pow2(i % 32)), true);
      ghost var after := bits[..][i / 32 := Or(bits[i / 32], Pow2(i % 32))];
      MarkWord(bits[i / 32], i % 32, 0);
      bits[i / 32] := Or(bits[i / 32], Pow2(i % 32));
      assert bits[..] == after;
    }

    /** bitmap_reset. */
    method Reset(i: nat)
      requires Valid() && i < bitCnt
      modifies bits
      ensures Valid() && Bools() == old(Bools())[i := false]
    {
      ResetWord(bits[i / 32], i % 32, 0);
      forall j: nat | j < 32 {
        ResetWord(bits[i / 32], i % 32, j);
      }
      OneBit(bits[..], bitCnt, i, And(bits[i / 32], Not(Pow2(i % 32), 32)), false);
      ghost var after := bits[..][i / 32 := And(bits[i / 32], Not(Pow2(i % 32), 32))];
      bits[i / 32] := And(bits[i / 32], Not(Pow2(i % 32), 32));
      assert bits[..] == after;
    }

    /** bitmap_test. */
    method Test(i: nat) returns (value: bool)
      requires Valid() && i < bitCnt
      ensures value == Bools()[i]
    {
      AndPow2(bits[i / 32], i % 32);
      value := And(bits[i / 32], Pow2(i % 32)) != 0;
    }

    /** bitmap_set_multiple. */
    method SetMultiple(start: nat, cnt: nat, value: bool)
      requires Valid() && start + cnt <= bitCnt
      modifies bits
      ensures Valid() && Bools() == Filled(old(Bools()), start, cnt, value)
    {
      for i := 0 to cnt
        invariant Valid() && Bools() == Filled(old(Bools()), start, i, value)
      {
        FilledStep(old(Bools()), start, i, value);
        if value {
          Mark(start + i);
        } else {
          Reset(start + i);
        }
      }
    }

    /** bitmap_contains. */
    method Contains(start: nat, cnt: nat, value: bool) returns (found: bool)
      requires Valid() && start + cnt <= bitCnt
      ensures found == !RunAt(Bools(), start, cnt, !value)
    {
      for i := 0 to cnt
        invariant RunAt(Bools(), start, i, !value)
      {
        var bit := Test(start + i);
        if bit == value {
          return true;
        }
      }
      return false;
    }

    /** bitmap_scan. */
    method Scan(start: nat, cnt: nat, value: bool) returns (r: Option<nat>)
      requires Valid() && start <= bitCnt
      ensures FirstRun(Bools(), start, cnt, value, r)
    {
      if cnt <= bitCnt {
        var last := bitCnt - cnt;
        var i := start;
        while i <= last
          invariant start <= i && forall k :: start <= k < i ==> !RunAt(Bools(), k, cnt, value)
        {
          var bad := Contains(i, cnt, !value);
          if !bad {
            return Some(i);
          }
          i := i + 1;
        }
      }
      return None;
    }

    /** bitmap_scan_and_flip: the lowest run is taken and nothing else changes. */
    method ScanAndFlip(start: nat, cnt: nat, value: bool) returns (r: Option<nat>)
      requires Valid() && start <= bitCnt
      modifies bits
      ensures Valid() && FirstRun(old(Bools()), start, cnt, value, r)
      ensures Bools() == if r.Some? then Filled(old(Bools()), r.value, cnt, !value) else old(Bools())
    {
      r := Scan(start, cnt, value);
      if r.Some? {
        SetMultiple(r.value, cnt, !value);
      }
    }
  }
}
