/**
 * The compile-time mask builders of pico_libs/mpl/bitset.hpp and the reading
 * of their output as a `std::bitset`. A bitset of width `N` is modelled as the
 * set of its one bits, each below `N`.
 */
module Bitset {

  /** `std::bitset<N>` as the set of the positions of its one bits. */
  type Mask = set<nat>

  /** Every requested index names a position of an `N`-character string. */
  predicate InRange(n: nat, idx: seq<nat>)
  {
    forall k :: 0 <= k < |idx| ==> idx[k] < n
  }

  /** The set of requested indices: the bits a mask built from them must hold. */
  function Requested(idx: seq<nat>): (m: Mask)
    ensures forall i :: i in m <==> i in idx
  {
    set k | k in idx
  }

  /**
   * The fold `((v[N - I - 1] = '1'), ...)`: one assignment of `'1'` per index,
   * left to right.
   */
  function SetOnes(v: seq<char>, n: nat, idx: seq<nat>): (r: seq<char>)
    requires |v| == n + 1 && InRange(n, idx)
    ensures |r| == n + 1
    decreases |idx|
  {
    if idx == [] then v else SetOnes(v[n - 1 - idx[0] := '1'], n, idx[1..])
  }

  /**
   * `index_bits_str<N, I...>::make_value()`: `N` characters `'0'` and the
   * terminator, then `'1'` at `N - 1 - I` for each requested `I`.
   */
  function IndexBitsStr(n: nat, idx: seq<nat>): (r: seq<char>)
    requires InRange(n, idx)
  {
    SetOnes(seq(n, _ => '0') + ['\0'], n, idx)
  }

  /**
   * `std::bitset<N>(str, N)`: the character at `N - 1 - i` gives bit `i`, so the
   * rightmost digit is bit 0.
   */
  function ToBitset(s: seq<char>, n: nat): Mask
    requires n <= |s|
  {
    set i: nat | i < n && DigitIsOne(s, n, i)
  }

  /** Whether the digit that `std::bitset<N>(str, N)` reads as bit `i` is `'1'`. */
  predicate DigitIsOne(s: seq<char>, n: nat, i: nat)
    requires n <= |s|
  {
    i < n && s[n - 1 - i] == '1'
  }

  lemma {:induction false} SetOnesAt(v: seq<char>, n: nat, idx: seq<nat>, i: nat)
    requires |v| == n + 1 && InRange(n, idx) && i <= n
    ensures SetOnes(v, n, idx)[i] == if i < n && n - 1 - i in idx then '1' else v[i]
    decreases |idx|
  {
    if idx != [] {
      SetOnesAt(v[n - 1 - idx[0] := '1'], n, idx[1..], i);
      assert idx == [idx[0]] + idx[1..];
    }
  }

  /**
   * The string has length `N + 1` and ends in the terminator; position
   * `N - 1 - I` is `'1'` for each requested `I` and every other digit is `'0'`.
   */
  lemma IndexBitsStrAt(n: nat, idx: seq<nat>, i: nat)
    requires InRange(n, idx) && i <= n
    ensures |IndexBitsStr(n, idx)| == n + 1
    ensures IndexBitsStr(n, idx)[i] == if i == n then '\0' else if n - 1 - i in idx then '1' else '0'
  {
    SetOnesAt(seq(n, _ => '0') + ['\0'], n, idx, i);
  }

  /** Only the set of indices matters: not their order, not their repetitions. */
  lemma IndexBitsStrOrderFree(n: nat, a: seq<nat>, b: seq<nat>)
    requires InRange(n, a) && InRange(n, b)
    requires Requested(a) == Requested(b)
    ensures IndexBitsStr(n, a) == IndexBitsStr(n, b)
  {
    IndexBitsStrAt(n, a, 0);
    IndexBitsStrAt(n, b, 0);
    forall i | 0 <= i <= n
      ensures IndexBitsStr(n, a)[i] == IndexBitsStr(n, b)[i]
    {
      IndexBitsStrAt(n, a, i);
      IndexBitsStrAt(n, b, i);
    }
  }

  /**
   * Read back as a `bitset<N>`, the string has bit `i` set exactly when `i` was
   * requested; an empty index list gives the all-zero mask.
   */
  lemma MaskOfIndexBits(n: nat, idx: seq<nat>)
    requires InRange(n, idx)
    ensures |IndexBitsStr(n, idx)| == n + 1
    ensures ToBitset(IndexBitsStr(n, idx), n) == Requested(idx)
    ensures idx == [] ==> ToBitset(IndexBitsStr(n, idx), n) == {}
  {
    IndexBitsStrAt(n, idx, n);
    var s := IndexBitsStr(n, idx);
    forall i: nat
      ensures i in ToBitset(s, n) <==> i in Requested(idx)
    {
      if i < n {
        IndexBitsStrAt(n, idx, n - 1 - i);
      }
    }
  }

  /**
   * `make_value` as the source runs it: fill a local array with `'0'`, write the
   * terminator, then assign `'1'` once per requested index.
   */
  method MakeValue(n: nat, idx: seq<nat>) returns (r: seq<char>)
    requires InRange(n, idx)
    ensures r == IndexBitsStr(n, idx)
  {
    var v := new char[n + 1](_ => '0');
    v[n] := '\0';
    for k := 0 to |idx|
      invariant v[n] == '\0'
      invariant forall i :: 0 <= i < n ==> v[i] == if n - 1 - i in idx[..k] then '1' else '0'
    {
      v[n - idx[k] - 1] := '1';
      assert idx[..k + 1] == idx[..k] + [idx[k]];
    }
    assert idx[..|idx|] == idx;
    r := v[..];
    IndexBitsStrAt(n, idx, 0);
    forall i | 0 <= i <= n
      ensures r[i] == IndexBitsStr(n, idx)[i]
    {
      IndexBitsStrAt(n, idx, i);
    }
  }

  /** `2` to the power `i`. */
  function Pow2(i: nat): (r: nat)
    ensures r >= 1
  {
    if i == 0 then 1 else 2 * Pow2(i - 1)
  }

  /** Bitwise OR of two unsigned words, digit by digit from bit 0. */
  function BitOr(x: nat, y: nat): nat
    decreases x + y
  {
    if x == 0 && y == 0 then 0
    else 2 * BitOr(x / 2, y / 2) + (if x % 2 == 1 || y % 2 == 1 then 1 else 0)
  }

  /** Bit `b` of an unsigned word. */
  predicate TestBit(x: nat, b: nat)
  {
    if b == 0 then x % 2 == 1 else TestBit(x / 2, b - 1)
  }

  /**
   * `1 << I` with the `int` literal `1`: exact only while the result stays
   * below `2^31`, hence the bound on `I`.
   */
  function Bit(i: nat): nat
    requires i < 31
  {
    Pow2(i)
  }

  /** The fold `((1 << I) | ...)` over a non-empty pack. */
  function OrFold(idx: seq<nat>): nat
    requires |idx| > 0 && forall k :: 0 <= k < |idx| ==> idx[k] < 31
    decreases |idx|
  {
    if |idx| == 1 then Bit(idx[0]) else BitOr(Bit(idx[0]), OrFold(idx[1..]))
  }

  /** `index_bits_uint64<I...>::value`. */
  function IndexBitsUint64(idx: seq<nat>): nat
    requires |idx| > 0 && forall k :: 0 <= k < |idx| ==> idx[k] < 31
  {
    OrFold(idx)
  }

  lemma {:induction false} TestBitZero(b: nat)
    ensures !TestBit(0, b)
  {
    if b > 0 {
      TestBitZero(b - 1);
    }
  }

  lemma {:induction false} TestBitPow2(i: nat, b: nat)
    ensures TestBit(Pow2(i), b) <==> i == b
  {
    if i == 0 {
      if b > 0 {
        TestBitZero(b - 1);
      }
    } else if b > 0 {
      TestBitPow2(i - 1, b - 1);
    }
  }

  /** Halving `2k + c` drops the low digit `c`. */
  lemma Halve(k: nat, c: nat)
    requires c < 2
    ensures (2 * k + c) / 2 == k && (2 * k + c) % 2 == c
  {
  }

  lemma {:induction false} TestBitOr(x: nat, y: nat, b: nat)
    ensures TestBit(BitOr(x, y), b) <==> TestBit(x, b) || TestBit(y, b)
  {
    if x == 0 && y == 0 {
      TestBitZero(b);
    } else {
      var c := if x % 2 == 1 || y % 2 == 1 then 1 else 0;
      assert BitOr(x, y) == 2 * BitOr(x / 2, y / 2) + c;
      Halve(BitOr(x / 2, y / 2), c);
      if b > 0 {
        TestBitOr(x / 2, y / 2, b - 1);
      }
    }
  }

  lemma {:induction false} Pow2Below(i: nat, k: nat)
    requires i < k
    ensures Pow2(i) < Pow2(k)
  {
    if i + 1 < k {
      Pow2Below(i, k - 1);
    }
  }

  lemma {:induction false} BitOrBelow(x: nat, y: nat, k: nat)
    requires x < Pow2(k) && y < Pow2(k)
    ensures BitOr(x, y) < Pow2(k)
    decreases x + y
  {
    if !(x == 0 && y == 0) && k > 0 {
      BitOrBelow(x / 2, y / 2, k - 1);
    }
  }

  /** Bit `b` of the OR of shifted ones is set exactly when `b` was requested. */
  lemma {:induction false} IndexBitsUint64At(idx: seq<nat>, b: nat)
    requires |idx| > 0 && forall k :: 0 <= k < |idx| ==> idx[k] < 31
    ensures TestBit(IndexBitsUint64(idx), b) <==> b in idx
    decreases |idx|
  {
    TestBitPow2(idx[0], b);
    if |idx| > 1 {
      IndexBitsUint64At(idx[1..], b);
      TestBitOr(Bit(idx[0]), OrFold(idx[1..]), b);
      assert idx == [idx[0]] + idx[1..];
    }
  }

  /** With every index below 31 the OR stays below `2^31`: it fits the `int` the shifts produce. */
  lemma {:induction false} IndexBitsUint64Below(idx: seq<nat>)
    requires |idx| > 0 && forall k :: 0 <= k < |idx| ==> idx[k] < 31
    ensures IndexBitsUint64(idx) < Pow2(31)
    decreases |idx|
  {
    Pow2Below(idx[0], 31);
    if |idx| > 1 {
      IndexBitsUint64Below(idx[1..]);
      BitOrBelow(Bit(idx[0]), OrFold(idx[1..]), 31);
    }
  }

  /** The integer mask and the string mask, read as a bitset, hold the same bits. */
  lemma IndexBitsAgree(n: nat, idx: seq<nat>, b: nat)
    requires |idx| > 0 && forall k :: 0 <= k < |idx| ==> idx[k] < 31
    requires InRange(n, idx) && b < n
    ensures |IndexBitsStr(n, idx)| == n + 1
    ensures b in ToBitset(IndexBitsStr(n, idx), n) <==> TestBit(IndexBitsUint64(idx), b)
  {
    MaskOfIndexBits(n, idx);
    IndexBitsUint64At(idx, b);
  }

  /** The library's test: `index_bits_str<10, 1, 2, 3>` is "0000001110". */
  lemma TestBitList()
    ensures IndexBitsStr(10, [1, 2, 3]) == "0000001110" + ['\0']
  {
    var s := IndexBitsStr(10, [1, 2, 3]);
    forall i | 0 <= i <= 10
      ensures s[i] == ("0000001110" + ['\0'])[i]
    {
      IndexBitsStrAt(10, [1, 2, 3], i);
    }
    IndexBitsStrAt(10, [1, 2, 3], 0);
  }
}
