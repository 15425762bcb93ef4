/** The sixteen-round loop of `_encrypt_block`, abstracted over its round
    function: each round makes the right half the new left half and XORs the
    round function of the right half into the old left half. Nothing here
    depends on what the round function computes, which is why running the
    rounds with the subkeys reversed undoes them. */
module Feistel {
  import opened Bits

  type Half = h: seq<Bit> | |h| == 32 witness Zeros(32)

  type Block = b: seq<Bit> | |b| == 64 witness Zeros(64)

  /** The pair (left, right) after one round with round key `k`. */
  function Round<K>(l: Half, r: Half, k: K, f: (Half, K) -> Half): (Half, Half)
  {
    (r, Xor(l, f(r, k)))
  }

  /** The rounds, taking the round keys from the front of `ks`. */
  function Rounds<K>(l: Half, r: Half, ks: seq<K>, f: (Half, K) -> Half): (Half, Half)
    decreases |ks|
  {
    if |ks| == 0 then (l, r)
    else
      var (l1, r1) := Round(l, r, ks[0], f);
      Rounds(l1, r1, ks[1..], f)
  }

  /** A round undoes itself once the halves are swapped before and after. */
  lemma RoundSwapInverse<K>(l: Half, r: Half, k: K, f: (Half, K) -> Half)
    ensures var (l1, r1) := Round(l, r, k, f); Round(r1, l1, k, f) == (r, l)
  {
    XorCancel(l, f(r, k));
  }

  /** Running one more round at the end. */
  lemma {:induction false} RoundsSnoc<K>(l: Half, r: Half, ks: seq<K>, k: K, f: (Half, K) -> Half)
    ensures var (l1, r1) := Rounds(l, r, ks, f); Rounds(l, r, ks + [k], f) == Round(l1, r1, k, f)
    decreases |ks|
  {
    if |ks| > 0 {
      var (l1, r1) := Round(l, r, ks[0], f);
      assert (ks + [k])[1..] == ks[1..] + [k];
      RoundsSnoc(l1, r1, ks[1..], k, f);
    } else {
      assert [k][1..] == [];
    }
  }

  /** Feeding the swapped output back through the rounds with the round keys
      in reverse order returns the swapped input: DES decryption is DES
      encryption with the subkey list reversed. */
  lemma {:induction false} FeistelReversal<K>(l: Half, r: Half, ks: seq<K>, f: (Half, K) -> Half)
    ensures var (l1, r1) := Rounds(l, r, ks, f); Rounds(r1, l1, Reverse(ks), f) == (r, l)
    decreases |ks|
  {
    if |ks| > 0 {
      var k := ks[0];
      var (a, b) := Round(l, r, k, f);
      var (l1, r1) := Rounds(a, b, ks[1..], f);
      assert Rounds(l, r, ks, f) == (l1, r1);
      FeistelReversal(a, b, ks[1..], f);
      assert Reverse(ks) == Reverse(ks[1..]) + [k];
      RoundsSnoc(r1, l1, Reverse(ks[1..]), k, f);
      RoundSwapInverse(l, r, k, f);
    }
  }

  /** Whether two 64-entry tables are permutations undoing each other. */
  predicate InverseTables(ip: seq<nat>, fp: seq<nat>)
  {
    |ip| == 64 && |fp| == 64 && IndexesWithin(ip, 64) && IndexesWithin(fp, 64)
    && (forall i :: 0 <= i < 64 ==> ip[fp[i]] == i)
    && (forall i :: 0 <= i < 64 ==> fp[ip[i]] == i)
  }

  /** One 64-bit block through the initial permutation `ip`, the rounds with
      the round keys of `ks` in order, the swap of the halves and the final
      permutation `fp`. */
  function BlockCipher<K>(b: seq<Bit>, ip: seq<nat>, fp: seq<nat>, ks: seq<K>, f: (Half, K) -> Half): (c: seq<Bit>)
    requires |b| == 64 && |ip| == 64 && |fp| == 64 && IndexesWithin(ip, 64) && IndexesWithin(fp, 64)
    ensures |c| == 64
  {
    var p := Permute(b, ip);
    var (l, r) := Rounds(p[..32], p[32..], ks, f);
    Permute(r + l, fp)
  }

  /** With mutually inverse permutations, running the block cipher with the
      round keys reversed undoes it, whatever the round function is. */
  lemma BlockCipherReversal<K>(b: seq<Bit>, ip: seq<nat>, fp: seq<nat>, ks: seq<K>, f: (Half, K) -> Half)
    requires |b| == 64 && InverseTables(ip, fp)
    ensures BlockCipher(BlockCipher(b, ip, fp, ks, f), ip, fp, Reverse(ks), f) == b
  {
    var p := Permute(b, ip);
    var (l, r) := Rounds(p[..32], p[32..], ks, f);
    var lr: seq<Bit> := r + l;
    var c := Permute(lr, fp);
    PermuteInverse(lr, fp, ip);
    var q := Permute(c, ip);
    assert q == lr;
    assert q[..32] == r && q[32..] == l;
    FeistelReversal(p[..32], p[32..], ks, f);
    assert p[..32] + p[32..] == p;
    PermuteInverse(b, ip, fp);
  }
}
