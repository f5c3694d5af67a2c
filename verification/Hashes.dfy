/** The two string hashes as polynomials in the characters. */
module Hashes {
  import BlockCacheModel
  import LockedHashMap

  function Power(base: nat, n: nat): nat {
    if n == 0 then 1 else base * Power(base, n - 1)
  }

  /** The characters as digits in the given base, the first one highest. */
  function Digits(base: nat, key: string): nat {
    if key == "" then 0 else key[0] as nat * Power(base, |key| - 1) + Digits(base, key[1..])
  }

  lemma Distribute(a: nat, b: nat, c: nat, p: nat)
    ensures (a * b + c) * p == a * (b * p) + c * p
  {
  }

  lemma {:induction false} BlockHashFrom(h: nat, key: string, n: BlockCacheModel.Size)
    ensures BlockCacheModel.HashFrom(h % 0x1_0000_0000, key, n) == (h * Power(31, |key|) + Digits(31, key)) % 0x1_0000_0000 % n
    decreases key
  {
    if key != "" {
      var c := key[0] as nat;
      BlockHashFrom(h * 31 + c, key[1..], n);
      StepMod(h, c);
      Shift(31, h, key);
    }
  }

  lemma StepMod(h: nat, c: nat)
    ensures (h % 0x1_0000_0000 * 31 + c) % 0x1_0000_0000 == (h * 31 + c) % 0x1_0000_0000
  {
  }

  /** One more digit. */
  lemma Shift(base: nat, h: nat, key: string)
    requires key != ""
    ensures (h * base + key[0] as nat) * Power(base, |key[1..]|) + Digits(base, key[1..]) ==
            h * Power(base, |key|) + Digits(base, key)
  {
    Distribute(h, base, key[0] as nat, Power(base, |key| - 1));
  }

  /** The block cache's hash: the characters as digits in base 31, modulo 2^32, reduced to a bucket. */
  lemma BlockHash(key: string, n: BlockCacheModel.Size)
    ensures BlockCacheModel.Hash(key, n) == Digits(31, key) % 0x1_0000_0000 % n
  {
    BlockHashFrom(0, key, n);
    Front(31, key);
  }

  lemma Front(base: nat, key: string)
    ensures 0 * Power(base, |key|) + Digits(base, key) == Digits(base, key)
  {
  }

  lemma MapStepMod(h: nat, c: nat)
    ensures var r := h % 0x1_0000_0000_0000_0000;
            (r * 32 + r + c) % 0x1_0000_0000_0000_0000 == (h * 33 + c) % 0x1_0000_0000_0000_0000
  {
    var q, r := h / 0x1_0000_0000_0000_0000, h % 0x1_0000_0000_0000_0000;
    assert h == q * 0x1_0000_0000_0000_0000 + r;
    assert h * 33 + c == (r * 32 + r + c) + (q * 33) * 0x1_0000_0000_0000_0000;
    AddRounds(r * 32 + r + c, q * 33);
  }

  lemma AddRounds(x: nat, k: nat)
    ensures (x + k * 0x1_0000_0000_0000_0000) % 0x1_0000_0000_0000_0000 == x % 0x1_0000_0000_0000_0000
  {
  }

  lemma {:induction false} MapHashFrom(h: nat, key: string)
    ensures LockedHashMap.HashFrom(h % 0x1_0000_0000_0000_0000, key) ==
            (h * Power(33, |key|) + Digits(33, key)) % 0x1_0000_0000_0000_0000
    decreases key
  {
    if key != "" {
      var c := key[0] as nat;
      MapStepMod(h, c);
      MapHashFrom(h * 33 + c, key[1..]);
      Shift(33, h, key);
    }
  }

  /** The hash map's: the same in base 33, with 5381 as an extra digit in front, modulo 2^64. */
  lemma MapHash(key: string, n: nat)
    requires n > 0
    ensures LockedHashMap.Bucket(key, n) == (5381 * Power(33, |key|) + Digits(33, key)) % 0x1_0000_0000_0000_0000 % n
  {
    MapHashFrom(5381, key);
  }
}
