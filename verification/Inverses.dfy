/** What the powers computed by field.rs and bignum.rs are for: modulo a prime they are inverses. */
module Inverses {
  import opened Congruence
  import opened Fermat
  import Bignum
  import Field25519
  import Monoid
  import Words

  lemma PrimeModulo(p: nat)
    requires p > 1 && Prime(Modulo(p))
    ensures PrimeAt(Modulo(p), p)
  {
    Words.ModUnique(p, p, 1, 0);
    Words.ModUnique(0, p, 0, 0);
    forall k | 0 < k < p ensures !Modulo(p).same(k, 0) {
      Words.ModUnique(k, p, 0, k);
    }
  }

  lemma {:induction false} PowerFollows(m: Mod, x: nat, e: nat)
    requires Reduces(m, Field25519.P)
    ensures m.same(Field25519.Power(x, e), Pow(x, e))
  {
    if e == 0 {
      Refl(m, 1);
    } else {
      PowerFollows(m, x, e - 1);
      Refl(m, x);
      ReducedProduct(m, Field25519.P, x, x, Field25519.Power(x, e - 1), Pow(x, e - 1));
    }
  }

  lemma {:induction false} PowModFollows(m: Mod, p: nat, x: nat, e: nat)
    requires p > 1 && Reduces(m, p)
    ensures m.same(Bignum.PowMod(x, e, p), Pow(x, e))
  {
    if e == 0 {
      Words.ModUnique(1, p, 0, 1);
      Refl(m, 1);
    } else {
      PowModFollows(m, p, x, e - 1);
      Refl(m, x);
      ReducedProduct(m, p, x, x, Bignum.PowMod(x, e - 1, p), Pow(x, e - 1));
    }
  }

  /** y is the inverse of x, as Fermat has it. */
  lemma InverseBy(m: Mod, p: nat, x: nat, y: int)
    requires PrimeAt(m, p) && !m.same(x, 0) && m.same(y, Pow(x, p - 2))
    ensures m.same(x * y, 1)
  {
    Inverse(m, p, x);
    Refl(m, x);
    Products(m, x, x, y, Pow(x, p - 2));
    Trans(m, x * y, x * Pow(x, p - 2), 1);
  }

  lemma SameOne(p: nat, a: int)
    requires p > 1 && Modulo(p).same(a, 1)
    ensures a % p == 1
  {
    Words.ModUnique(1, p, 0, 1);
  }

  lemma NotSameZero(p: nat, a: int)
    requires p > 0 && a % p != 0
    ensures !Modulo(p).same(a, 0)
  {
    Words.ModUnique(0, p, 0, 0);
  }

  /** field.rs inverts: z^(p-2) times z is 1 for every z that p does not divide. */
  lemma {:induction false} InvertInverts(z: nat)
    requires Prime(Modulo(Field25519.P)) && z % Field25519.P != 0
    ensures (z * Field25519.Power(z, Field25519.P - 2)) % Field25519.P == 1
  {
    InvertsBy(z, Field25519.P);
  }

  lemma {:induction false} InvertsBy(z: nat, p: nat)
    requires p == Field25519.P && Prime(Modulo(p)) && z % p != 0
    ensures (z * Field25519.Power(z, p - 2)) % p == 1
  {
    PrimeModulo(p);
    ModuloReduces(p);
    PowerFollows(Modulo(p), z, p - 2);
    NotSameZero(p, z);
    InverseBy(Modulo(p), p, z, Field25519.Power(z, p - 2));
    SameOne(p, z * Field25519.Power(z, p - 2));
  }

  /** So does bignum.rs, modulo any prime. */
  lemma ModInverseInverts(x: nat, p: nat)
    requires p > 1 && Prime(Modulo(p)) && x % p != 0
    ensures (x * Bignum.PowMod(x, p - 2, p)) % p == 1
  {
    PrimeModulo(p);
    ModuloReduces(p);
    PowModFollows(Modulo(p), p, x, p - 2);
    NotSameZero(p, x);
    InverseBy(Modulo(p), p, x, Bignum.PowMod(x, p - 2, p));
    SameOne(p, x * Bignum.PowMod(x, p - 2, p));
  }
}
