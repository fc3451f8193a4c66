/** 32-bit hashes, their promotion to 64 bits (starlark_map/src/mix_u32.rs,
    starlark_map/src/hash_value.rs), and keys that carry their hash (starlark_map/src/hashed.rs). */
module HashValue {
  import opened Integers

  /** `mix_u32`: a wrapping 64-bit multiplication. */
  function Promote(hash: u32): u64 {
    hash * 0x9e3779b97f4a7c15 % 0x1_0000_0000_0000_0000
  }

  /** Promotion loses nothing: multiplying by the inverse of the multiplier gives the 32-bit hash back. */
  lemma PromoteInvertible(hash: u32)
    ensures Promote(hash) * 0xf1de83e19937733d % 0x1_0000_0000_0000_0000 == hash
  {
    var q := hash * 0x9e3779b97f4a7c15 / 0x1_0000_0000_0000_0000;
    ModuloMultiple(hash, hash * 0x957bbf35006ed677 - q * 0xf1de83e19937733d);
  }

  lemma ModuloMultiple(x: u64, z: int)
    ensures (x + z * 0x1_0000_0000_0000_0000) % 0x1_0000_0000_0000_0000 == x
  {
  }

  lemma PromoteInjective(h1: u32, h2: u32)
    requires Promote(h1) == Promote(h2)
    ensures h1 == h2
  {
    PromoteInvertible(h1);
    PromoteInvertible(h2);
  }

  /** How a key type compares and hashes. */
  datatype KeyOps<!K> = KeyOps(eq: (K, K) -> bool, hash: K -> u32)

  /** What `Eq` and `Hash` demand: an equivalence, and equal hashes for equivalent keys. */
  ghost predicate Lawful<K(!new)>(ops: KeyOps<K>) {
    && (forall a :: ops.eq(a, a))
    && (forall a, b :: ops.eq(a, b) ==> ops.eq(b, a) && ops.hash(a) == ops.hash(b))
    && (forall a, b, c :: ops.eq(a, b) && ops.eq(b, c) ==> ops.eq(a, c))
  }
}
