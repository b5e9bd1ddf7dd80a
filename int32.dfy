/** Unchecked 32-bit signed arithmetic, as C# evaluates `int` expressions,
    and the additive hash fold `Aggregate(seed, (h, x) => h + k * hash(x))`
    that the path and list types use for `GetHashCode`. */
module Int32 {

  const Modulus: int := 0x1_0000_0000
  const MinValue: int := -0x8000_0000
  const MaxValue: int := 0x7FFF_FFFF

  predicate InRange(x: int) {
    MinValue <= x <= MaxValue
  }

  /** The 32-bit value congruent to `x`: what an unchecked `int` operation keeps. */
  function Wrap(x: int): (r: int)
    ensures InRange(r)
    ensures (r - x) % Modulus == 0
    ensures InRange(x) ==> r == x
  {
    var m := x % Modulus;
    if m > MaxValue then m - Modulus else m
  }

  predicate Congruent(x: int, y: int) {
    (x - y) % Modulus == 0
  }

  lemma CongruentTrans(x: int, y: int, z: int)
    requires Congruent(x, y) && Congruent(y, z)
    ensures Congruent(x, z)
  {
    var i := (x - y) / Modulus;
    var j := (y - z) / Modulus;
    assert x - z == (i + j) * Modulus;
  }

  lemma Distribute(k: int, a: int, b: int)
    ensures k * (a + b) == k * a + k * b
  {
  }

  /** Values congruent modulo 2^32 wrap to the same value. */
  lemma WrapCongruent(x: int, y: int)
    requires Congruent(x, y)
    ensures Wrap(x) == Wrap(y)
  {
    var k := (x - y) / Modulus;
    assert x == y + k * Modulus;
    assert x % Modulus == y % Modulus;
  }

  lemma CongruentAdd(a: int, b: int, c: int, d: int)
    requires Congruent(a, b) && Congruent(c, d)
    ensures Congruent(a + c, b + d)
  {
    var i := (a - b) / Modulus;
    var j := (c - d) / Modulus;
    assert (a + c) - (b + d) == (i + j) * Modulus;
  }

  function Sum(xs: seq<int>): int {
    if xs == [] then 0 else xs[0] + Sum(xs[1..])
  }

  lemma {:induction false} SumAppend(a: seq<int>, b: seq<int>)
    ensures Sum(a + b) == Sum(a) + Sum(b)
  {
    if a == [] {
      assert a + b == b;
    } else {
      assert (a + b)[1..] == a[1..] + b;
      SumAppend(a[1..], b);
    }
  }

  /** The fold as C# evaluates it: each product and each sum wraps. */
  function HashFold(seed: int, k: int, hashes: seq<int>): int
    decreases |hashes|
  {
    if hashes == [] then seed else HashFold(Wrap(seed + Wrap(k * hashes[0])), k, hashes[1..])
  }

  /** The fold is the wrapped sum `seed + k * (h1 + ... + hn)`. */
  lemma {:induction false} HashFoldClosedForm(seed: int, k: int, hashes: seq<int>)
    requires InRange(seed)
    ensures HashFold(seed, k, hashes) == Wrap(seed + k * Sum(hashes))
    decreases |hashes|
  {
    if hashes != [] {
      var h, total := hashes[0], Sum(hashes[1..]);
      var product, rest := k * h, k * total;
      var next := Wrap(seed + Wrap(product));
      HashFoldClosedForm(next, k, hashes[1..]);
      CongruentAdd(seed, seed, Wrap(product), product);
      CongruentTrans(next, seed + Wrap(product), seed + product);
      CongruentAdd(next, seed + product, rest, rest);
      Distribute(k, h, total);
      WrapCongruent(next + rest, seed + k * (h + total));
    }
  }

  /** Concatenation order does not change the fold, so permuted inputs collide. */
  lemma HashFoldSwap(seed: int, k: int, a: seq<int>, b: seq<int>)
    requires InRange(seed)
    ensures HashFold(seed, k, a + b) == HashFold(seed, k, b + a)
  {
    SumAppend(a, b);
    SumAppend(b, a);
    assert Sum(a + b) == Sum(b + a);
    HashFoldClosedForm(seed, k, a + b);
    HashFoldClosedForm(seed, k, b + a);
  }
}
