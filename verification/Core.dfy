/** Shared vocabulary: bytes, digests, the abstract hash, optional values. */
module Core {

  datatype Option<+T> = None | Some(value: T)

  datatype Result<+T, +E> = Ok(value: T) | Err(error: E)

  newtype byte = b: int | 0 <= b < 256

  type Bytes = seq<byte>

  const HASH_LEN := 32

  type Digest = d: Bytes | |d| == HASH_LEN witness seq(HASH_LEN, _ => 0)

  function Zeros(n: nat): (z: Bytes)
    ensures |z| == n
  {
    if n == 0 then [] else [0] + Zeros(n - 1)
  }

  /** SHA-256 is foreign code: any total function from bytes to 32-byte digests. */
  type Hash = Bytes -> Digest

  /** Two different members of `inputs` share a digest. `inputs` is always the finite set of
      strings that the computations at hand really hashed, so this names a concrete pair. */
  ghost predicate Collision(h: Hash, inputs: set<Bytes>) {
    exists x, y {:trigger x in inputs, y in inputs} :: x in inputs && y in inputs && x != y && h(x) == h(y)
  }

  lemma CollisionGrows(h: Hash, fewer: set<Bytes>, more: set<Bytes>)
    requires fewer <= more && Collision(h, fewer)
    ensures Collision(h, more)
  {
    var x, y :| x in fewer && y in fewer && x != y && h(x) == h(y);
    assert x in more && y in more;
  }

  ghost predicate AllDigests(items: seq<Bytes>) {
    forall i :: 0 <= i < |items| ==> |items[i]| == HASH_LEN
  }

  /** Concatenation of a sequence of chunks. */
  function Concat<T>(chunks: seq<seq<T>>): seq<T> {
    if chunks == [] then [] else chunks[0] + Concat(chunks[1..])
  }

  lemma {:induction false} ConcatAppend<T>(a: seq<seq<T>>, b: seq<seq<T>>)
    ensures Concat(a + b) == Concat(a) + Concat(b)
  {
    if a == [] {
      assert a + b == b;
    } else {
      assert (a + b)[1..] == a[1..] + b;
      ConcatAppend(a[1..], b);
    }
  }

  lemma ConcatSnoc<T>(a: seq<seq<T>>, x: seq<T>)
    ensures Concat(a + [x]) == Concat(a) + x
  {
    ConcatAppend(a, [x]);
    assert Concat([x]) == x + Concat([]);
  }

  lemma SeqAssoc<T>(a: seq<T>, b: seq<T>, c: seq<T>)
    ensures (a + b) + c == a + (b + c)
  {}

  lemma Cancel<T>(a: multiset<T>, b: multiset<T>, common: multiset<T>)
    requires a + common == b + common
    ensures a == b
  {
    forall x | x in a + b
      ensures a[x] == b[x]
    {
      assert (a + common)[x] == (b + common)[x];
    }
  }

  function Pow2(n: nat): (p: nat)
    ensures p >= 1
  {
    if n == 0 then 1 else 2 * Pow2(n - 1)
  }

  lemma MulMono(b: int, x: int, y: int)
    requires b >= 0 && x <= y
    ensures b * x <= b * y
  {
    assert b * (y - x) >= 0;
    assert b * y == b * x + b * (y - x);
  }

  /** Quotients are determined by the division equation. */
  lemma DivUnique(a: int, b: int, q: int, r: int)
    requires b > 0 && 0 <= r < b && a == b * q + r
    ensures a / b == q
  {
    var d := a / b;
    assert b * d <= a < b * d + b;
    assert b * (q + 1) == b * q + b && b * (d + 1) == b * d + b;
    if d > q {
      MulMono(b, q + 1, d);
    } else if d < q {
      MulMono(b, d + 1, q);
    }
  }
}
