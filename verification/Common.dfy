/** Vocabulary shared by the models: options, results, bytes, and sequences of fragments. */
module Common {

  datatype Option<+T> = None | Some(value: T)

  datatype Result<+T, +E> = Ok(value: T) | Err(error: E)

  type Byte = b: int | 0 <= b < 256

  function Min(a: nat, b: nat): nat {
    if a < b then a else b
  }

  /** The bytes of a list of fragments, in order. */
  function Flatten<T>(parts: seq<seq<T>>): seq<T> {
    if parts == [] then [] else parts[0] + Flatten(parts[1..])
  }

  lemma {:induction false} FlattenConcat<T>(a: seq<seq<T>>, b: seq<seq<T>>)
    ensures Flatten(a + b) == Flatten(a) + Flatten(b)
  {
    if a == [] {
      assert a + b == b;
    } else {
      assert (a + b)[0] == a[0] && (a + b)[1..] == a[1..] + b;
      FlattenConcat(a[1..], b);
    }
  }

  lemma FlattenSingle<T>(x: seq<T>)
    ensures Flatten([x]) == x
  {
    assert [x][1..] == [];
  }

  lemma FlattenSnoc<T>(a: seq<seq<T>>, x: seq<T>)
    ensures Flatten(a + [x]) == Flatten(a) + x
  {
    FlattenConcat(a, [x]);
    FlattenSingle(x);
  }

  /** No value occurs twice. */
  ghost predicate Distinct<T(!new)>(s: seq<T>) {
    forall i, j :: 0 <= i < j < |s| ==> s[i] != s[j]
  }
}

/** Remainders by a positive divisor that is not a literal. */
module Modular {

  lemma ModIs(x: int, q: int, r: int, n: int)
    requires 0 <= r < n && x == q * n + r
    ensures x % n == r && x / n == q
  {
    var d := x / n - q;
    assert d * n == r - x % n by {
      assert x == (x / n) * n + x % n;
      assert (x / n) * n - q * n == d * n;
    }
    SmallMultiple(d, n);
  }

  /** A multiple of n strictly between -n and n is zero. */
  lemma SmallMultiple(d: int, n: int)
    requires -n < d * n < n
    ensures d == 0
  {
    if d >= 1 {
      MulGrows(d, n);
      assert false;
    }
    if d <= -1 {
      MulGrows(-d, n);
      assert false;
    }
  }

  lemma MulGrows(d: int, n: int)
    requires d >= 1 && n >= 0
    ensures d * n >= n
  {
    assert d * n == (d - 1) * n + n;
    assert (d - 1) * n >= 0;
  }

  /** Only the remainder of a position matters to a later position. */
  lemma ModAdd(x: int, k: int, n: int)
    requires n > 0
    ensures (x % n + k) % n == (x + k) % n
  {
    var y := x % n + k;
    assert x + k == (x / n + y / n) * n + y % n by {
      assert x == (x / n) * n + x % n;
      assert y == (y / n) * n + y % n;
      assert (x / n + y / n) * n == (x / n) * n + (y / n) * n;
    }
    ModIs(x + k, x / n + y / n, y % n, n);
  }

  /** Two positions less than a lap apart share a slot only if they are equal. */
  lemma SameSlot(x: int, y: int, n: int)
    requires n > 0 && x <= y < x + n && x % n == y % n
    ensures x == y
  {
    var d := y / n - x / n;
    assert y - x == d * n by {
      assert x == (x / n) * n + x % n;
      assert y == (y / n) * n + y % n;
      assert (y / n) * n - (x / n) * n == d * n;
    }
    SmallMultiple(d, n);
  }

  /** The slot k places after slot p: at most one lap is taken off. */
  lemma Wrap(p: int, k: int, n: int)
    requires 0 <= p < n && 0 <= k <= n
    ensures (p + k) % n == if p + k < n then p + k else p + k - n
  {
    if p + k < n {
      ModIs(p + k, 0, p + k, n);
    } else {
      ModIs(p + k, 1, p + k - n, n);
    }
  }
}
