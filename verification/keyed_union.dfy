/**
 * First-seen-order union of sequences keyed by a projection: an element is
 * appended only if no element with the same key is already present.
 * Namespace declarations (keyed by themselves) and schema-location pairs
 * (keyed by uri) are both merged this way.
 */
module KeyedUnion {
  import SeqFacts

  predicate HasKey<T, K(==)>(xs: seq<T>, key: T -> K, k: K) {
    exists i | 0 <= i < |xs| :: key(xs[i]) == k
  }

  /** No two elements of `xs` share a key. */
  predicate DistinctKeys<T, K(==)>(xs: seq<T>, key: T -> K) {
    forall i, j | 0 <= i < j < |xs| :: key(xs[i]) != key(xs[j])
  }

  /** Appends `x` unless its key is already present. */
  function Add<T, K(==)>(acc: seq<T>, x: T, key: T -> K): (r: seq<T>)
    ensures HasKey(r, key, key(x))
    ensures r == acc || r == acc + [x]
    ensures r == acc + [x] <==> !HasKey(acc, key, key(x))
  {
    if HasKey(acc, key, key(x)) then acc
    else
      var r := acc + [x];
      assert key(r[|acc|]) == key(x);
      r
  }

  /**
   * Adds every element of `xs`, in order, to `acc`. The result extends
   * `acc`, contains only elements of `acc` and `xs`, has every key of
   * `xs`, and keeps keys distinct when they were distinct in `acc`.
   */
  function Union<T, K(==)>(acc: seq<T>, xs: seq<T>, key: T -> K): (r: seq<T>)
    ensures |acc| <= |r| && r[..|acc|] == acc
    ensures forall y | y in r :: y in acc || y in xs
    ensures forall x | x in xs :: HasKey(r, key, key(x))
    ensures forall y | y in acc :: y in r
    ensures forall i | |acc| <= i < |r| :: !HasKey(acc, key, key(r[i]))
    ensures DistinctKeys(acc, key) ==> DistinctKeys(r, key)
    decreases |xs|
  {
    if xs == [] then acc
    else
      var next := Add(acc, xs[0], key);
      AddKeepsDistinct(acc, xs[0], key);
      var r := Union(next, xs[1..], key);
      UnionStep(acc, xs, key, next, r);
      r
  }

  lemma AddKeepsDistinct<T, K>(acc: seq<T>, x: T, key: T -> K)
    ensures DistinctKeys(acc, key) ==> DistinctKeys(Add(acc, x, key), key)
  {
    var next := Add(acc, x, key);
    if DistinctKeys(acc, key) && next == acc + [x] {
      forall i, j | 0 <= i < j < |next| ensures key(next[i]) != key(next[j]) {
        if j == |acc| {
          assert next[i] == acc[i];
        }
      }
    }
  }

  /** A key present in a prefix is present in the whole. */
  lemma HasKeyPrefix<T, K>(a: seq<T>, b: seq<T>, key: T -> K, k: K)
    requires |a| <= |b| && b[..|a|] == a
    requires HasKey(a, key, k)
    ensures HasKey(b, key, k)
  {
    var j :| 0 <= j < |a| && key(a[j]) == k;
    assert b[j] == a[j];
  }

  /** One step of `Union`: the contract for `next` and the rest of `xs` gives the contract for `acc` and `xs`. */
  lemma UnionStep<T, K>(acc: seq<T>, xs: seq<T>, key: T -> K, next: seq<T>, r: seq<T>)
    requires xs != [] && next == Add(acc, xs[0], key)
    requires |next| <= |r| && r[..|next|] == next
    requires forall y | y in r :: y in next || y in xs[1..]
    requires forall x | x in xs[1..] :: HasKey(r, key, key(x))
    requires forall y | y in next :: y in r
    requires forall i | |next| <= i < |r| :: !HasKey(next, key, key(r[i]))
    ensures |acc| <= |r| && r[..|acc|] == acc
    ensures forall y | y in r :: y in acc || y in xs
    ensures forall x | x in xs :: HasKey(r, key, key(x))
    ensures forall y | y in acc :: y in r
    ensures forall i | |acc| <= i < |r| :: !HasKey(acc, key, key(r[i]))
  {
    assert r[..|acc|] == next[..|acc|];
    forall y | y in r ensures y in acc || y in xs {
      if y in xs[1..] {
        assert y in xs;
      } else if y !in acc {
        assert y == xs[0];
      }
    }
    forall x | x in xs ensures HasKey(r, key, key(x)) {
      if x == xs[0] {
        HasKeyPrefix(next, r, key, key(x));
      } else {
        assert x in xs[1..];
      }
    }
    forall y | y in acc ensures y in r {
      assert y in next;
    }
    forall i | |acc| <= i < |r| ensures !HasKey(acc, key, key(r[i])) {
      if i < |next| {
        assert next == acc + [xs[0]] && r[i] == xs[0];
      } else if HasKey(acc, key, key(r[i])) {
        HasKeyPrefix(acc, next, key, key(r[i]));
      }
    }
  }

  /** An element whose key is already present adds nothing. */
  lemma {:induction false} UnionOfKnownKeys<T, K>(acc: seq<T>, xs: seq<T>, key: T -> K)
    requires forall x | x in xs :: HasKey(acc, key, key(x))
    ensures Union(acc, xs, key) == acc
    decreases |xs|
  {
    if xs != [] {
      assert Add(acc, xs[0], key) == acc;
      assert forall x | x in xs[1..] :: x in xs;
      UnionOfKnownKeys(acc, xs[1..], key);
    }
  }

  /** The union of a sequence with itself is the sequence: re-merging the same context changes nothing. */
  lemma UnionIdempotent<T, K>(acc: seq<T>, key: T -> K)
    ensures Union(acc, acc, key) == acc
  {
    forall x | x in acc ensures HasKey(acc, key, key(x)) {
    }
    UnionOfKnownKeys(acc, acc, key);
  }

  /** Adding `xs` and then `ys` is adding `xs + ys`. */
  lemma {:induction false} UnionAppend<T, K>(acc: seq<T>, xs: seq<T>, ys: seq<T>, key: T -> K)
    ensures Union(Union(acc, xs, key), ys, key) == Union(acc, xs + ys, key)
    decreases |xs|
  {
    if xs == [] {
      assert xs + ys == ys;
    } else {
      assert (xs + ys)[0] == xs[0] && (xs + ys)[1..] == xs[1..] + ys;
      UnionAppend(Add(acc, xs[0], key), xs[1..], ys, key);
    }
  }

  // ---------------------------------------------------------------- first-seen order

  /**
   * The reference definition of what a union appends: among the first `n`
   * elements of `xs`, those whose key occurs neither in `acc` nor earlier in
   * `xs`, in their order in `xs`. Each new key is thus represented by its
   * first occurrence.
   */
  function FirstNew<T, K(==)>(acc: seq<T>, xs: seq<T>, key: T -> K, n: nat): seq<T>
    requires n <= |xs|
  {
    if n == 0 then []
    else
      var x := xs[n - 1];
      FirstNew(acc, xs, key, n - 1) + (if HasKey(acc + xs[..n - 1], key, key(x)) then [] else [x])
  }

  /** A key is in a sequence extended by one element iff it is in the sequence or is that element's key. */
  lemma HasKeySnoc<T, K>(s: seq<T>, x: T, key: T -> K, k: K)
    ensures HasKey(s + [x], key, k) <==> HasKey(s, key, k) || key(x) == k
  {
    var t := s + [x];
    if HasKey(s, key, k) {
      var j :| 0 <= j < |s| && key(s[j]) == k;
      assert t[j] == s[j];
    }
    if key(x) == k {
      assert t[|s|] == x;
    }
    if HasKey(t, key, k) && key(x) != k {
      var j :| 0 <= j < |t| && key(t[j]) == k;
      assert j < |s| && t[j] == s[j];
    }
  }

  /** Keeping only first occurrences loses no key. */
  lemma {:induction false} FirstNewKeys<T, K>(acc: seq<T>, xs: seq<T>, key: T -> K, n: nat, k: K)
    requires n <= |xs|
    ensures HasKey(acc + FirstNew(acc, xs, key, n), key, k) <==> HasKey(acc + xs[..n], key, k)
  {
    if n == 0 {
      assert acc + FirstNew(acc, xs, key, 0) == acc + xs[..0];
    } else {
      var x := xs[n - 1];
      var f := FirstNew(acc, xs, key, n - 1);
      var seen := HasKey(acc + xs[..n - 1], key, key(x));
      FirstNewKeys(acc, xs, key, n - 1, k);
      FirstNewKeys(acc, xs, key, n - 1, key(x));
      assert acc + xs[..n] == (acc + xs[..n - 1]) + [x];
      HasKeySnoc(acc + xs[..n - 1], x, key, k);
      if !seen {
        assert acc + FirstNew(acc, xs, key, n) == (acc + f) + [x];
        HasKeySnoc(acc + f, x, key, k);
      } else {
        assert acc + FirstNew(acc, xs, key, n) == acc + f;
      }
    }
  }

  /** Adding `ys` and then one more element is adding `ys + [x]`. */
  lemma UnionSnoc<T, K>(acc: seq<T>, ys: seq<T>, x: T, key: T -> K)
    ensures Union(acc, ys + [x], key) == Add(Union(acc, ys, key), x, key)
  {
    UnionAppend(acc, ys, [x], key);
    assert [x][1..] == [];
  }

  /** The union over the first `n` elements of `xs` appends exactly their first-seen new elements. */
  lemma {:induction false} UnionPrefix<T, K>(acc: seq<T>, xs: seq<T>, key: T -> K, n: nat)
    requires n <= |xs|
    ensures Union(acc, xs[..n], key) == acc + FirstNew(acc, xs, key, n)
  {
    if n == 0 {
      assert xs[..0] == [];
    } else {
      var m: nat := n - 1;
      var init := xs[..m];
      SeqFacts.TakeLast(xs, n);
      UnionSnoc(acc, init, xs[m], key);
      UnionPrefix(acc, xs, key, m);
      AddFirstNew(acc, xs, key, n);
    }
  }

  /** One more element of `xs`: it joins the new elements exactly when its key was not seen before. */
  lemma FirstNewStep<T, K>(acc: seq<T>, xs: seq<T>, key: T -> K, n: nat)
    requires 0 < n <= |xs|
    ensures acc + FirstNew(acc, xs, key, n) ==
      if HasKey(acc + xs[..n - 1], key, key(xs[n - 1])) then acc + FirstNew(acc, xs, key, n - 1)
      else acc + FirstNew(acc, xs, key, n - 1) + [xs[n - 1]]
  {
    var f := FirstNew(acc, xs, key, n - 1);
    assert f + [] == f;
    assert acc + (f + [xs[n - 1]]) == acc + f + [xs[n - 1]];
  }

  /** Adding the next element of `xs` extends the first-seen new elements by one step. */
  lemma AddFirstNew<T, K>(acc: seq<T>, xs: seq<T>, key: T -> K, n: nat)
    requires 0 < n <= |xs|
    ensures Add(acc + FirstNew(acc, xs, key, n - 1), xs[n - 1], key) == acc + FirstNew(acc, xs, key, n)
  {
    var m: nat := n - 1;
    var x := xs[m];
    var f := FirstNew(acc, xs, key, m);
    FirstNewKeys(acc, xs, key, m, key(x));
    if HasKey(acc + xs[..m], key, key(x)) {
      assert FirstNew(acc, xs, key, n) == f + [];
      assert f + [] == f;
    } else {
      assert FirstNew(acc, xs, key, n) == f + [x];
      assert acc + f + [x] == acc + (f + [x]);
    }
  }

  /**
   * The union is `acc` followed by the elements of `xs` with a key not seen
   * before, in first-seen order, each new key by its first occurrence.
   */
  lemma UnionFirstSeen<T, K>(acc: seq<T>, xs: seq<T>, key: T -> K)
    ensures Union(acc, xs, key) == acc + FirstNew(acc, xs, key, |xs|)
  {
    UnionPrefix(acc, xs, key, |xs|);
    assert xs[..|xs|] == xs;
  }
}
