/** Counting and deleting every occurrence of a value in a sequence: the
    specification shared by the two removal loops of the proxy. */
module Seqs {

  /** Number of elements of `s` equal to `x`. */
  function Count<T(==)>(s: seq<T>, x: T): nat
  {
    if s == [] then 0 else (if s[0] == x then 1 else 0) + Count(s[1..], x)
  }

  /** `s` with every element equal to `x` deleted; the other elements keep
      their relative order. */
  function Without<T(==)>(s: seq<T>, x: T): seq<T>
  {
    if s == [] then [] else (if s[0] == x then [] else [s[0]]) + Without(s[1..], x)
  }

  lemma {:induction false} CountAppend<T>(a: seq<T>, b: seq<T>, x: T)
    ensures Count(a + b, x) == Count(a, x) + Count(b, x)
  {
    if a == [] {
      assert a + b == b;
    } else {
      assert (a + b)[1..] == a[1..] + b;
      CountAppend(a[1..], b, x);
    }
  }

  /** No occurrence is counted exactly when there is no occurrence. */
  lemma {:induction false} CountZero<T>(s: seq<T>, x: T)
    ensures Count(s, x) == 0 <==> x !in s
  {
    if s != [] {
      CountZero(s[1..], x);
      assert s == [s[0]] + s[1..];
    }
  }

  /** Deleting distributes over concatenation: what survives of `a` comes
      before what survives of `b`, so the survivors keep their order. */
  lemma {:induction false} WithoutAppend<T>(a: seq<T>, b: seq<T>, x: T)
    ensures Without(a + b, x) == Without(a, x) + Without(b, x)
  {
    if a == [] {
      assert a + b == b;
    } else {
      assert (a + b)[1..] == a[1..] + b;
      WithoutAppend(a[1..], b, x);
    }
  }

  /** The result is shorter than the input by exactly the number of
      occurrences deleted. */
  lemma {:induction false} WithoutLength<T>(s: seq<T>, x: T)
    ensures Count(s, x) <= |s|
    ensures |Without(s, x)| == |s| - Count(s, x)
  {
    if s != [] {
      WithoutLength(s[1..], x);
    }
  }

  /** Every other value keeps its number of occurrences and `x` has none. */
  lemma {:induction false} WithoutCount<T>(s: seq<T>, x: T, y: T)
    ensures Count(Without(s, x), y) == if y == x then 0 else Count(s, y)
  {
    if s != [] {
      var head := if s[0] == x then [] else [s[0]];
      CountAppend(head, Without(s[1..], x), y);
      WithoutCount(s[1..], x, y);
    }
  }

  /** Nothing equal to `x` survives, and a sequence without `x` is left
      exactly as it was. */
  lemma {:induction false} WithoutAbsent<T>(s: seq<T>, x: T)
    ensures x !in Without(s, x)
    ensures x !in s ==> Without(s, x) == s
  {
    if s != [] {
      WithoutAbsent(s[1..], x);
      assert s == [s[0]] + s[1..];
    }
  }

  /** Deleting one occurrence at position `i` does not change what deleting
      every occurrence gives: the step of the in-place removal loops. */
  lemma WithoutRemoveAt<T>(s: seq<T>, i: nat, x: T)
    requires i < |s| && s[i] == x
    ensures Without(s[..i] + s[i + 1..], x) == Without(s, x)
  {
    assert s == s[..i] + ([s[i]] + s[i + 1..]);
    WithoutAppend(s[..i], [s[i]] + s[i + 1..], x);
    WithoutAppend([s[i]], s[i + 1..], x);
    WithoutAppend(s[..i], s[i + 1..], x);
  }
}
