/**
 The ordering shared by every string type in fx_string.h: `memcmp`/`wmemcmp`
 over the common prefix, then a shorter string before a longer one.

 Code units are mathematical integers. A byte string stores `uint8_t` values, in [0, 256),
 and `memcmp` compares them as unsigned bytes; a wide string stores `wchar_t`
 values and `wmemcmp` compares them as such; both agree with integer order on
 the stored values.
 */
module LexOrder {

  function Min(a: int, b: int): int {
    if a <= b then a else b
  }

  /** `a` and `b` agree on their first `k` units. */
  predicate SamePrefix(a: seq<int>, b: seq<int>, k: nat)
    requires k <= |a| && k <= |b|
  {
    a[..k] == b[..k]
  }

  /**
   The sign of `memcmp(a, b, n)`: negative, zero or positive according to the
   first of the `n` leading units on which `a` and `b` differ.
   */
  function MemCmp(a: seq<int>, b: seq<int>, n: nat): (r: int)
    requires n <= |a| && n <= |b|
    ensures -1 <= r <= 1
    ensures r == 0 <==> a[..n] == b[..n]
    ensures r < 0 <==> exists k :: 0 <= k < n && SamePrefix(a, b, k) && a[k] < b[k]
    ensures r > 0 <==> exists k :: 0 <= k < n && SamePrefix(a, b, k) && a[k] > b[k]
  {
    MemCmpFrom(a, b, 0, n)
  }

  /** The scan behind `MemCmp`, once the first `i` units are known to agree. */
  function MemCmpFrom(a: seq<int>, b: seq<int>, i: nat, n: nat): (r: int)
    requires i <= n <= |a| && n <= |b|
    requires a[..i] == b[..i]
    ensures -1 <= r <= 1
    ensures r == 0 <==> a[..n] == b[..n]
    ensures r < 0 <==> exists k :: i <= k < n && SamePrefix(a, b, k) && a[k] < b[k]
    ensures r > 0 <==> exists k :: i <= k < n && SamePrefix(a, b, k) && a[k] > b[k]
    decreases n - i
  {
    if i == n then 0
    else if a[i] < b[i] then
      assert SamePrefix(a, b, i);
      -1
    else if a[i] > b[i] then
      assert SamePrefix(a, b, i);
      1
    else
      assert a[..i + 1] == a[..i] + [a[i]] && b[..i + 1] == b[..i] + [b[i]];
      MemCmpFrom(a, b, i + 1, n)
  }

  /**
   The comparison every `operator<` of fx_string.h performs: `memcmp` over
   `min(la, lb)` units of the two buffers, and on a tie the shorter length wins.
   */
  function MemCmpLess(a: seq<int>, la: nat, b: seq<int>, lb: nat): bool
    requires la <= |a| && lb <= |b|
  {
    var r := MemCmp(a, b, Min(la, lb));
    r < 0 || (r == 0 && la < lb)
  }

  /**
   Reference lexicographic order: `a` is below `b` when at the first position
   where they differ `a` has the smaller unit, or when `a` is a proper prefix of `b`.
   */
  predicate LexLess(a: seq<int>, b: seq<int>) {
    || (exists k :: 0 <= k < |a| && k < |b| && SamePrefix(a, b, k) && a[k] < b[k])
    || (|a| < |b| && a == b[..|a|])
  }

  /** The `memcmp`-based comparison is exactly the lexicographic order on the compared prefixes. */
  lemma MemCmpLessIsLexLess(a: seq<int>, la: nat, b: seq<int>, lb: nat)
    requires la <= |a| && lb <= |b|
    ensures MemCmpLess(a, la, b, lb) <==> LexLess(a[..la], b[..lb])
  {
    var x, y := a[..la], b[..lb];
    var m := Min(la, lb);
    var r := MemCmp(a, b, m);
    if r < 0 {
      var k :| 0 <= k < m && SamePrefix(a, b, k) && a[k] < b[k];
      assert x[..k] == a[..k] && y[..k] == b[..k];
      assert SamePrefix(x, y, k) && x[k] < y[k];
    } else if r == 0 {
      assert x[..m] == y[..m];
      forall k | 0 <= k < m && SamePrefix(x, y, k)
        ensures x[k] == y[k]
      {
        assert x[k] == x[..m][k] && y[k] == y[..m][k];
      }
      if la < lb {
        assert x == y[..la];
      }
    } else {
      var k :| 0 <= k < m && SamePrefix(a, b, k) && a[k] > b[k];
      assert x[..k] == a[..k] && y[..k] == b[..k];
      assert x[k] == a[k] && y[k] == b[k];
      forall j | 0 <= j < m && SamePrefix(x, y, j)
        ensures x[j] >= y[j]
      {
        PrefixAgrees(x, y, k);
        PrefixAgrees(x, y, j);
      }
    }
  }

  /** Agreeing on a prefix means agreeing unit by unit on it. */
  lemma PrefixAgrees(a: seq<int>, b: seq<int>, k: nat)
    requires k <= |a| && k <= |b| && SamePrefix(a, b, k)
    ensures forall i :: 0 <= i < k ==> a[i] == b[i]
  {
  }

  lemma LexLessIrreflexive(a: seq<int>)
    ensures !LexLess(a, a)
  {
  }

  lemma LexLessTransitive(a: seq<int>, b: seq<int>, c: seq<int>)
    requires LexLess(a, b) && LexLess(b, c)
    ensures LexLess(a, c)
  {
  }

  /** Two different sequences are always ordered one way or the other. */
  lemma LexLessConnected(a: seq<int>, b: seq<int>)
    requires a != b
    ensures LexLess(a, b) || LexLess(b, a)
  {
    var m := Min(|a|, |b|);
    var r := MemCmp(a, b, m);
    if r > 0 {
      var k :| 0 <= k < m && SamePrefix(a, b, k) && a[k] > b[k];
      assert SamePrefix(b, a, k) && b[k] < a[k];
    } else if r == 0 {
      if |a| < |b| {
        assert a == a[..m];
      } else {
        assert b == b[..m];
        assert |b| < |a|;
      }
    }
  }

  lemma LexLessAsymmetric(a: seq<int>, b: seq<int>)
    requires LexLess(a, b)
    ensures !LexLess(b, a)
  {
    if LexLess(b, a) {
      LexLessTransitive(a, b, a);
      LexLessIrreflexive(a);
    }
  }
}
