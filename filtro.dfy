/** Filtering a list by a test, keeping the order: the list comprehensions
    `[x for x in xs if p(x)]` of game_manager.py, and the pruning of a
    room's connections to those whose send succeeded. */
module Filtro {

  /** The elements of `xs` for which `p` holds, in list order. */
  function Filtrar<T>(xs: seq<T>, p: T -> bool): (r: seq<T>)
    ensures |r| <= |xs|
  {
    if xs == [] then []
    else
      var prev := Filtrar(xs[..|xs| - 1], p);
      if p(xs[|xs| - 1]) then prev + [xs[|xs| - 1]] else prev
  }

  /** `a` is `b` with some elements left out, the rest in their order. */
  predicate Subsecuencia<T(==)>(a: seq<T>, b: seq<T>)
    decreases |b|
  {
    if a == [] then true
    else if b == [] then false
    else if a[|a| - 1] == b[|b| - 1] then Subsecuencia(a[..|a| - 1], b[..|b| - 1])
    else Subsecuencia(a, b[..|b| - 1])
  }

  /** The filter is a subsequence of the list: it keeps the original order
      and adds nothing. */
  lemma {:induction false} FiltrarSubsecuencia<T>(xs: seq<T>, p: T -> bool)
    ensures Subsecuencia(Filtrar(xs, p), xs)
  {
    if xs != [] {
      var ini := xs[..|xs| - 1];
      var prev := Filtrar(ini, p);
      FiltrarSubsecuencia(ini, p);
      if !p(xs[|xs| - 1]) && prev != [] {
        FiltrarMultiset(ini, p, prev[|prev| - 1]);
      }
    }
  }

  /** An element is kept exactly when it was in the list and passes the
      test; it is kept as many times as it was listed. */
  lemma {:induction false} FiltrarMultiset<T>(xs: seq<T>, p: T -> bool, x: T)
    ensures multiset(Filtrar(xs, p))[x] == if p(x) then multiset(xs)[x] else 0
    ensures x in Filtrar(xs, p) <==> x in xs && p(x)
  {
    if xs != [] {
      var ini := xs[..|xs| - 1];
      FiltrarMultiset(ini, p, x);
      assert xs == ini + [xs[|xs| - 1]];
    }
  }

  /** When every element passes the test, nothing is dropped. */
  lemma {:induction false} FiltrarTodas<T>(xs: seq<T>, p: T -> bool)
    requires forall k :: 0 <= k < |xs| ==> p(xs[k])
    ensures Filtrar(xs, p) == xs
  {
    if xs != [] {
      var ini := xs[..|xs| - 1];
      assert forall k :: 0 <= k < |ini| ==> ini[k] == xs[k];
      FiltrarTodas(ini, p);
      assert xs == ini + [xs[|xs| - 1]];
    }
  }

  /** Filtering twice with the same test drops nothing more. */
  lemma FiltrarIdempotente<T>(xs: seq<T>, p: T -> bool)
    ensures Filtrar(Filtrar(xs, p), p) == Filtrar(xs, p)
  {
    var v := Filtrar(xs, p);
    forall k | 0 <= k < |v| ensures p(v[k]) {
      FiltrarMultiset(xs, p, v[k]);
    }
    FiltrarTodas(v, p);
  }

  /** `k` is the only position of `xs` at which `p` holds. */
  predicate SoloEn<T>(xs: seq<T>, p: T -> bool, k: int) {
    0 <= k < |xs| && p(xs[k]) && forall m :: 0 <= m < |xs| && m != k ==> !p(xs[m])
  }

  /** The filter is empty exactly when `p` holds nowhere. */
  lemma {:induction false} FiltrarVacio<T>(xs: seq<T>, p: T -> bool)
    ensures Filtrar(xs, p) == [] <==> forall k :: 0 <= k < |xs| ==> !p(xs[k])
  {
    if xs != [] {
      var ini := xs[..|xs| - 1];
      FiltrarVacio(ini, p);
      assert forall k :: 0 <= k < |ini| ==> ini[k] == xs[k];
    }
  }

  /** The filter holds exactly one element exactly when `p` holds at exactly
      one position, and then it holds the element at that position. */
  lemma {:induction false} FiltrarUno<T>(xs: seq<T>, p: T -> bool)
    ensures |Filtrar(xs, p)| == 1 <==> exists k :: SoloEn(xs, p, k)
    ensures forall k :: SoloEn(xs, p, k) ==> Filtrar(xs, p) == [xs[k]]
  {
    if xs != [] {
      var n := |xs| - 1;
      var ini := xs[..n];
      FiltrarUno(ini, p);
      FiltrarVacio(ini, p);
      assert forall k :: 0 <= k < n ==> ini[k] == xs[k];
      if p(xs[n]) {
        if |Filtrar(xs, p)| == 1 {
          assert SoloEn(xs, p, n);
        }
        forall k | SoloEn(xs, p, k) ensures Filtrar(xs, p) == [xs[k]] {
          assert k == n;
        }
      } else {
        forall k | SoloEn(xs, p, k) ensures SoloEn(ini, p, k) && Filtrar(xs, p) == [xs[k]] {
          assert k < n;
        }
        if |Filtrar(xs, p)| == 1 {
          var k :| SoloEn(ini, p, k);
          assert SoloEn(xs, p, k);
        }
      }
    }
  }
}
