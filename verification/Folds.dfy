/** A step taken for each element of a list in turn, and what carries over from one
    step to all of them. */
module Folds {

  /** The state after the first n elements. */
  function Fold<S, W>(f: (S, W) -> S, s: S, w: seq<W>, n: nat): S
    requires n <= |w|
  {
    if n == 0 then s else f(Fold(f, s, w, n - 1), w[n - 1])
  }

  lemma {:induction false} FoldPrefix<S, W>(f: (S, W) -> S, s: S, v: seq<W>, w: seq<W>, n: nat)
    requires n <= |v| && n <= |w| && forall i :: 0 <= i < n ==> v[i] == w[i]
    ensures Fold(f, s, v, n) == Fold(f, s, w, n)
  {
    if n > 0 {
      FoldPrefix(f, s, v, w, n - 1);
    }
  }

  lemma {:induction false} FoldSplit<S, W>(f: (S, W) -> S, s: S, v: seq<W>, w: seq<W>, n: nat)
    requires n <= |w|
    ensures Fold(f, s, v + w, |v| + n) == Fold(f, Fold(f, s, v, |v|), w, n)
  {
    if n > 0 {
      FoldSplit(f, s, v, w, n - 1);
      assert (v + w)[|v| + n - 1] == w[n - 1];
    } else {
      FoldPrefix(f, s, v, v + w, |v|);
    }
  }

  /** Related steps take related states to related states. */
  lemma {:induction false} FoldRefines<S, V, W>(f: (S, W) -> S, h: (V, W) -> V, rel: (S, V) -> bool, s: S, v: V, w: seq<W>, n: nat)
    requires n <= |w| && rel(s, v)
    requires forall a, b, x :: x in w && rel(a, b) ==> rel(f(a, x), h(b, x))
    ensures rel(Fold(f, s, w, n), Fold(h, v, w, n))
  {
    if n > 0 {
      FoldRefines(f, h, rel, s, v, w, n - 1);
      assert w[n - 1] in w;
    }
  }

  /** Step f is not to be trusted on element i of the run of h. */
  ghost predicate OffAt<S(!new), W>(h: (S, W) -> S, off: (S, W) -> bool, s: S, w: seq<W>, i: nat)
    requires i < |w|
  {
    off(Fold(h, s, w, i), w[i])
  }

  ghost predicate NeverOff<S(!new), W>(h: (S, W) -> S, off: (S, W) -> bool, s: S, w: seq<W>, n: nat)
    requires n <= |w|
  {
    forall i :: 0 <= i < n ==> !OffAt(h, off, s, w, i)
  }

  ghost predicate GoodThroughout<S(!new), W>(f: (S, W) -> S, good: S -> bool, s: S, w: seq<W>, n: nat)
    requires n <= |w|
  {
    forall i :: 0 <= i <= n ==> good(Fold(f, s, w, i))
  }

  /** If one step of f keeps the good exactly where it is not off, and is then h's, all
      states of f's run are good exactly if it is never off along h's, and then the
      two runs are the same. */
  lemma {:induction false} FoldsAgree<S(!new), W>(f: (S, W) -> S, h: (S, W) -> S, good: S -> bool, off: (S, W) -> bool, s: S, w: seq<W>, n: nat)
    requires n <= |w| && good(s)
    requires forall a, x :: x in w && good(a) ==> good(h(a, x)) && (good(f(a, x)) <==> !off(a, x)) && (!off(a, x) ==> f(a, x) == h(a, x))
    ensures good(Fold(h, s, w, n))
    ensures NeverOff(h, off, s, w, n) ==> Fold(f, s, w, n) == Fold(h, s, w, n)
    ensures GoodThroughout(f, good, s, w, n) <==> NeverOff(h, off, s, w, n)
  {
    if n > 0 {
      FoldsAgree(f, h, good, off, s, w, n - 1);
      assert w[n - 1] in w;
      assert NeverOff(h, off, s, w, n) <==> NeverOff(h, off, s, w, n - 1) && !OffAt(h, off, s, w, n - 1);
      assert GoodThroughout(f, good, s, w, n) <==> GoodThroughout(f, good, s, w, n - 1) && good(Fold(f, s, w, n));
    }
  }
}
