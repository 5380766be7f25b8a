/** Generic facts about sequences and about scanning them in order. */
module Seqs {
  import opened Wrappers

  /** The first value `f` gives for an element of `xs`, in order. */
  function FirstGiven<T, U>(xs: seq<T>, f: T -> Option<U>): Option<U> {
    if xs == [] then None
    else
      match f(xs[0])
      case Some(v) => Some(v)
      case None => FirstGiven(xs[1..], f)
  }

  /**
   * The scan finds nothing exactly when no element gives a value, and
   * otherwise the value of the first element that gives one.
   */
  lemma {:induction false} FirstGivenSpec<T, U>(xs: seq<T>, f: T -> Option<U>)
    ensures FirstGiven(xs, f).None? <==> forall i | 0 <= i < |xs| :: f(xs[i]).None?
    ensures FirstGiven(xs, f).Some? ==>
      exists i | 0 <= i < |xs| :: f(xs[i]) == FirstGiven(xs, f) && forall j | 0 <= j < i :: f(xs[j]).None?
  {
    if xs != [] {
      FirstGivenSpec(xs[1..], f);
      if f(xs[0]).None? && FirstGiven(xs, f).Some? {
        var i :| 0 <= i < |xs[1..]| && f(xs[1..][i]) == FirstGiven(xs[1..], f) &&
          forall j | 0 <= j < i :: f(xs[1..][j]).None?;
        assert f(xs[i + 1]) == FirstGiven(xs, f);
        forall j | 0 <= j < i + 1 ensures f(xs[j]).None? {
          if j > 0 {
            assert xs[j] == xs[1..][j - 1];
          }
        }
      }
      if f(xs[0]).None? && FirstGiven(xs, f).None? {
        forall i | 0 <= i < |xs| ensures f(xs[i]).None? {
          if i > 0 {
            assert xs[i] == xs[1..][i - 1];
          }
        }
      }
    }
  }

  /** Some element of `xs` gives `u` exactly when one before the last or the last does. */
  lemma GivenByLast<T, U>(xs: seq<T>, init: seq<T>, f: T -> Option<U>, u: U)
    requires xs != [] && init == xs[..|xs| - 1]
    ensures (exists i | 0 <= i < |xs| :: f(xs[i]) == Some(u)) <==>
      (exists i | 0 <= i < |init| :: f(init[i]) == Some(u)) || f(xs[|xs| - 1]) == Some(u)
  {
    if exists i | 0 <= i < |xs| :: f(xs[i]) == Some(u) {
      var i :| 0 <= i < |xs| && f(xs[i]) == Some(u);
      if i < |xs| - 1 {
        assert init[i] == xs[i];
      }
    }
    if exists i | 0 <= i < |init| :: f(init[i]) == Some(u) {
      var i :| 0 <= i < |init| && f(init[i]) == Some(u);
      assert xs[i] == init[i];
    }
  }

  /** Concatenation is associative. */
  lemma AppendAssoc<T>(x: seq<T>, y: seq<T>, z: seq<T>)
    ensures (x + y) + z == x + (y + z)
  {
  }
}
