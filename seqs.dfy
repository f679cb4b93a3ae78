/** Sequence helpers shared by the script models. */
module Seqs {
  import opened Wrappers

  /**
   * The values `f` picks from `xs`, in order: the loop that visits each item and pushes
   * what it has to say, if anything.
   */
  function FilterMap<T, U>(xs: seq<T>, f: T -> Option<U>): (r: seq<U>)
    ensures |r| <= |xs|
  {
    if xs == [] then []
    else
      var v := f(xs[|xs| - 1]);
      FilterMap(xs[..|xs| - 1], f) + (if v.Some? then [v.value] else [])
  }

  /** One more item adds its own value, if any, at the end. */
  lemma FilterMapSnoc<T, U>(xs: seq<T>, i: nat, f: T -> Option<U>)
    requires i < |xs|
    ensures var v := f(xs[i]);
            FilterMap(xs[..i + 1], f) == FilterMap(xs[..i], f) + (if v.Some? then [v.value] else [])
  {
    assert xs[..i + 1][..i] == xs[..i];
  }

  /** Nothing is picked exactly when no item has a value. */
  lemma {:induction false} FilterMapEmptyIff<T, U>(xs: seq<T>, f: T -> Option<U>)
    ensures FilterMap(xs, f) == [] <==> forall i | 0 <= i < |xs| :: f(xs[i]).None?
  {
    if xs != [] {
      var init := xs[..|xs| - 1];
      FilterMapEmptyIff(init, f);
      assert forall i | 0 <= i < |init| :: init[i] == xs[i];
    }
  }

  /** Every picked value is the value of one of the items. */
  lemma {:induction false} FilterMapFrom<T, U>(xs: seq<T>, f: T -> Option<U>)
    ensures forall v | v in FilterMap(xs, f) :: exists i | 0 <= i < |xs| :: f(xs[i]) == Some(v)
  {
    if xs != [] {
      var init := xs[..|xs| - 1];
      FilterMapFrom(init, f);
      forall v | v in FilterMap(xs, f)
        ensures exists i | 0 <= i < |xs| :: f(xs[i]) == Some(v)
      {
        if v in FilterMap(init, f) {
          var i :| 0 <= i < |init| && f(init[i]) == Some(v);
          assert xs[i] == init[i];
        } else {
          assert f(xs[|xs| - 1]) == Some(v);
        }
      }
    }
  }

  /** `f` applied to every item, in order. */
  function Map<T, U>(xs: seq<T>, f: T -> U): (r: seq<U>)
    ensures |r| == |xs| && forall i | 0 <= i < |xs| :: r[i] == f(xs[i])
  {
    if xs == [] then [] else Map(xs[..|xs| - 1], f) + [f(xs[|xs| - 1])]
  }

  /** Mapping one more item appends its image. */
  lemma MapSnoc<T, U>(xs: seq<T>, i: nat, f: T -> U)
    requires i < |xs|
    ensures Map(xs[..i + 1], f) == Map(xs[..i], f) + [f(xs[i])]
  {
    assert xs[..i + 1][..i] == xs[..i];
  }

  /** Concatenation is associative. */
  lemma AppendAssoc<T>(a: seq<T>, b: seq<T>, c: seq<T>)
    ensures (a + b) + c == a + (b + c)
  {
  }

  /** The first `i` items of the first `i + 1`. */
  lemma PrefixOfPrefix<T>(xs: seq<T>, i: nat)
    requires i < |xs|
    ensures xs[..i + 1][..i] == xs[..i]
  {
  }

  /** A sequence is its first `i` items followed by the rest. */
  lemma SplitAt<T>(xs: seq<T>, i: nat)
    requires i <= |xs|
    ensures xs == xs[..i] + xs[i..]
  {
  }

  lemma Snoc<T>(xs: seq<T>)
    requires xs != []
    ensures xs == xs[..|xs| - 1] + [xs[|xs| - 1]]
  {
  }

  lemma PrefixSnoc<T>(xs: seq<T>, i: nat)
    requires i < |xs|
    ensures xs[..i + 1] == xs[..i] + [xs[i]]
  {
  }

  /** The items after the first `k` of `a + b`: those of `a`, then all of `b`. */
  lemma SuffixAppend<T>(a: seq<T>, b: seq<T>, k: nat)
    requires k <= |a|
    ensures (a + b)[k..] == a[k..] + b
  {
  }
}
