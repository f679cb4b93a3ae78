/**
 * `removeSubTree` of `removeItem` (stores/outline.ts): the recursive deletion of a node and
 * everything under it from the store's three maps, and what it amounts to on a
 * well-formed outline.
 */
module OutlineRemoval {
  import opened Wrappers
  import opened OutlineTree

  /**
   * Why `removeSubTree` gives up: `MissingParent` is the error it throws for a node without
   * a parent; `TooDeep` means the recursion bound of the model ran out.
   */
  datatype RemoveError = MissingParent(id: string) | TooDeep

  /** The maps left by `removeSubTree` and the id it returns (the removed node's previous sibling). */
  datatype Removed = Removed(maps: Maps, prev: Option<string>)

  /**
   * `removeSubTree(x)`: reads `x`'s parent list, removes `x`'s children one by one (each
   * with its own subtree), then deletes `x` from the three maps and splices it out of the
   * parent list read at the start. `fuel` bounds the depth of the recursion.
   */
  function RemoveSubTree(m: Maps, x: string, fuel: nat): (r: Result<Removed, RemoveError>)
    ensures x !in m.parentMap ==> r == Err(MissingParent(x))
    ensures r.Ok? ==> x !in r.value.maps.dataMap && x !in r.value.maps.parentMap && x !in r.value.maps.childrenMap
    decreases fuel, 0
  {
    if x !in m.parentMap then Err(MissingParent(x))
    else if fuel == 0 then Err(TooDeep)
    else
      var p := m.parentMap[x];
      var siblings := Children(m.childrenMap, p);
      var childIndex := IndexOf(siblings, x);
      match RemoveAll(m, Children(m.childrenMap, x), fuel - 1)
      case Err(e) => Err(e)
      case Ok(m1) =>
        var cm := if childIndex != -1 then m1.childrenMap[p := RemoveAt(siblings, childIndex)] else m1.childrenMap;
        Ok(Removed(Maps(m1.dataMap - {x}, m1.parentMap - {x}, cm - {x}), PrevSibling(siblings, x)))
  }

  /**
   * `childIndex === 0 ? null : children[childIndex - 1]`: the entry before `x`, nothing when
   * `x` is first (and, as `children[-2]` is `undefined`, when `x` is missing).
   */
  function PrevSibling(s: seq<string>, x: string): (r: Option<string>)
    ensures x in s ==> (r.None? <==> s[0] == x)
    ensures r.Some? ==> 0 < IndexOf(s, x) && s[IndexOf(s, x) - 1] == r.value
  {
    var i := IndexOf(s, x);
    if i <= 0 then None else Some(s[i - 1])
  }

  /** `for (const child of currentChildren) removeSubTree(child)` */
  function RemoveAll(m: Maps, xs: seq<string>, fuel: nat): Result<Maps, RemoveError>
    decreases fuel, |xs|
  {
    if xs == [] then Ok(m)
    else
      match RemoveSubTree(m, xs[0], fuel)
      case Err(e) => Err(e)
      case Ok(r) => RemoveAll(r.maps, xs[1..], fuel)
  }

  // ---------------------------------------------------------------------------
  // What removal means on a well-formed outline

  /** The outline without `x`'s subtree, with `x` gone from its parent's list. */
  ghost function RemovedTree(m: Maps, x: string, rank: map<string, nat>): Maps
    requires Ranked(m.parentMap, rank) && x in m.parentMap
  {
    var gone := Subtree(m, x, rank);
    var p := m.parentMap[x];
    Maps(m.dataMap - gone, m.parentMap - gone,
      (m.childrenMap - gone)[p := Without(Children(m.childrenMap, p), x)])
  }

  /** The outline without `x`'s descendants, with `x` keeping an empty list. */
  ghost function ClearedChildren(m: Maps, x: string, rank: map<string, nat>): Maps
    requires Ranked(m.parentMap, rank)
  {
    var gone := Subtree(m, x, rank) - {x};
    Maps(m.dataMap - gone, m.parentMap - gone,
      if x in m.childrenMap then (m.childrenMap - gone)[x := []] else m.childrenMap - gone)
  }

  /** A node below `x` leads up to a child of `x`. */
  lemma {:induction false} ChildOnWalk(pm: map<string, string>, rank: map<string, nat>, x: string, y: string)
      returns (c: string)
    requires Ranked(pm, rank) && x in Walk(pm, y, rank) && y != x
    ensures c in pm && pm[c] == x
    decreases if y in pm then rank[y] + 1 else 0
  {
    var p := pm[y];
    if p == x {
      c := y;
    } else {
      c := ChildOnWalk(pm, rank, x, p);
    }
  }

  /** The parent of a node outside `x`'s subtree is outside it too. */
  lemma SubtreeClosed(m: Maps, rank: map<string, nat>, x: string)
    requires Ranked(m.parentMap, rank) && "" !in m.parentMap
    ensures forall c | c in m.parentMap && c !in Subtree(m, x, rank) :: m.parentMap[c] !in Subtree(m, x, rank)
  {
    var pm := m.parentMap;
    forall c | c in pm && pm[c] in Subtree(m, x, rank) ensures c in Subtree(m, x, rank) {
      assert Walk(pm, c, rank) == [c] + Walk(pm, pm[c], rank);
    }
  }

  /** Removing a subtree keeps the outline well formed. */
  lemma RemovedTreeIsTree(m: Maps, rank: map<string, nat>, x: string)
    requires Tree(m, rank) && x in m.parentMap
    ensures Tree(RemovedTree(m, x, rank), rank)
  {
    var pm, cm := m.parentMap, m.childrenMap;
    var gone := Subtree(m, x, rank);
    var p := pm[x];
    assert x in gone by { assert x in Walk(pm, x, rank); }
    NotOwnAncestor(pm, rank, x);
    assert p !in gone by { assert Walk(pm, x, rank) == [x] + Walk(pm, p, rank); }
    SubtreeClosed(m, rank, x);
    WalkUnchanged(pm, rank, gone, p);
    forall q, c | q in cm && q !in gone && c in cm[q] && c != x ensures c !in gone {
      assert pm[c] == q;
      assert Walk(pm, c, rank) == [c] + Walk(pm, q, rank);
    }
    UnlinkedSubtree(pm, cm, gone, x);
  }

  /**
   * The list bookkeeping of a removal: dropping a set of nodes closed under "child of",
   * and `x`, its only member listed under a remaining parent, from that parent's list.
   */
  lemma UnlinkedSubtree(pm: map<string, string>, cm: map<string, seq<string>>, gone: set<string>, x: string)
    requires Linked(pm, cm) && x in pm && x in gone && pm[x] !in gone
    requires forall c | c in pm && c !in gone :: pm[c] !in gone
    requires forall q, c | q in cm && q !in gone && c in cm[q] && c != x :: c !in gone
    ensures Linked(pm - gone, (cm - gone)[pm[x] := Without(Children(cm, pm[x]), x)])
  {
    var p := pm[x];
    var rest := Without(cm[p], x);
    var pm2, cm2 := pm - gone, (cm - gone)[p := rest];
    forall q, c | q in cm2 && c in cm2[q] ensures c in pm2 && pm2[c] == q {
      assert c in cm[q];
    }
    forall c | c in pm2 ensures pm2[c] in cm2 && c in cm2[pm2[c]] {
      if pm[c] == p {
        assert c in rest;
      }
    }
  }

  /** Removing `c`'s subtree leaves the other subtrees as they were, minus what was removed. */
  lemma SubtreeAfterRemoval(m: Maps, rank: map<string, nat>, c: string, z: string)
    requires Tree(m, rank) && c in m.parentMap
    ensures Ranked(RemovedTree(m, c, rank).parentMap, rank)
    ensures Subtree(RemovedTree(m, c, rank), z, rank) == Subtree(m, z, rank) - Subtree(m, c, rank)
  {
    var gone := Subtree(m, c, rank);
    var m1 := RemovedTree(m, c, rank);
    RemovedTreeIsTree(m, rank, c);
    SubtreeClosed(m, rank, c);
    var p := m.parentMap[c];
    NotOwnAncestor(m.parentMap, rank, c);
    assert p !in gone by { assert Walk(m.parentMap, c, rank) == [c] + Walk(m.parentMap, p, rank); }
    KeysAfterRemoval(m, gone, p, Without(Children(m.childrenMap, p), c));
    forall y ensures y in Subtree(m1, z, rank) <==> y in Subtree(m, z, rank) && y !in gone {
      if y !in gone {
        WalkUnchanged(m.parentMap, rank, gone, y);
      }
    }
  }

  /** The keys left after a removal that keeps `p`'s list. */
  lemma KeysAfterRemoval(m: Maps, gone: set<string>, p: string, rest: seq<string>)
    requires p in m.childrenMap && p !in gone
    ensures (m.dataMap - gone).Keys + (m.parentMap - gone).Keys + (m.childrenMap - gone)[p := rest].Keys
      == m.dataMap.Keys + m.parentMap.Keys + m.childrenMap.Keys - gone
  {
  }

  /** The descendants of a child lie strictly inside the descendants of its parent. */
  lemma ChildSubtreeSmaller(m: Maps, rank: map<string, nat>, c: string)
    requires Ranked(m.parentMap, rank) && "" !in m.parentMap && c in m.parentMap && m.parentMap[c] != ""
    ensures Subtree(m, c, rank) <= Subtree(m, m.parentMap[c], rank) - {m.parentMap[c]}
    ensures |Subtree(m, c, rank)| < |Subtree(m, m.parentMap[c], rank) - {m.parentMap[c]}| + 1
  {
    var pm := m.parentMap;
    var x := pm[c];
    assert Walk(pm, c, rank) == [c] + Walk(pm, x, rank);
    NotOwnAncestor(pm, rank, c);
    forall y | y in Subtree(m, c, rank) ensures y in Subtree(m, x, rank) - {x} {
      WalkTransitive(pm, rank, y, c, x);
    }
    SubsetSmaller(Subtree(m, c, rank), Subtree(m, x, rank) - {x});
  }

  /** A subtree holds at most the nodes with a parent and its own root. */
  lemma SubtreeBound(m: Maps, rank: map<string, nat>, x: string)
    requires Ranked(m.parentMap, rank)
    ensures |Subtree(m, x, rank)| <= |m.parentMap| + 1
  {
    var pm := m.parentMap;
    forall y | y in Subtree(m, x, rank) ensures y in pm.Keys + {x} {
      if y !in pm {
        assert Walk(pm, y, rank) == if y == "" then [] else [y];
      }
    }
    SubsetSmaller(Subtree(m, x, rank), pm.Keys + {x});
  }

  lemma {:induction false} SubsetSmaller<T>(a: set<T>, b: set<T>)
    requires a <= b
    ensures |a| <= |b|
    decreases |b|
  {
    if b != {} {
      var e :| e in b;
      SubsetSmaller(a - {e}, b - {e});
    }
  }

  /** A node without children has no descendants: clearing its children changes nothing. */
  lemma NoChildrenNothingBelow(m: Maps, rank: map<string, nat>, x: string)
    requires Tree(m, rank) && Children(m.childrenMap, x) == []
    ensures ClearedChildren(m, x, rank) == m
  {
    var pm, cm := m.parentMap, m.childrenMap;
    var below := Subtree(m, x, rank) - {x};
    forall y | y in below ensures false {
      var c := ChildOnWalk(pm, rank, x, y);
    }
    assert below == {};
    assert m.dataMap - below == m.dataMap;
    assert pm - below == pm;
    if x in cm {
      assert (cm - below)[x := []] == cm;
    } else {
      assert cm - below == cm;
    }
  }

  /**
   * Removing the first child's subtree leaves `x` with the rest of its children and takes
   * the same step towards clearing all of `x`'s descendants.
   */
  lemma ClearedAfterFirstChild(m: Maps, rank: map<string, nat>, x: string)
    requires Tree(m, rank) && x != "" && Children(m.childrenMap, x) != []
    ensures m.childrenMap[x][0] in m.parentMap
    ensures var m1 := RemovedTree(m, m.childrenMap[x][0], rank);
      && Tree(m1, rank)
      && Children(m1.childrenMap, x) == m.childrenMap[x][1..]
      && ClearedChildren(m1, x, rank) == ClearedChildren(m, x, rank)
      && |Subtree(m1, x, rank)| <= |Subtree(m, x, rank)|
  {
    var pm, cm := m.parentMap, m.childrenMap;
    var xs := cm[x];
    var c0 := xs[0];
    assert c0 in cm[x];
    var d0 := Subtree(m, c0, rank);
    var m1 := RemovedTree(m, c0, rank);
    RemovedTreeIsTree(m, rank, c0);
    SubtreeAfterRemoval(m, rank, c0, x);
    ChildSubtreeSmaller(m, rank, c0);
    assert Without(xs, c0) == xs[1..];
    ClearStep(m.dataMap, pm, cm, d0, Subtree(m, x, rank), x, xs[1..]);
    SubsetSmaller(Subtree(m1, x, rank), Subtree(m, x, rank));
  }

  /** The map algebra of `ClearedAfterFirstChild`. */
  lemma ClearStep(dm: map<string, Node>, pm: map<string, string>, cm: map<string, seq<string>>,
                  d0: set<string>, below: set<string>, x: string, rest: seq<string>)
    requires d0 <= below - {x} && x in cm
    ensures (dm - d0) - ((below - d0) - {x}) == dm - (below - {x})
    ensures (pm - d0) - ((below - d0) - {x}) == pm - (below - {x})
    ensures ((cm - d0)[x := rest] - ((below - d0) - {x}))[x := []] == (cm - (below - {x}))[x := []]
  {
  }

  /**
   * Removing the children of `x` one by one, each with its subtree, removes exactly the
   * descendants of `x` and leaves `x` with an empty list.
   */
  lemma {:induction false} RemoveAllSpec(m: Maps, rank: map<string, nat>, x: string, fuel: nat)
    requires Tree(m, rank) && x != "" && fuel + 1 >= |Subtree(m, x, rank)|
    ensures RemoveAll(m, Children(m.childrenMap, x), fuel) == Ok(ClearedChildren(m, x, rank))
    decreases fuel, |Children(m.childrenMap, x)|
  {
    var xs := Children(m.childrenMap, x);
    if xs == [] {
      NoChildrenNothingBelow(m, rank, x);
    } else {
      var c0 := xs[0];
      assert x in Subtree(m, x, rank) by { assert x in Walk(m.parentMap, x, rank); }
      ChildSubtreeSmaller(m, rank, c0);
      RemoveSubTreeSpec(m, rank, c0, fuel);
      ClearedAfterFirstChild(m, rank, x);
      RemoveAllSpec(RemovedTree(m, c0, rank), rank, x, fuel);
    }
  }

  /** Deleting `x` itself after its descendants gives the outline without `x`'s subtree. */
  lemma RemovedFromCleared(m: Maps, rank: map<string, nat>, x: string)
    requires Tree(m, rank) && x in m.parentMap
    ensures var siblings := Children(m.childrenMap, m.parentMap[x]);
      && x in siblings
      && var m1 := ClearedChildren(m, x, rank);
      && RemovedTree(m, x, rank) == Maps(m1.dataMap - {x}, m1.parentMap - {x},
           m1.childrenMap[m.parentMap[x] := RemoveAt(siblings, IndexOf(siblings, x))] - {x})
  {
    var pm, cm := m.parentMap, m.childrenMap;
    var p := pm[x];
    var gone := Subtree(m, x, rank);
    assert x in gone by { assert x in Walk(pm, x, rank); }
    NotOwnAncestor(pm, rank, x);
    assert p !in gone by { assert Walk(pm, x, rank) == [x] + Walk(pm, p, rank); }
    assert x in cm[p];
    var rest := RemoveAt(cm[p], IndexOf(cm[p], x));
    MinusThenRemove(m.dataMap, gone, x);
    MinusThenRemove(pm, gone, x);
    ListsAfterClear(cm, gone, x, p, rest);
  }

  lemma MinusThenRemove<V>(a: map<string, V>, gone: set<string>, x: string)
    requires x in gone
    ensures (a - (gone - {x})) - {x} == a - gone
  {
  }

  lemma ListsAfterClear(cm: map<string, seq<string>>, gone: set<string>, x: string, p: string, rest: seq<string>)
    requires x in gone && p != x && p !in gone
    ensures (if x in cm then (cm - (gone - {x}))[x := []] else cm - (gone - {x}))[p := rest] - {x}
      == (cm - gone)[p := rest]
  {
  }

  /**
   * `removeSubTree(x)` on a well-formed outline, given recursion room for `x`'s subtree,
   * succeeds: it removes exactly `x` and its descendants from all three maps and `x` from
   * its parent's list, and returns `x`'s previous sibling (nothing when `x` was first).
   */
  lemma {:induction false} RemoveSubTreeSpec(m: Maps, rank: map<string, nat>, x: string, fuel: nat)
    requires Tree(m, rank) && x in m.parentMap && fuel >= |Subtree(m, x, rank)|
    ensures RemoveSubTree(m, x, fuel)
      == Ok(Removed(RemovedTree(m, x, rank), PrevSibling(Children(m.childrenMap, m.parentMap[x]), x)))
    decreases fuel, 0
  {
    SelfInSubtree(m, rank, x);
    RemoveAllSpec(m, rank, x, fuel - 1);
    FinishRemoval(m, rank, x, fuel);
  }

  lemma SelfInSubtree(m: Maps, rank: map<string, nat>, x: string)
    requires Ranked(m.parentMap, rank) && x in m.parentMap && x != ""
    ensures x in Subtree(m, x, rank) && |Subtree(m, x, rank)| >= 1
  {
    assert x in Walk(m.parentMap, x, rank);
  }

  /** Once the children are cleared, `removeSubTree` completes the removal of the subtree. */
  lemma FinishRemoval(m: Maps, rank: map<string, nat>, x: string, fuel: nat)
    requires Tree(m, rank) && x in m.parentMap && fuel > 0
    requires RemoveAll(m, Children(m.childrenMap, x), fuel - 1) == Ok(ClearedChildren(m, x, rank))
    ensures RemoveSubTree(m, x, fuel)
      == Ok(Removed(RemovedTree(m, x, rank), PrevSibling(Children(m.childrenMap, m.parentMap[x]), x)))
  {
    RemovedFromCleared(m, rank, x);
    RemoveSubTreeStep(m, x, fuel, ClearedChildren(m, x, rank), RemovedTree(m, x, rank));
  }

  /** One unfolding of `removeSubTree` whose loop over the children succeeded with `m1`. */
  lemma RemoveSubTreeStep(m: Maps, x: string, fuel: nat, m1: Maps, result: Maps)
    requires x in m.parentMap && fuel > 0 && RemoveAll(m, Children(m.childrenMap, x), fuel - 1) == Ok(m1)
    requires var siblings := Children(m.childrenMap, m.parentMap[x]);
      && x in siblings
      && result == Maps(m1.dataMap - {x}, m1.parentMap - {x},
           m1.childrenMap[m.parentMap[x] := RemoveAt(siblings, IndexOf(siblings, x))] - {x})
    ensures RemoveSubTree(m, x, fuel) == Ok(Removed(result, PrevSibling(Children(m.childrenMap, m.parentMap[x]), x)))
  {
  }
}
