/**
 * The outline as three maps, as stores/outline.ts keeps it: `dataMap` (node contents),
 * `parentMap` (child to parent) and `childrenMap` (parent to its ordered children), with
 * the JavaScript lookups the store relies on, the tree invariant the edits keep, and the
 * ancestor walk of the `moveItem` guard.
 */
module OutlineTree {
  import opened Wrappers

  /** `ROOT_ID`: the parent of the top-level items; it has no parent of its own. */
  const Root := "root"

  /**
   * A value of `dataMap`. `id` and `type` are `None` for the object `updateItemText`
   * builds by spreading a missing entry.
   */
  datatype Node = Node(id: Option<string>, kind: Option<string>, text: string)

  datatype Maps = Maps(
    dataMap: map<string, Node>,
    parentMap: map<string, string>,
    childrenMap: map<string, seq<string>>)

  /** `childrenMap[k] || []` */
  function Children(cm: map<string, seq<string>>, k: string): (r: seq<string>)
    ensures k in cm ==> r == cm[k]
    ensures k !in cm ==> r == []
  {
    if k in cm then cm[k] else []
  }

  /**
   * The key `childrenMap[parentMap[id]]` reads: a missing parent is the value
   * `undefined`, which becomes the property key "undefined".
   */
  function ParentKey(pm: map<string, string>, id: string): (k: string)
    ensures id in pm ==> k == pm[id]
    ensures id !in pm ==> k == "undefined"
  {
    if id in pm then pm[id] else "undefined"
  }

  /** `findIndex((i) => i === x)`: the first position of `x`, or -1. */
  function IndexOf(s: seq<string>, x: string): (i: int)
    ensures -1 <= i < |s|
    ensures i == -1 <==> x !in s
    ensures 0 <= i ==> s[i] == x && x !in s[..i]
  {
    if s == [] then -1
    else if s[0] == x then 0
    else
      var j := IndexOf(s[1..], x);
      if j == -1 then -1
      else
        assert s[..j + 1] == [s[0]] + s[1..][..j];
        j + 1
  }

  /** `splice(i, 1)` */
  function RemoveAt(s: seq<string>, i: nat): (r: seq<string>)
    requires i < |s|
    ensures |r| == |s| - 1
    ensures forall k | 0 <= k < i :: r[k] == s[k]
    ensures forall k | i <= k < |r| :: r[k] == s[k + 1]
  {
    s[..i] + s[i + 1..]
  }

  /** `splice(i, 0, x)` */
  function InsertAt(s: seq<string>, i: nat, x: string): (r: seq<string>)
    requires i <= |s|
    ensures |r| == |s| + 1 && r[i] == x
    ensures forall k | 0 <= k < i :: r[k] == s[k]
    ensures forall k | i < k < |r| :: r[k] == s[k - 1]
  {
    s[..i] + [x] + s[i..]
  }

  /** `Math.max(lo, Math.min(x, hi))` */
  function Clamp(lo: int, x: int, hi: int): (r: int)
    requires lo <= hi
    ensures lo <= r <= hi
    ensures lo <= x <= hi ==> r == x
  {
    if x < lo then lo else if x > hi then hi else x
  }

  predicate NoDup(s: seq<string>) {
    forall i, j | 0 <= i < j < |s| :: s[i] != s[j]
  }

  // ---------------------------------------------------------------------------
  // The tree invariant

  /**
   * Every child listed under `p` has `p` as its parent, and every node with a parent is
   * listed (once) under it: each non-root node sits in exactly one children list, the
   * one `parentMap` names.
   */
  ghost predicate Linked(pm: map<string, string>, cm: map<string, seq<string>>) {
    && (forall p, c | p in cm && c in cm[p] :: c in pm && pm[c] == p)
    && (forall c | c in pm :: pm[c] in cm && c in cm[pm[c]])
    && (forall p | p in cm :: NoDup(cm[p]))
  }

  /** A node without a parent is listed nowhere. */
  lemma ParentlessUnlisted(pm: map<string, string>, cm: map<string, seq<string>>, c: string, p: string)
    requires Linked(pm, cm) && c !in pm
    ensures c !in Children(cm, p)
  {
    if p in cm {
      assert forall x | x in cm[p] :: x in pm;
    }
  }

  /** `rank` witnesses that following parents always ends: each parent ranks below its child. */
  ghost predicate Ranked(pm: map<string, string>, rank: map<string, nat>) {
    forall c | c in pm :: c in rank && (pm[c] in pm ==> pm[c] in rank && rank[pm[c]] < rank[c])
  }

  /** A well-formed outline: no node has the empty (falsy) id, the maps are linked, parents are acyclic. */
  ghost predicate Tree(m: Maps, rank: map<string, nat>) {
    && "" !in m.parentMap
    && Linked(m.parentMap, m.childrenMap)
    && Ranked(m.parentMap, rank)
  }

  /**
   * The cursor values of `let cursor = c; while (cursor) cursor = parentMap[cursor]`:
   * `c` and its ancestors, nearest first, up to the first one without a parent.
   */
  ghost function Walk(pm: map<string, string>, c: string, rank: map<string, nat>): (w: seq<string>)
    requires Ranked(pm, rank)
    ensures c != "" ==> |w| > 0 && w[0] == c
    decreases if c in pm then rank[c] + 1 else 0
  {
    if c == "" then []
    else if c in pm then [c] + Walk(pm, pm[c], rank)
    else [c]
  }

  /** The nodes whose walk passes through `x`: `x` and its descendants. */
  ghost function Subtree(m: Maps, x: string, rank: map<string, nat>): set<string>
    requires Ranked(m.parentMap, rank)
  {
    set y | y in m.dataMap.Keys + m.parentMap.Keys + m.childrenMap.Keys && x in Walk(m.parentMap, y, rank)
  }

  /** Ancestors rank strictly below their descendants. */
  lemma {:induction false} AncestorRanksLower(pm: map<string, string>, rank: map<string, nat>, c: string, y: string)
    requires Ranked(pm, rank) && c in pm && y in pm && y in Walk(pm, c, rank) && y != c
    ensures rank[y] < rank[c]
    decreases rank[c]
  {
    var p := pm[c];
    assert y in Walk(pm, p, rank);
    if y != p {
      AncestorRanksLower(pm, rank, p, y);
    }
  }

  /** No node is its own ancestor. */
  lemma NotOwnAncestor(pm: map<string, string>, rank: map<string, nat>, c: string)
    requires Ranked(pm, rank) && c in pm
    ensures c !in Walk(pm, pm[c], rank)
  {
    var p := pm[c];
    if p in pm {
      if c in Walk(pm, p, rank) {
        AncestorRanksLower(pm, rank, p, c);
      }
    } else {
      assert Walk(pm, p, rank) == (if p == "" then [] else [p]);
    }
  }

  /** Walks through the same node continue the same way. */
  lemma {:induction false} WalkTransitive(pm: map<string, string>, rank: map<string, nat>, c: string, y: string, x: string)
    requires Ranked(pm, rank) && y in Walk(pm, c, rank) && x in Walk(pm, y, rank)
    ensures x in Walk(pm, c, rank)
    decreases if c in pm then rank[c] + 1 else 0
  {
    if c != y && c in pm {
      WalkTransitive(pm, rank, pm[c], y, x);
    }
  }

  /**
   * Re-parenting `id` under `t` keeps the parents acyclic when `id` is not on the walk
   * from `t`: the subtree of `id` is lifted above everything `t` can reach.
   */
  lemma ReparentKeepsRanked(pm: map<string, string>, rank: map<string, nat>, id: string, t: string)
      returns (rank2: map<string, nat>)
    requires Ranked(pm, rank) && "" !in pm && id in pm && id !in Walk(pm, t, rank)
    ensures Ranked(pm[id := t], rank2)
  {
    var lift := (if t in rank then rank[t] else 0) + 1;
    rank2 := map y | y in rank :: rank[y] + (if id in Walk(pm, y, rank) then lift else 0);
    var pm2 := pm[id := t];
    forall c | c in pm2
      ensures c in rank2 && (pm2[c] in pm2 ==> pm2[c] in rank2 && rank2[pm2[c]] < rank2[c])
    {
      if c == id {
        assert id in Walk(pm, id, rank);
      } else {
        var p := pm[c];
        assert Walk(pm, c, rank) == [c] + Walk(pm, p, rank);
      }
    }
  }

  /** Lists and parents of nodes outside a removed set keep their walks. */
  lemma {:induction false} WalkUnchanged(pm: map<string, string>, rank: map<string, nat>, gone: set<string>, y: string)
    requires Ranked(pm, rank)
    requires forall c | c in pm && c !in gone :: pm[c] !in gone
    requires y !in gone
    ensures Ranked(pm - gone, rank)
    ensures Walk(pm - gone, y, rank) == Walk(pm, y, rank)
    decreases if y in pm then rank[y] + 1 else 0
  {
    if y != "" && y in pm {
      WalkUnchanged(pm, rank, gone, pm[y]);
    }
  }

  // ---------------------------------------------------------------------------
  // List edits on duplicate-free lists

  /** `splice(i, 1)` on a duplicate-free list drops exactly its i-th element. */
  lemma RemoveAtMembers(s: seq<string>, i: nat)
    requires i < |s| && NoDup(s)
    ensures NoDup(RemoveAt(s, i))
    ensures forall c :: c in RemoveAt(s, i) <==> c in s && c != s[i]
  {
    var r := RemoveAt(s, i);
    forall c ensures c in r <==> c in s && c != s[i] {
      if c in r {
        var k :| 0 <= k < |r| && r[k] == c;
        if k < i { assert s[k] == c; } else { assert s[k + 1] == c; }
      }
      if c in s && c != s[i] {
        var k :| 0 <= k < |s| && s[k] == c;
        if k < i { assert r[k] == c; } else { assert r[k - 1] == c; }
      }
    }
  }

  /** `splice(i, 0, x)` adds exactly `x`, and keeps a list duplicate-free when `x` is new to it. */
  lemma InsertAtMembers(s: seq<string>, i: nat, x: string)
    requires i <= |s|
    ensures forall c :: c in InsertAt(s, i, x) <==> c in s || c == x
    ensures NoDup(s) && x !in s ==> NoDup(InsertAt(s, i, x))
  {
    assert InsertAt(s, i, x) == s[..i] + [x] + s[i..];
    assert s == s[..i] + s[i..];
  }

  /** `push(x)` adds exactly `x`, and keeps a list duplicate-free when `x` is new to it. */
  lemma AppendMembers(s: seq<string>, x: string)
    ensures forall c :: c in s + [x] <==> c in s || c == x
    ensures NoDup(s) && x !in s ==> NoDup(s + [x])
  {
  }

  /** Splicing a new `y` in right after `x` puts `y` directly behind `x`, which keeps its index. */
  lemma InsertAfterIndex(s: seq<string>, x: string, y: string)
    requires x in s && y !in s
    ensures var r := InsertAt(s, IndexOf(s, x) + 1, y);
      IndexOf(r, x) == IndexOf(s, x) && IndexOf(r, y) == IndexOf(s, x) + 1
  {
    var at := IndexOf(s, x);
    var r := InsertAt(s, at + 1, y);
    assert r[..at + 1] == s[..at + 1];
    assert IndexOf(r, x) == at by {
      assert r[at] == x && x !in r[..at];
    }
    assert IndexOf(r, y) == at + 1 by {
      assert r[at + 1] == y && y !in r[..at + 1];
    }
  }

  /**
   * `splice(from, 1)` followed by `splice(to, 0, s[from])`: the same items, with the one
   * that stood at `from` now standing at `to`.
   */
  function Reordered(s: seq<string>, from: nat, to: nat): (r: seq<string>)
    requires from < |s| && to < |s|
    ensures |r| == |s| && r[to] == s[from] && multiset(r) == multiset(s)
    ensures NoDup(s) ==> NoDup(r)
  {
    RemoveAtMultiset(s, from);
    InsertAtMultiset(RemoveAt(s, from), to, s[from]);
    if NoDup(s) then
      RemoveAtMembers(s, from);
      InsertAtMembers(RemoveAt(s, from), to, s[from]);
      InsertAt(RemoveAt(s, from), to, s[from])
    else
      InsertAt(RemoveAt(s, from), to, s[from])
  }

  /** `splice(i, 1)` drops one copy of `s[i]`. */
  lemma RemoveAtMultiset(s: seq<string>, i: nat)
    requires i < |s|
    ensures multiset(RemoveAt(s, i)) == multiset(s) - multiset{s[i]}
  {
    assert s == s[..i] + [s[i]] + s[i + 1..];
  }

  /** `splice(i, 0, x)` adds one copy of `x`. */
  lemma InsertAtMultiset(s: seq<string>, i: nat, x: string)
    requires i <= |s|
    ensures multiset(InsertAt(s, i, x)) == multiset(s) + multiset{x}
  {
    assert InsertAt(s, i, x) == s[..i] + [x] + s[i..] && s == s[..i] + s[i..];
  }

  /** `s` with the first occurrence of `x` spliced out, or `s` itself when `x` is absent. */
  function Without(s: seq<string>, x: string): (r: seq<string>)
    ensures NoDup(s) ==> NoDup(r) && forall c :: c in r <==> c in s && c != x
  {
    var i := IndexOf(s, x);
    if i == -1 then s
    else
      assert NoDup(s) ==> NoDup(RemoveAt(s, i)) && forall c :: c in RemoveAt(s, i) <==> c in s && c != x by {
        if NoDup(s) { RemoveAtMembers(s, i); }
      }
      RemoveAt(s, i)
  }

  /**
   * The maps after `id` leaves its parent's list and is listed under `t` in `list`, with
   * `parentMap[id]` set to `t`: the edit behind indent, outdent and move.
   */
  function Relinked(m: Maps, id: string, t: string, list: seq<string>): (r: Maps)
    requires id in m.parentMap
    ensures r.dataMap == m.dataMap && r.parentMap == m.parentMap[id := t]
    ensures r.childrenMap.Keys == m.childrenMap.Keys + {m.parentMap[id], t} && r.childrenMap[t] == list
  {
    var from := m.parentMap[id];
    Maps(m.dataMap, m.parentMap[id := t],
      m.childrenMap[from := Without(Children(m.childrenMap, from), id)][t := list])
  }

  /** The list `id` joins under `t`: its remaining old siblings when `t` is its parent, else `t`'s children. */
  function JoinedList(m: Maps, id: string, t: string): seq<string>
    requires id in m.parentMap
  {
    var from := m.parentMap[id];
    if t == from then Without(Children(m.childrenMap, from), id) else Children(m.childrenMap, t)
  }

  /**
   * Re-listing `id` under a `t` that is neither `id` nor one of its descendants, in a list
   * holding exactly `id` and the list it joins, keeps the outline well formed.
   */
  lemma RelinkKeepsTree(m: Maps, rank: map<string, nat>, id: string, t: string, list: seq<string>)
      returns (rank2: map<string, nat>)
    requires Tree(m, rank) && id in m.parentMap && id !in Walk(m.parentMap, t, rank)
    requires NoDup(list) && forall c :: c in list <==> c == id || c in JoinedList(m, id, t)
    ensures Tree(Relinked(m, id, t, list), rank2)
  {
    var pm, cm := m.parentMap, m.childrenMap;
    var from := pm[id];
    var rest := Without(cm[from], id);
    var r := Relinked(m, id, t, list);
    var pm2, cm2 := r.parentMap, r.childrenMap;
    assert cm2 == cm[from := rest][t := list];
    rank2 := ReparentKeepsRanked(pm, rank, id, t);
    forall p, c | p in cm2 && c in cm2[p] ensures c in pm2 && pm2[c] == p {
      if p == t {
        if c != id {
          assert c in JoinedList(m, id, t);
        }
      } else if p == from {
        assert c in rest;
      } else {
        assert c in cm[p];
      }
    }
    forall c | c in pm2 ensures pm2[c] in cm2 && c in cm2[pm2[c]] {
      if c != id {
        var p := pm[c];
        if p == t {
          assert c in JoinedList(m, id, t);
        } else if p == from {
          assert c in rest;
        }
      }
    }
    forall p | p in cm2 ensures NoDup(cm2[p]) {
    }
  }

  /** Listing a new node under `p` in `list` (`p`'s children plus the node) keeps the outline well formed. */
  lemma AttachKeepsTree(m: Maps, rank: map<string, nat>, id: string, p: string, list: seq<string>, dm: map<string, Node>)
      returns (rank2: map<string, nat>)
    requires Tree(m, rank) && id != "" && id != p && id !in m.parentMap && id !in m.childrenMap
    requires NoDup(list) && forall c :: c in list <==> c == id || c in Children(m.childrenMap, p)
    ensures Tree(Maps(dm, m.parentMap[id := p], m.childrenMap[p := list]), rank2)
  {
    var pm, cm := m.parentMap, m.childrenMap;
    var pm2, cm2 := pm[id := p], cm[p := list];
    rank2 := rank[id := (if p in rank then rank[p] else 0) + 1];
    forall q, c | q in cm2 && c in cm2[q] ensures c in pm2 && pm2[c] == q {
      if q == p && c != id {
        assert c in cm[p];
      }
    }
  }

  /** Replacing `p`'s list by a duplicate-free list of the same members keeps the outline well formed. */
  lemma SameMembersKeepsTree(m: Maps, rank: map<string, nat>, p: string, list: seq<string>)
    requires Tree(m, rank) && p in m.childrenMap
    requires NoDup(list) && forall c :: c in list <==> c in m.childrenMap[p]
    ensures Tree(m.(childrenMap := m.childrenMap[p := list]), rank)
  {
    var cm2 := m.childrenMap[p := list];
    forall q, c | q in cm2 && c in cm2[q] ensures c in m.parentMap && m.parentMap[c] == q {
      if q == p {
        assert c in m.childrenMap[p];
      }
    }
  }
}
