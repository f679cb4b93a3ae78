/**
 * components/outline/outline-item-list.tsx: the flattening of the outline into the rows
 * the draggable list shows, the rule that turns a drop position into a target parent and
 * index, and the dispatch of a drop to the store's move actions.
 *
 * The walk is bounded by `fuel` levels below the top items, where the source recurses
 * without a bound; `VisibleRowsComplete` shows that on an outline whose levels run out
 * the bound changes nothing. Rendering, keyboard handling and the drag gestures are not
 * part of this model.
 */
module ItemList {
  import opened Wrappers
  import opened OutlineTree
  import opened OutlineStore
  import Seqs

  /** A row of the list: the item, its indentation level and the parent it sits under. */
  datatype VisibleRow = VisibleRow(id: string, depth: nat, parentId: string)

  /** Where a drop puts the dragged item: under `parentId` at `index`, shown at `depth`. */
  datatype DropTarget = DropTarget(parentId: string, index: int, depth: int)

  /** `collapsedIds[id]` is truthy. */
  predicate Collapsed(collapsed: map<string, bool>, id: string) {
    id in collapsed && collapsed[id]
  }

  // ---------------------------------------------------------------------------
  // visibleRows

  /** `walk(p, depth)`: the rows below `p`, at most `fuel` levels deep. */
  function SubRows(cm: map<string, seq<string>>, collapsed: map<string, bool>, p: string, depth: nat, fuel: nat): seq<VisibleRow>
    decreases fuel, 1
  {
    if fuel == 0 then [] else ListRows(cm, collapsed, Children(cm, p), p, depth, fuel - 1)
  }

  /** The rows of the items `cs` under `p`, each followed by its rows unless it is collapsed. */
  function ListRows(cm: map<string, seq<string>>, collapsed: map<string, bool>, cs: seq<string>, p: string, depth: nat, fuel: nat): seq<VisibleRow>
    decreases fuel, 2, |cs|
  {
    if cs == [] then []
    else ListRows(cm, collapsed, cs[..|cs| - 1], p, depth, fuel) + EntryRows(cm, collapsed, cs[|cs| - 1], p, depth, fuel)
  }

  function EntryRows(cm: map<string, seq<string>>, collapsed: map<string, bool>, c: string, p: string, depth: nat, fuel: nat): seq<VisibleRow>
    decreases fuel, 2, 0
  {
    [VisibleRow(c, depth, p)] + if Collapsed(collapsed, c) then [] else SubRows(cm, collapsed, c, depth + 1, fuel)
  }

  /** `visibleRows`: the top items at depth 0 under "root", each followed by its walk. */
  function VisibleRows(cm: map<string, seq<string>>, collapsed: map<string, bool>, items: seq<string>, fuel: nat): seq<VisibleRow> {
    ListRows(cm, collapsed, items, Root, 0, fuel)
  }

  /**
   * `next` may follow `prev` in a pre-order listing: it goes at most one level deeper, and
   * only into `prev` itself, which then is not collapsed.
   */
  predicate Follows(prev: VisibleRow, next: VisibleRow, collapsed: map<string, bool>) {
    && next.depth <= prev.depth + 1
    && (next.depth == prev.depth + 1 ==> next.parentId == prev.id && !Collapsed(collapsed, prev.id))
  }

  predicate Nested(rows: seq<VisibleRow>, collapsed: map<string, bool>) {
    forall i | 0 < i < |rows| :: Follows(rows[i - 1], rows[i], collapsed)
  }

  /** The ids of the rows at depth `d`, in order. */
  function IdsAt(rows: seq<VisibleRow>, d: nat): seq<string> {
    if rows == [] then []
    else IdsAt(rows[..|rows| - 1], d) + if rows[|rows| - 1].depth == d then [rows[|rows| - 1].id] else []
  }

  lemma {:induction false} IdsAtConcat(a: seq<VisibleRow>, b: seq<VisibleRow>, d: nat)
    ensures IdsAt(a + b, d) == IdsAt(a, d) + IdsAt(b, d)
    decreases |b|
  {
    if b == [] {
      assert a + b == a;
    } else {
      assert (a + b)[..|a + b| - 1] == a + b[..|b| - 1];
      IdsAtConcat(a, b[..|b| - 1], d);
    }
  }

  lemma {:induction false} IdsAtDeeper(rows: seq<VisibleRow>, d: nat)
    requires forall i | 0 <= i < |rows| :: rows[i].depth > d
    ensures IdsAt(rows, d) == []
    decreases |rows|
  {
    if rows != [] {
      IdsAtDeeper(rows[..|rows| - 1], d);
    }
  }

  lemma NestedConcat(a: seq<VisibleRow>, b: seq<VisibleRow>, collapsed: map<string, bool>)
    requires Nested(a, collapsed) && Nested(b, collapsed)
    requires a != [] && b != [] ==> Follows(a[|a| - 1], b[0], collapsed)
    ensures Nested(a + b, collapsed)
  {
    var r := a + b;
    forall i | 0 < i < |r| ensures Follows(r[i - 1], r[i], collapsed) {
      if i < |a| {
        assert r[i - 1] == a[i - 1] && r[i] == a[i];
      } else if i > |a| {
        assert r[i - 1] == b[i - 1 - |a|] && r[i] == b[i - |a|];
      }
    }
  }

  /** The shape of the rows a list of items yields. */
  ghost predicate Shaped(r: seq<VisibleRow>, cm: map<string, seq<string>>, collapsed: map<string, bool>, cs: seq<string>, p: string, depth: nat) {
    && (cs == [] <==> r == [])
    && (cs != [] ==> r[0] == VisibleRow(cs[0], depth, p))
    && (forall i | 0 <= i < |r| :: r[i].depth >= depth)
    && (forall i | 0 <= i < |r| :: r[i].depth == depth ==> r[i].parentId == p)
    && (forall i | 0 <= i < |r| :: r[i].depth > depth ==> r[i].id in Children(cm, r[i].parentId))
    && Nested(r, collapsed)
    && IdsAt(r, depth) == cs
  }

  /**
   * The rows of `cs` form a pre-order listing: they start with `cs[0]`, the rows at the
   * first level are `cs` in order, every deeper row is a child of its parent, and a row
   * one level deeper than its predecessor is a child of that predecessor, which is
   * not collapsed.
   */
  lemma {:induction false} ListRowsShape(cm: map<string, seq<string>>, collapsed: map<string, bool>, cs: seq<string>, p: string, depth: nat, fuel: nat)
    ensures Shaped(ListRows(cm, collapsed, cs, p, depth, fuel), cm, collapsed, cs, p, depth)
    decreases fuel, 2, |cs|
  {
    if cs != [] {
      var prefix := cs[..|cs| - 1];
      var c := cs[|cs| - 1];
      var a := ListRows(cm, collapsed, prefix, p, depth, fuel);
      var e := EntryRows(cm, collapsed, c, p, depth, fuel);
      ListRowsShape(cm, collapsed, prefix, p, depth, fuel);
      EntryShape(cm, collapsed, c, p, depth, fuel);
      AppendEntry(a, e, cm, collapsed, cs, p, depth);
      ListRowsLast(cm, collapsed, cs, p, depth, fuel);
    }
  }

  /** Appending the rows of one more item keeps the shape. */
  lemma AppendEntry(a: seq<VisibleRow>, e: seq<VisibleRow>, cm: map<string, seq<string>>, collapsed: map<string, bool>,
      cs: seq<string>, p: string, depth: nat)
    requires cs != []
    requires Shaped(a, cm, collapsed, cs[..|cs| - 1], p, depth)
    requires EntryShaped(e, cm, collapsed, cs[|cs| - 1], p, depth)
    ensures Shaped(a + e, cm, collapsed, cs, p, depth)
  {
    var prefix, c := cs[..|cs| - 1], cs[|cs| - 1];
    assert prefix + [c] == cs;
    NestedConcat(a, e, collapsed);
    IdsAtConcat(a, e, depth);
    var r := a + e;
    forall i | 0 <= i < |r|
      ensures r[i].depth >= depth
      ensures r[i].depth == depth ==> r[i].parentId == p
      ensures r[i].depth > depth ==> r[i].id in Children(cm, r[i].parentId)
    {
      if i >= |a| {
        assert r[i] == e[i - |a|];
      }
    }
    if prefix != [] {
      assert (prefix + [c])[0] == prefix[0];
    }
  }

  ghost predicate EntryShaped(e: seq<VisibleRow>, cm: map<string, seq<string>>, collapsed: map<string, bool>, c: string, p: string, depth: nat) {
    && |e| > 0 && e[0] == VisibleRow(c, depth, p)
    && (forall i | 1 <= i < |e| :: e[i].depth > depth && e[i].id in Children(cm, e[i].parentId))
    && Nested(e, collapsed)
    && IdsAt(e, depth) == [c]
  }

  /** The rows of one item: its own row, then (unless collapsed) its children's rows one level deeper. */
  lemma {:induction false} EntryShape(cm: map<string, seq<string>>, collapsed: map<string, bool>, c: string, p: string, depth: nat, fuel: nat)
    ensures EntryShaped(EntryRows(cm, collapsed, c, p, depth, fuel), cm, collapsed, c, p, depth)
    decreases fuel, 1
  {
    var s := if Collapsed(collapsed, c) then [] else SubRows(cm, collapsed, c, depth + 1, fuel);
    if s != [] {
      ListRowsShape(cm, collapsed, Children(cm, c), c, depth + 1, fuel - 1);
    }
    HeadThenChildren(cm, collapsed, c, p, depth, s);
    assert EntryRows(cm, collapsed, c, p, depth, fuel) == [VisibleRow(c, depth, p)] + s;
  }

  /** An item's row followed by the rows of its (shown) children. */
  lemma HeadThenChildren(cm: map<string, seq<string>>, collapsed: map<string, bool>, c: string, p: string, depth: nat, s: seq<VisibleRow>)
    requires s != [] ==> !Collapsed(collapsed, c) && Shaped(s, cm, collapsed, Children(cm, c), c, depth + 1)
    ensures EntryShaped([VisibleRow(c, depth, p)] + s, cm, collapsed, c, p, depth)
  {
    var head := [VisibleRow(c, depth, p)];
    var e := head + s;
    if s != [] {
      NestedConcat(head, s, collapsed);
      forall i | 1 <= i < |e| ensures e[i].depth > depth && e[i].id in Children(cm, e[i].parentId) {
        assert e[i] == s[i - 1];
        if s[i - 1].depth == depth + 1 {
          IdsAtMember(s, depth + 1, i - 1);
        }
      }
    }
    IdsAtDeeper(s, depth);
    IdsAtConcat(head, s, depth);
    assert IdsAt(head, depth) == [c] by {
      assert head[..0] == [];
    }
  }

  /** A row at depth `d` has its id among the ids at depth `d`. */
  lemma {:induction false} IdsAtMember(rows: seq<VisibleRow>, d: nat, i: nat)
    requires i < |rows| && rows[i].depth == d
    ensures rows[i].id in IdsAt(rows, d)
    decreases |rows|
  {
    if i < |rows| - 1 {
      IdsAtMember(rows[..|rows| - 1], d, i);
    }
  }

  /** The top rows of `visibleRows` are the items in order, at depth 0 under "root". */
  lemma VisibleRowsShape(cm: map<string, seq<string>>, collapsed: map<string, bool>, items: seq<string>, fuel: nat)
    ensures var rows := VisibleRows(cm, collapsed, items, fuel);
      && IdsAt(rows, 0) == items
      && (forall i | 0 <= i < |rows| :: rows[i].depth == 0 ==> rows[i].parentId == Root)
      && (forall i | 0 <= i < |rows| :: rows[i].depth > 0 ==> rows[i].id in Children(cm, rows[i].parentId))
      && Nested(rows, collapsed)
      && (items != [] ==> rows[0] == VisibleRow(items[0], 0, Root))
  {
    ListRowsShape(cm, collapsed, items, Root, 0, fuel);
  }

  /** A collapsed row is never followed by one of its descendants: the next row is no deeper. */
  lemma CollapsedHidesDescendants(cm: map<string, seq<string>>, collapsed: map<string, bool>, items: seq<string>, fuel: nat, i: nat)
    requires var rows := VisibleRows(cm, collapsed, items, fuel);
      i + 1 < |rows| && Collapsed(collapsed, rows[i].id)
    ensures var rows := VisibleRows(cm, collapsed, items, fuel);
      rows[i + 1].depth <= rows[i].depth
  {
    VisibleRowsShape(cm, collapsed, items, fuel);
    var rows := VisibleRows(cm, collapsed, items, fuel);
    assert Follows(rows[i], rows[i + 1], collapsed);
  }

  /** The rows of a list one item longer end with that item's rows. */
  lemma ListRowsLast(cm: map<string, seq<string>>, collapsed: map<string, bool>, cs: seq<string>, p: string, depth: nat, fuel: nat)
    requires cs != []
    ensures ListRows(cm, collapsed, cs, p, depth, fuel)
      == ListRows(cm, collapsed, cs[..|cs| - 1], p, depth, fuel) + EntryRows(cm, collapsed, cs[|cs| - 1], p, depth, fuel)
  {
  }

  lemma ListRowsSnoc(cm: map<string, seq<string>>, collapsed: map<string, bool>, cs: seq<string>, i: nat, p: string, depth: nat, fuel: nat)
    requires i < |cs|
    ensures ListRows(cm, collapsed, cs[..i + 1], p, depth, fuel)
      == ListRows(cm, collapsed, cs[..i], p, depth, fuel) + EntryRows(cm, collapsed, cs[i], p, depth, fuel)
  {
    assert cs[..i + 1][..i] == cs[..i];
  }

  // ---------------------------------------------------------------------------
  // Enough fuel lists every row

  /** The children of all of `cs`, list after list. */
  function AllChildren(cm: map<string, seq<string>>, cs: seq<string>): seq<string> {
    if cs == [] then [] else AllChildren(cm, cs[..|cs| - 1]) + Children(cm, cs[|cs| - 1])
  }

  /** The items `n` levels below the items `cs`, level by level. */
  function LevelIds(cm: map<string, seq<string>>, cs: seq<string>, n: nat): seq<string>
    decreases n
  {
    if n == 0 then cs else LevelIds(cm, AllChildren(cm, cs), n - 1)
  }

  lemma {:induction false} AllChildrenConcat(cm: map<string, seq<string>>, a: seq<string>, b: seq<string>)
    ensures AllChildren(cm, a + b) == AllChildren(cm, a) + AllChildren(cm, b)
    decreases |b|
  {
    if b == [] {
      assert a + b == a;
    } else {
      var init := b[..|b| - 1];
      assert (a + b)[..|a + b| - 1] == a + init;
      AllChildrenConcat(cm, a, init);
      Seqs.AppendAssoc(AllChildren(cm, a), AllChildren(cm, init), Children(cm, b[|b| - 1]));
    }
  }

  lemma {:induction false} LevelIdsConcat(cm: map<string, seq<string>>, a: seq<string>, b: seq<string>, n: nat)
    ensures LevelIds(cm, a + b, n) == LevelIds(cm, a, n) + LevelIds(cm, b, n)
    decreases n
  {
    if n > 0 {
      AllChildrenConcat(cm, a, b);
      LevelIdsConcat(cm, AllChildren(cm, a), AllChildren(cm, b), n - 1);
    }
  }

  /**
   * Once the items `fuel + 1` levels below `cs` run out, the walk with `fuel` already
   * lists every row: more fuel gives the same rows.
   */
  lemma {:induction false} ListRowsComplete(cm: map<string, seq<string>>, collapsed: map<string, bool>, cs: seq<string>,
                                            p: string, depth: nat, fuel: nat, more: nat)
    requires LevelIds(cm, cs, fuel + 1) == [] && fuel <= more
    ensures ListRows(cm, collapsed, cs, p, depth, fuel) == ListRows(cm, collapsed, cs, p, depth, more)
    decreases fuel, 2, |cs|
  {
    if cs != [] {
      var init, c := cs[..|cs| - 1], cs[|cs| - 1];
      assert cs == init + [c];
      LevelIdsConcat(cm, init, [c], fuel + 1);
      ListRowsComplete(cm, collapsed, init, p, depth, fuel, more);
      EntryRowsComplete(cm, collapsed, c, p, depth, fuel, more);
    }
  }

  lemma {:induction false} EntryRowsComplete(cm: map<string, seq<string>>, collapsed: map<string, bool>, c: string,
                                             p: string, depth: nat, fuel: nat, more: nat)
    requires LevelIds(cm, [c], fuel + 1) == [] && fuel <= more
    ensures EntryRows(cm, collapsed, c, p, depth, fuel) == EntryRows(cm, collapsed, c, p, depth, more)
    decreases fuel, 1
  {
    assert AllChildren(cm, [c]) == Children(cm, c) by {
      assert [c][..0] == [];
    }
    assert LevelIds(cm, Children(cm, c), fuel) == [];
    if fuel == 0 {
      NoChildrenNoRows(cm, collapsed, c, depth + 1, more);
    } else {
      ListRowsComplete(cm, collapsed, Children(cm, c), c, depth + 1, fuel - 1, more - 1);
    }
  }

  lemma NoChildrenNoRows(cm: map<string, seq<string>>, collapsed: map<string, bool>, c: string, depth: nat, fuel: nat)
    requires Children(cm, c) == []
    ensures SubRows(cm, collapsed, c, depth, fuel) == []
  {
  }

  /**
   * The source recurses without a bound: on an outline whose items `fuel + 1` levels
   * down run out, `VisibleRows` with `fuel` is what any larger bound gives.
   */
  lemma VisibleRowsComplete(cm: map<string, seq<string>>, collapsed: map<string, bool>, items: seq<string>, fuel: nat, more: nat)
    requires LevelIds(cm, items, fuel + 1) == [] && fuel <= more
    ensures VisibleRows(cm, collapsed, items, fuel) == VisibleRows(cm, collapsed, items, more)
  {
    ListRowsComplete(cm, collapsed, items, Root, 0, fuel, more);
  }

  /** `walk(p, depth)`, appending to `rows`. */
  method Walk(cm: map<string, seq<string>>, collapsed: map<string, bool>, p: string, depth: nat, fuel: nat, rows: seq<VisibleRow>)
      returns (out: seq<VisibleRow>)
    ensures out == rows + SubRows(cm, collapsed, p, depth, fuel)
    decreases fuel
  {
    out := rows;
    if fuel == 0 {
      return;
    }
    var children := Children(cm, p);
    for i := 0 to |children|
      invariant out == rows + ListRows(cm, collapsed, children[..i], p, depth, fuel - 1)
    {
      var childId := children[i];
      ListRowsSnoc(cm, collapsed, children, i, p, depth, fuel - 1);
      Seqs.AppendAssoc(rows, ListRows(cm, collapsed, children[..i], p, depth, fuel - 1), EntryRows(cm, collapsed, childId, p, depth, fuel - 1));
      ghost var before := out;
      out := out + [VisibleRow(childId, depth, p)];
      if !Collapsed(collapsed, childId) {
        out := Walk(cm, collapsed, childId, depth + 1, fuel - 1, out);
        Seqs.AppendAssoc(before, [VisibleRow(childId, depth, p)], SubRows(cm, collapsed, childId, depth + 1, fuel - 1));
      }
      assert out == before + EntryRows(cm, collapsed, childId, p, depth, fuel - 1);
    }
    assert children[..|children|] == children;
  }

  /** The `visibleRows` memo: each top item, then its walk unless it is collapsed. */
  method ComputeVisibleRows(cm: map<string, seq<string>>, collapsed: map<string, bool>, items: seq<string>, fuel: nat)
      returns (rows: seq<VisibleRow>)
    ensures rows == VisibleRows(cm, collapsed, items, fuel)
  {
    rows := [];
    for i := 0 to |items|
      invariant rows == ListRows(cm, collapsed, items[..i], Root, 0, fuel)
    {
      var rootId := items[i];
      ListRowsSnoc(cm, collapsed, items, i, Root, 0, fuel);
      ghost var before := rows;
      rows := rows + [VisibleRow(rootId, 0, Root)];
      if !Collapsed(collapsed, rootId) {
        rows := Walk(cm, collapsed, rootId, 1, fuel, rows);
        Seqs.AppendAssoc(before, [VisibleRow(rootId, 0, Root)], SubRows(cm, collapsed, rootId, 1, fuel));
      }
      assert rows == before + EntryRows(cm, collapsed, rootId, Root, 0, fuel);
    }
    assert items[..|items|] == items;
  }

  // ---------------------------------------------------------------------------
  // resolveDropTarget

  /** `rows[i]`, `undefined` outside the list. */
  function RowAt(rows: seq<VisibleRow>, i: int): (r: Option<VisibleRow>)
    ensures r.Some? <==> 0 <= i < |rows|
    ensures r.Some? ==> r.value == rows[i]
  {
    if 0 <= i < |rows| then Some(rows[i]) else None
  }

  /** The row above the drop position `to` in the reordered rows. */
  function PrevRow(reordered: seq<VisibleRow>, to: int): Option<VisibleRow> {
    if to > 0 then RowAt(reordered, to - 1) else None
  }

  /** The row below the drop position `to` in the reordered rows. */
  function NextRow(reordered: seq<VisibleRow>, to: int): Option<VisibleRow> {
    if to < |reordered| - 1 then RowAt(reordered, to + 1) else None
  }

  /** The row a drop is placed against, as `resolveDropTarget` picks it. */
  datatype Anchor =
    | FirstChildOf(prev: VisibleRow, next: VisibleRow)  // `next` is a child of `prev`
    | After(row: VisibleRow)
    | Before(row: VisibleRow)
    | Alone

  function DropAnchor(reordered: seq<VisibleRow>, to: int): Anchor {
    match (PrevRow(reordered, to), NextRow(reordered, to))
    case (Some(prev), Some(next)) =>
      if next.parentId == prev.id then FirstChildOf(prev, next)
      else if prev.parentId == next.parentId then After(prev)
      else Before(next)
    case (Some(prev), None) => After(prev)
    case (None, Some(next)) => Before(next)
    case (None, None) => Alone
  }

  /** `siblingTarget(anchor, before)`: next to the anchor in its parent's list, or at its end. */
  function SiblingTarget(cm: map<string, seq<string>>, anchor: VisibleRow, before: bool): (t: DropTarget)
    ensures t.parentId == anchor.parentId && t.depth == anchor.depth
    ensures 0 <= t.index <= |Children(cm, anchor.parentId)|
  {
    var siblings := Children(cm, anchor.parentId);
    var anchorIndex := IndexOf(siblings, anchor.id);
    var index := if anchorIndex == -1 then |siblings| else if before then anchorIndex else anchorIndex + 1;
    DropTarget(anchor.parentId, index, anchor.depth)
  }

  /** `resolveDropTarget(reordered, to, fromRow)`; it never yields `null`. */
  function ResolveDropTarget(cm: map<string, seq<string>>, reordered: seq<VisibleRow>, to: int, fromRow: VisibleRow): (t: DropTarget)
    ensures 0 <= t.index <= |Children(cm, t.parentId)|
  {
    match DropAnchor(reordered, to)
    case FirstChildOf(prev, next) =>
      var siblings := Children(cm, prev.id);
      var nextIndex := IndexOf(siblings, next.id);
      DropTarget(prev.id, if nextIndex == -1 then 0 else nextIndex, prev.depth + 1)
    case After(row) => SiblingTarget(cm, row, false)
    case Before(row) => SiblingTarget(cm, row, true)
    case Alone => DropTarget(fromRow.parentId, 0, fromRow.depth)
  }

  /**
   * Where the target puts an item that is not yet in the target list: directly behind the
   * anchor row (`After`), directly in front of it (`Before`, `FirstChildOf`), at the end
   * of the list when an `After`/`Before` anchor is missing from it, and first when the
   * `FirstChildOf` anchor is missing or there is no anchor.
   */
  lemma TargetPlacement(cm: map<string, seq<string>>, reordered: seq<VisibleRow>, to: int, fromRow: VisibleRow)
    requires var t := ResolveDropTarget(cm, reordered, to, fromRow);
      fromRow.id !in Children(cm, t.parentId)
    ensures var t := ResolveDropTarget(cm, reordered, to, fromRow);
      var list := Children(cm, t.parentId);
      var l := InsertAt(list, t.index, fromRow.id);
      && l[t.index] == fromRow.id
      && match DropAnchor(reordered, to)
         case FirstChildOf(prev, next) =>
           t.parentId == prev.id && t.depth == prev.depth + 1
           && (next.id in list ==> l[t.index + 1] == next.id) && (next.id !in list ==> t.index == 0)
         case After(row) =>
           t.parentId == row.parentId && t.depth == row.depth
           && (row.id in list ==> t.index > 0 && l[t.index - 1] == row.id) && (row.id !in list ==> t.index == |list|)
         case Before(row) =>
           t.parentId == row.parentId && t.depth == row.depth
           && (row.id in list ==> l[t.index + 1] == row.id) && (row.id !in list ==> t.index == |list|)
         case Alone => t == DropTarget(fromRow.parentId, 0, fromRow.depth)
  {
  }

  // ---------------------------------------------------------------------------
  // applyDrop

  /** `[...rows]`, then `splice(from, 1)` and `splice(to, 0, moved)`. */
  function Spliced(rows: seq<VisibleRow>, from: nat, to: nat): (r: seq<VisibleRow>)
    requires from < |rows|
    ensures |r| == |rows| && multiset(r) == multiset(rows)
    ensures r[if to < |rows| then to else |rows| - 1] == rows[from]
  {
    var rest := rows[..from] + rows[from + 1..];
    var at := if to < |rest| then to else |rest|;
    assert rows == rows[..from] + [rows[from]] + rows[from + 1..];
    assert rest == rest[..at] + rest[at..];
    var r := rest[..at] + [rows[from]] + rest[at..];
    assert r[at] == rows[from];
    assert multiset(r) == multiset(rest[..at]) + multiset{rows[from]} + multiset(rest[at..]);
    assert multiset(rows) == multiset(rows[..from]) + multiset{rows[from]} + multiset(rows[from + 1..]);
    assert multiset(rest) == multiset(rest[..at]) + multiset(rest[at..]);
    assert |r| == |rows| && (if to < |rows| then to else |rows| - 1) == at;
    assert multiset(rest) + multiset{rows[from]} == multiset(rows);
    r
  }

  /** What a drop asks of the store. */
  datatype Move =
    | Stay
    | WithinParent(id: string, index: int)
    | ToParent(id: string, parentId: string, index: int)

  /** The dispatch of `applyDrop`: no move for `from == to` or a missing row. */
  function PlannedMove(cm: map<string, seq<string>>, rows: seq<VisibleRow>, from: int, to: nat): (mv: Move)
    ensures mv == Stay <==> from == to || RowAt(rows, from).None?
    ensures mv != Stay ==> (0 <= from < |rows| &&
      var t := ResolveDropTarget(cm, Spliced(rows, from, to), to, rows[from]);
      mv == (if t.parentId == rows[from].parentId then WithinParent(rows[from].id, t.index)
             else ToParent(rows[from].id, t.parentId, t.index)))
  {
    if from == to then Stay
    else match RowAt(rows, from)
      case None => Stay
      case Some(fromRow) =>
        var target := ResolveDropTarget(cm, Spliced(rows, from, to), to, fromRow);
        if target.parentId == fromRow.parentId then WithinParent(fromRow.id, target.index)
        else ToParent(fromRow.id, target.parentId, target.index)
  }

  /** The store action a move performs. */
  ghost function Perform(s: Store, mv: Move, rank: map<string, nat>): Change
    requires Ranked(s.maps.parentMap, rank)
  {
    match mv
    case Stay => Unchanged(s)
    case WithinParent(id, index) => MoveItemWithinParent(s, id, index)
    case ToParent(id, t, index) => MoveItemSpec(s, id, t, index, rank)
  }

  /** `applyDrop(from, to)` on the store `s` whose visible rows are `rows`. */
  method ApplyDrop(s: Store, rows: seq<VisibleRow>, from: int, to: nat, ghost rank: map<string, nat>) returns (c: Change)
    requires Ranked(s.maps.parentMap, rank)
    ensures c == Perform(s, PlannedMove(s.maps.childrenMap, rows, from, to), rank)
  {
    if from == to {
      return Unchanged(s);
    }
    if !(0 <= from < |rows|) {
      return Unchanged(s);
    }
    var fromRow := rows[from];
    var reordered := rows;
    reordered := reordered[..from] + reordered[from + 1..];
    var at := if to < |reordered| then to else |reordered|;
    reordered := reordered[..at] + [fromRow] + reordered[at..];
    assert reordered == Spliced(rows, from, to);
    var target := ResolveDropTarget(s.maps.childrenMap, reordered, to, fromRow);
    if target.parentId == fromRow.parentId {
      c := MoveItemWithinParent(s, fromRow.id, target.index);
    } else {
      c := MoveItem(s, fromRow.id, target.parentId, target.index, rank);
    }
  }

  /** `moveItem` into a list other than the item's own inserts it there at an in-range index. */
  lemma MoveToOtherList(s: Store, rank: map<string, nat>, id: string, t: string, index: int)
    requires Tree(s.maps, rank) && 0 <= index <= |Children(s.maps.childrenMap, t)|
    requires id in s.maps.parentMap && s.maps.parentMap[id] != t
    requires MoveItemSpec(s, id, t, index, rank) != Unchanged(s)
    ensures id !in Children(s.maps.childrenMap, t)
    ensures var c := MoveItemSpec(s, id, t, index, rank);
      && t in c.store.maps.childrenMap && c.store.maps.parentMap[id] == t
      && c.store.maps.childrenMap[t] == InsertAt(Children(s.maps.childrenMap, t), index, id)
  {
    var m := s.maps;
    assert JoinedList(m, id, t) == Children(m.childrenMap, t);
    assert id in Children(m.childrenMap, m.parentMap[id]);
  }

  /**
   * A drop into another parent lands where the list showed it: the item is inserted into
   * the target's list at the resolved index, which `TargetPlacement` places next to the
   * anchor row. The dragged row is taken to show the item's parent, as visible rows do.
   */
  lemma DropToOtherParentPlacement(s: Store, rank: map<string, nat>, rows: seq<VisibleRow>, from: int, to: nat)
    requires Tree(s.maps, rank)
    requires var mv := PlannedMove(s.maps.childrenMap, rows, from, to);
      mv.ToParent? && Perform(s, mv, rank) != Unchanged(s)
    requires 0 <= from < |rows| && rows[from].id in s.maps.parentMap
      && s.maps.parentMap[rows[from].id] == rows[from].parentId
    ensures var t := ResolveDropTarget(s.maps.childrenMap, Spliced(rows, from, to), to, rows[from]);
      var c := Perform(s, PlannedMove(s.maps.childrenMap, rows, from, to), rank);
      && rows[from].id !in Children(s.maps.childrenMap, t.parentId)
      && t.parentId in c.store.maps.childrenMap && c.store.maps.parentMap[rows[from].id] == t.parentId
      && c.store.maps.childrenMap[t.parentId] == InsertAt(Children(s.maps.childrenMap, t.parentId), t.index, rows[from].id)
  {
    var mv := PlannedMove(s.maps.childrenMap, rows, from, to);
    MoveToOtherList(s, rank, mv.id, mv.parentId, mv.index);
  }

  // ---------------------------------------------------------------------------
  // Dropping a row lower within its own parent

  /** The store behind three expanded root items `a, b, c`, and its visible rows. */
  function ExampleStore(): Store {
    Store(Maps(map[], map["a" := Root, "b" := Root, "c" := Root], map[Root := ["a", "b", "c"]]), None, map[], DefaultBookId)
  }

  function ExampleRows(): seq<VisibleRow> {
    [VisibleRow("a", 0, Root), VisibleRow("b", 0, Root), VisibleRow("c", 0, Root)]
  }

  lemma ExampleDragShows()
    ensures Spliced(ExampleRows(), 0, 1) == [ExampleRows()[1], ExampleRows()[0], ExampleRows()[2]]
  {
    SwapFirstTwo(ExampleRows()[0], ExampleRows()[1], ExampleRows()[2]);
  }

  /** Dragging the first of three rows one down swaps the first two. */
  lemma SwapFirstTwo(x: VisibleRow, y: VisibleRow, z: VisibleRow)
    ensures Spliced([x, y, z], 0, 1) == [y, x, z]
  {
    var rows := [x, y, z];
    assert rows[..0] == [] && rows[1..] == [y, z];
    var rest := rows[..0] + rows[1..];
    assert rest == [y, z];
    assert rest[..1] == [y] && rest[1..] == [z];
    assert rest[..1] + [x] + rest[1..] == [y, x, z];
  }

  lemma ExampleDragPlans()
    ensures PlannedMove(ExampleStore().maps.childrenMap, ExampleRows(), 0, 1) == WithinParent("a", 2)
  {
    var rows := ExampleRows();
    ExampleDragShows();
    var r := Spliced(rows, 0, 1);
    assert DropAnchor(r, 1) == After(rows[1]);
    assert IndexOf(["a", "b", "c"], "b") == 1;
  }

  lemma ExampleDragMoves()
    ensures MoveItemWithinParent(ExampleStore(), "a", 2).store.maps.childrenMap[Root] == ["b", "c", "a"]
  {
    assert IndexOf(["a", "b", "c"], "a") == 0;
    assert Reordered(["a", "b", "c"], 0, 2) == ["b", "c", "a"];
  }

  /**
   * Dragging `a` one row down shows `b, a, c`, but `applyDrop` asks for index 2 —
   * computed on the sibling list that still holds `a` — and `moveItemWithinParent`
   * yields `b, c, a`.
   */
  lemma DropDownOvershoots()
    ensures var rows := ExampleRows();
      var shown := Spliced(rows, 0, 1);
      && [shown[0].id, shown[1].id, shown[2].id] == ["b", "a", "c"]
      && PlannedMove(ExampleStore().maps.childrenMap, rows, 0, 1) == WithinParent("a", 2)
      && MoveItemWithinParent(ExampleStore(), "a", 2).store.maps.childrenMap[Root] == ["b", "c", "a"]
  {
    ExampleDragShows();
    ExampleDragPlans();
    ExampleDragMoves();
  }

  /**
   * The index a within-parent drop should ask for: a target index computed on the
   * sibling list that still holds the dragged item counts that item once too often when
   * it lies beyond the item's current place.
   */
  function AdjustedIndex(siblings: seq<string>, id: string, index: int): (k: int)
    ensures id in siblings && index > IndexOf(siblings, id) ==> k == index - 1
    ensures id !in siblings || index <= IndexOf(siblings, id) ==> k == index
  {
    var current := IndexOf(siblings, id);
    if current != -1 && index > current then index - 1 else index
  }

  /** `PlannedMove` with the within-parent index adjusted. */
  function CorrectedPlannedMove(cm: map<string, seq<string>>, rows: seq<VisibleRow>, from: int, to: nat): (mv: Move)
    ensures mv.ToParent? || mv.Stay? ==> mv == PlannedMove(cm, rows, from, to)
    ensures mv.WithinParent? ==> (PlannedMove(cm, rows, from, to).WithinParent? && mv.id == rows[from].id &&
      mv.index == AdjustedIndex(Children(cm, rows[from].parentId), mv.id, PlannedMove(cm, rows, from, to).index))
  {
    match PlannedMove(cm, rows, from, to)
    case WithinParent(id, index) => WithinParent(id, AdjustedIndex(Children(cm, rows[from].parentId), id, index))
    case mv => mv
  }

  /** Re-inserting an item behind the anchor at `anchor`, once the index is adjusted. */
  lemma ReorderedAfter(l: seq<string>, current: nat, anchor: nat)
    requires current < |l| && anchor < |l| && anchor != current
    ensures var k := if anchor + 1 > current then anchor else anchor + 1;
      && 0 < k < |l|
      && Reordered(l, current, k)[k] == l[current] && Reordered(l, current, k)[k - 1] == l[anchor]
  {
    var k := if anchor + 1 > current then anchor else anchor + 1;
    var rest := RemoveAt(l, current);
    assert rest[k - 1] == l[anchor];
  }

  /** Re-inserting an item in front of the anchor at `anchor`, once the index is adjusted. */
  lemma ReorderedBefore(l: seq<string>, current: nat, anchor: nat)
    requires current < |l| && anchor < |l| && anchor != current
    ensures var k := if anchor > current then anchor - 1 else anchor;
      && 0 <= k < |l| - 1
      && Reordered(l, current, k)[k] == l[current] && Reordered(l, current, k)[k + 1] == l[anchor]
  {
    var k := if anchor > current then anchor - 1 else anchor;
    var rest := RemoveAt(l, current);
    assert rest[k] == l[anchor];
  }

  /** Moving an item to where it already sits leaves its list as it was. */
  lemma ReorderedInPlace(l: seq<string>, current: nat)
    requires current < |l|
    ensures Reordered(l, current, current) == l
  {
    var r := Reordered(l, current, current);
    assert forall k | 0 <= k < |l| :: r[k] == l[k];
  }

  /** The list of `id`'s parent. */
  function Siblings(s: Store, id: string): seq<string>
    requires id in s.maps.parentMap
  {
    Children(s.maps.childrenMap, s.maps.parentMap[id])
  }

  /** The list of `id`'s parent after `moveItemWithinParent(id, k)`. */
  function MovedSiblings(s: Store, id: string, k: int): seq<string>
    requires id in s.maps.parentMap
  {
    Children(MoveItemWithinParent(s, id, k).store.maps.childrenMap, s.maps.parentMap[id])
  }

  /** `moveItemWithinParent` to an in-range index leaves the parent's list reordered. */
  lemma WithinParentReorders(s: Store, id: string, k: int)
    requires id in s.maps.parentMap && s.maps.parentMap[id] != ""
    requires id in Siblings(s, id) && 0 <= k < |Siblings(s, id)|
    ensures MovedSiblings(s, id, k) == Reordered(Siblings(s, id), IndexOf(Siblings(s, id), id), k)
  {
    var l, p := Siblings(s, id), s.maps.parentMap[id];
    assert Clamp(0, k, |l| - 1) == k;
    if IndexOf(l, id) == k {
      ReorderedInPlace(l, k);
      assert MoveItemWithinParent(s, id, k) == Unchanged(s);
    } else {
      assert MoveItemWithinParent(s, id, k).store.maps.childrenMap == s.maps.childrenMap[p := Reordered(l, IndexOf(l, id), k)];
    }
  }

  /** `r[k]` is `id`, directly in front of (`before`) or behind `x`. */
  predicate NextTo(r: seq<string>, k: int, id: string, x: string, before: bool) {
    && 0 <= k < |r| && r[k] == id
    && (before ==> k + 1 < |r| && r[k + 1] == x) && (!before ==> 0 < k && r[k - 1] == x)
  }

  /** The index a drop right in front of (`before`) or behind sibling `x` asks for, adjusted. */
  function NextToIndex(l: seq<string>, id: string, x: string, before: bool): int {
    AdjustedIndex(l, id, if before then IndexOf(l, x) else IndexOf(l, x) + 1)
  }

  /**
   * With the adjusted index, `moveItemWithinParent` puts the item directly behind
   * (`before` false) or in front of (`before` true) a sibling `x`, as the drop showed it.
   */
  lemma WithinParentNextTo(s: Store, rank: map<string, nat>, id: string, x: string, before: bool)
    requires Tree(s.maps, rank) && id in s.maps.parentMap && s.maps.parentMap[id] != ""
    requires x in Siblings(s, id) && x != id
    ensures var k := NextToIndex(Siblings(s, id), id, x, before);
      NextTo(MovedSiblings(s, id, k), k, id, x, before)
  {
    assert id in Children(s.maps.childrenMap, s.maps.parentMap[id]);
    ListedNextTo(s, id, x, before);
  }

  /** `WithinParentNextTo` for an item listed under its parent. */
  lemma ListedNextTo(s: Store, id: string, x: string, before: bool)
    requires id in s.maps.parentMap && s.maps.parentMap[id] != ""
    requires id in Siblings(s, id) && x in Siblings(s, id) && x != id
    ensures var k := NextToIndex(Siblings(s, id), id, x, before);
      NextTo(MovedSiblings(s, id, k), k, id, x, before)
  {
    var l := Siblings(s, id);
    var k := NextToIndex(l, id, x, before);
    AdjustedNextTo(l, id, x, before);
    WithinParentReorders(s, id, k);
  }

  /** In a list, the adjusted index moves `id` directly behind or in front of `x`. */
  lemma AdjustedNextTo(l: seq<string>, id: string, x: string, before: bool)
    requires id in l && x in l && x != id
    ensures var k := NextToIndex(l, id, x, before);
      NextTo(Reordered(l, IndexOf(l, id), k), k, id, x, before)
  {
    var current, anchor := IndexOf(l, id), IndexOf(l, x);
    if before { ReorderedBefore(l, current, anchor); } else { ReorderedAfter(l, current, anchor); }
  }

  /** The anchor row of a drop is another item, listed under the parent the target names. */
  predicate AnchorListed(cm: map<string, seq<string>>, a: Anchor, id: string) {
    match a
    case FirstChildOf(prev, next) => next.id in Children(cm, prev.id) && next.id != id
    case After(row) => row.id in Children(cm, row.parentId) && row.id != id
    case Before(row) => row.id in Children(cm, row.parentId) && row.id != id
    case Alone => true
  }

  /** `r[k]` sits next to the anchor row `a` the way the drop showed it. */
  predicate LandsBy(r: seq<string>, k: int, a: Anchor) {
    && 0 <= k < |r|
    && match a
       case FirstChildOf(prev, next) => k + 1 < |r| && r[k + 1] == next.id
       case After(row) => 0 < k && r[k - 1] == row.id
       case Before(row) => k + 1 < |r| && r[k + 1] == row.id
       case Alone => k == 0
  }

  /** The index `resolveDropTarget` picks next to a listed anchor in the list of the dragged row's parent. */
  lemma ListedAnchorIndex(cm: map<string, seq<string>>, reordered: seq<VisibleRow>, to: int, fromRow: VisibleRow)
    requires ResolveDropTarget(cm, reordered, to, fromRow).parentId == fromRow.parentId
    requires AnchorListed(cm, DropAnchor(reordered, to), fromRow.id)
    ensures var t := ResolveDropTarget(cm, reordered, to, fromRow);
      var l := Children(cm, fromRow.parentId);
      match DropAnchor(reordered, to)
      case FirstChildOf(prev, next) => next.id in l && t.index == IndexOf(l, next.id)
      case After(row) => row.id in l && t.index == IndexOf(l, row.id) + 1
      case Before(row) => row.id in l && t.index == IndexOf(l, row.id)
      case Alone => t.index == 0
  {
  }

  /** `moveItemWithinParent` with the adjusted index of a listed anchor lands next to it. */
  lemma AdjustedLandsBy(s: Store, id: string, a: Anchor, index: int)
    requires id in s.maps.parentMap && s.maps.parentMap[id] != ""
    requires id in Siblings(s, id) && AnchorListed(s.maps.childrenMap, a, id)
    requires match a
      case FirstChildOf(prev, next) => next.id in Siblings(s, id) && index == IndexOf(Siblings(s, id), next.id)
      case After(row) => row.id in Siblings(s, id) && index == IndexOf(Siblings(s, id), row.id) + 1
      case Before(row) => row.id in Siblings(s, id) && index == IndexOf(Siblings(s, id), row.id)
      case Alone => index == 0
    ensures var k := AdjustedIndex(Siblings(s, id), id, index);
      LandsBy(MovedSiblings(s, id, k), k, a) && MovedSiblings(s, id, k)[k] == id
  {
    var l := Siblings(s, id);
    var k := AdjustedIndex(l, id, index);
    match a {
      case FirstChildOf(prev, next) =>
        ListedNextTo(s, id, next.id, true);
        assert k == NextToIndex(l, id, next.id, true);
      case After(row) =>
        ListedNextTo(s, id, row.id, false);
        assert k == NextToIndex(l, id, row.id, false);
      case Before(row) =>
        ListedNextTo(s, id, row.id, true);
        assert k == NextToIndex(l, id, row.id, true);
      case Alone =>
        WithinParentReorders(s, id, k);
    }
    LandsByNextTo(MovedSiblings(s, id, k), k, a, id);
  }

  /** `LandsBy` for each kind of anchor, from the item's place next to the anchor's row. */
  lemma LandsByNextTo(r: seq<string>, k: int, a: Anchor, id: string)
    requires match a
      case FirstChildOf(prev, next) => NextTo(r, k, id, next.id, true)
      case After(row) => NextTo(r, k, id, row.id, false)
      case Before(row) => NextTo(r, k, id, row.id, true)
      case Alone => k == 0 && 0 < |r| && r[0] == id
    ensures LandsBy(r, k, a) && r[k] == id
  {
  }

  /**
   * With the adjusted index, a drop within the item's own parent lands where the rows
   * showed it: directly behind an `After` anchor, in front of a `Before` or `FirstChildOf`
   * anchor, and first when there is no anchor. The dragged row is taken to show the
   * item's parent, as visible rows do.
   */
  lemma CorrectedDropWithinParent(s: Store, rank: map<string, nat>, rows: seq<VisibleRow>, from: int, to: nat)
    requires Tree(s.maps, rank)
    requires CorrectedPlannedMove(s.maps.childrenMap, rows, from, to).WithinParent?
    requires 0 <= from < |rows| && rows[from].id in s.maps.parentMap
      && s.maps.parentMap[rows[from].id] == rows[from].parentId && rows[from].parentId != ""
    requires AnchorListed(s.maps.childrenMap, DropAnchor(Spliced(rows, from, to), to), rows[from].id)
    ensures var mv := CorrectedPlannedMove(s.maps.childrenMap, rows, from, to);
      var r := Children(Perform(s, mv, rank).store.maps.childrenMap, rows[from].parentId);
      LandsBy(r, mv.index, DropAnchor(Spliced(rows, from, to), to)) && r[mv.index] == rows[from].id
  {
    var cm := s.maps.childrenMap;
    var id, p := rows[from].id, rows[from].parentId;
    var l := Children(cm, p);
    var reordered := Spliced(rows, from, to);
    var t := ResolveDropTarget(cm, reordered, to, rows[from]);
    assert t.parentId == p && CorrectedPlannedMove(cm, rows, from, to) == WithinParent(id, AdjustedIndex(l, id, t.index));
    ListedAnchorIndex(cm, reordered, to, rows[from]);
    AdjustedLandsBy(s, id, DropAnchor(reordered, to), t.index);
  }
}
