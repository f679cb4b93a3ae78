/**
 * The edit actions of the outline store (stores/outline.ts). Each action is a copy-on-write
 * transform: it takes the store's state and yields the new state together with the
 * persist request it hands to the persistence scheduler (`None` when the action returns
 * the state unchanged and persists nothing).
 */
module OutlineStore {
  import opened Wrappers
  import opened OutlineTree
  import opened OutlineRemoval

  /** `DEFAULT_BOOK_ID` */
  const DefaultBookId := "default-book"

  /** The fields of the store's state that the edit actions read and write. */
  datatype Store = Store(
    maps: Maps,
    activeId: Option<string>,
    collapsedIds: map<string, bool>,
    currentBookId: string)

  /** A call of `schedulePersist(bookId, dataMap, parentMap, childrenMap, immediate)`. */
  datatype Persist = Persist(bookId: string, maps: Maps, immediate: bool)

  /** The state an action leaves and the persist request it makes. */
  datatype Change = Change(store: Store, persist: Option<Persist>)

  /** The store before any book is loaded. */
  function Initial(): (s: Store)
    ensures s.maps.dataMap == map[] && s.maps.parentMap == map[] && s.maps.childrenMap == map[]
    ensures s.activeId == None && s.collapsedIds == map[] && s.currentBookId == DefaultBookId
  {
    Store(Maps(map[], map[], map[]), None, map[], DefaultBookId)
  }

  /** `return state`: nothing changes and nothing is persisted. */
  function Unchanged(s: Store): Change {
    Change(s, None)
  }

  /** The state with new maps, persisted for the current book. */
  function Edited(s: Store, m: Maps, immediate: bool): (c: Change)
    ensures c.store == s.(maps := m) && c.persist == Some(Persist(s.currentBookId, m, immediate))
  {
    Change(s.(maps := m), Some(Persist(s.currentBookId, m, immediate)))
  }

  // ---------------------------------------------------------------------------
  // addItemAfter

  /**
   * The parent `addItemAfter` files the new item under: root without `afterId`, otherwise
   * `afterId`'s parent, which is `undefined` (`None`) when `afterId` has none.
   */
  function NewParent(pm: map<string, string>, afterId: Option<string>): Option<string> {
    match afterId
    case None => Some(Root)
    case Some(a) => if a in pm then Some(pm[a]) else None
  }

  /**
   * The parent's list with `id` spliced in right after `afterId`, or pushed at the end when
   * there is no `afterId` or it is not in the list.
   */
  function PlaceAfter(children: seq<string>, afterId: Option<string>, id: string): (list: seq<string>)
    ensures var i := match afterId case None => -1 case Some(a) => IndexOf(children, a);
      list == InsertAt(children, if i == -1 then |children| else i + 1, id)
    ensures afterId.Some? && afterId.value in children ==>
      var i := IndexOf(children, afterId.value);
      list[..i + 1] == children[..i + 1] && list[i + 1] == id && list[i + 2..] == children[i + 1..]
    ensures afterId.None? || afterId.value !in children ==> list == children + [id]
    ensures forall c :: c in list <==> c in children || c == id
    ensures NoDup(children) && id !in children ==> NoDup(list)
  {
    var afterIndex := match afterId case None => -1 case Some(a) => IndexOf(children, a);
    var at := if afterIndex == -1 then |children| else afterIndex + 1;
    InsertAtMembers(children, at, id);
    if afterIndex == -1 then
      assert InsertAt(children, |children|, id) == children + [id];
      children + [id]
    else
      InsertAt(children, afterIndex + 1, id)
  }

  /**
   * `addItemAfter(afterId)`, with the freshly generated `id` as a parameter: an empty text
   * node filed under `afterId`'s parent (root without `afterId`) right after `afterId`; it
   * becomes the active item and the maps are persisted at once.
   */
  function AddItemAfter(s: Store, id: string, afterId: Option<string>): (c: Change)
    ensures var parent := NewParent(s.maps.parentMap, afterId);
      var key := if parent.Some? then parent.value else "undefined";
      && c.store.maps.dataMap == s.maps.dataMap[id := Node(Some(id), Some("text"), "")]
      && (parent.Some? ==> c.store.maps.parentMap == s.maps.parentMap[id := key])
      && (parent.None? ==> c.store.maps.parentMap == s.maps.parentMap - {id})
      && c.store.maps.childrenMap == s.maps.childrenMap[key := PlaceAfter(Children(s.maps.childrenMap, key), afterId, id)]
    ensures c.store.activeId == Some(id) && c.store.collapsedIds == s.collapsedIds
    ensures c.store.currentBookId == s.currentBookId
    ensures c.persist == Some(Persist(s.currentBookId, c.store.maps, true))
  {
    var pm, cm := s.maps.parentMap, s.maps.childrenMap;
    var parent := NewParent(pm, afterId);
    var key := if parent.Some? then parent.value else "undefined";
    var list := PlaceAfter(Children(cm, key), afterId, id);
    var pm2 := if parent.Some? then pm[id := key] else pm - {id};
    var m := Maps(s.maps.dataMap[id := Node(Some(id), Some("text"), "")], pm2, cm[key := list]);
    Edited(s.(activeId := Some(id)), m, true)
  }

  /**
   * Adding a fresh id after an item of the outline, or at the top level, keeps the outline
   * well formed, and the new item's parent is that item's parent (root at the top level).
   */
  lemma AddItemAfterKeepsTree(s: Store, rank: map<string, nat>, id: string, afterId: Option<string>)
      returns (rank2: map<string, nat>)
    requires Tree(s.maps, rank)
    requires id != "" && id != Root && id !in s.maps.parentMap && id !in s.maps.childrenMap
    requires afterId.None? || afterId.value in s.maps.parentMap
    ensures Tree(AddItemAfter(s, id, afterId).store.maps, rank2)
    ensures AddItemAfter(s, id, afterId).store.maps.parentMap[id]
      == (if afterId.None? then Root else s.maps.parentMap[afterId.value])
  {
    var pm, cm := s.maps.parentMap, s.maps.childrenMap;
    var p := if afterId.None? then Root else pm[afterId.value];
    var before := Children(cm, p);
    var list := PlaceAfter(before, afterId, id);
    AddIsAttach(s, id, afterId, p);
    ParentlessUnlisted(pm, cm, id, p);
    assert NoDup(list) && forall c :: c in list <==> c == id || c in before;
    rank2 := AttachKeepsTree(s.maps, rank, id, p, list, s.maps.dataMap[id := Node(Some(id), Some("text"), "")]);
  }

  /** The edit behind `addItemAfter` once the new item's parent `p` is known. */
  lemma AddIsAttach(s: Store, id: string, afterId: Option<string>, p: string)
    requires NewParent(s.maps.parentMap, afterId) == Some(p)
    ensures AddItemAfter(s, id, afterId).store.maps
      == Maps(s.maps.dataMap[id := Node(Some(id), Some("text"), "")], s.maps.parentMap[id := p],
              s.maps.childrenMap[p := PlaceAfter(Children(s.maps.childrenMap, p), afterId, id)])
  {
  }

  // ---------------------------------------------------------------------------
  // updateItemText

  /**
   * `updateItemText(id, text)`: sets the text of `id`'s data and persists after the delay.
   * The clone `{ ...dataMap[id] }` is never falsy, so an unknown id gets a new entry holding
   * only the text.
   */
  function UpdateItemText(s: Store, id: string, text: string): (c: Change)
    ensures c.store.maps.parentMap == s.maps.parentMap && c.store.maps.childrenMap == s.maps.childrenMap
    ensures c.store.maps.dataMap.Keys == s.maps.dataMap.Keys + {id}
    ensures c.store.maps.dataMap[id].text == text
    ensures id in s.maps.dataMap ==> c.store.maps.dataMap[id] == s.maps.dataMap[id].(text := text)
    ensures id !in s.maps.dataMap ==> c.store.maps.dataMap[id] == Node(None, None, text)
    ensures forall k | k in s.maps.dataMap && k != id :: c.store.maps.dataMap[k] == s.maps.dataMap[k]
    ensures c.store.activeId == s.activeId && c.store.collapsedIds == s.collapsedIds
    ensures c.persist == Some(Persist(s.currentBookId, c.store.maps, false))
  {
    var dm := s.maps.dataMap;
    var item := if id in dm then dm[id] else Node(None, None, "");
    Edited(s, s.maps.(dataMap := dm[id := item.(text := text)]), false)
  }

  // ---------------------------------------------------------------------------
  // indentItem

  /**
   * `indentItem(id)`: nothing happens when `id` is the first of its list or not in it;
   * otherwise it leaves the list and becomes the last child of its previous sibling.
   */
  function IndentItem(s: Store, id: string): (c: Change)
    ensures var key := ParentKey(s.maps.parentMap, id);
      var items := Children(s.maps.childrenMap, key);
      var index := IndexOf(items, id);
      && (index < 1 ==> c == Unchanged(s))
      && (index >= 1 ==>
            var prev := items[index - 1];
            && c == Edited(s, Maps(s.maps.dataMap, s.maps.parentMap[id := prev],
                 s.maps.childrenMap[key := RemoveAt(items, index)][prev := Children(s.maps.childrenMap, prev) + [id]]), true))
  {
    var pm, cm := s.maps.parentMap, s.maps.childrenMap;
    var key := ParentKey(pm, id);
    var items := Children(cm, key);
    var index := IndexOf(items, id);
    if index - 1 < 0 then Unchanged(s)
    else
      var parentId := items[index - 1];
      var parentChildren := Children(cm, parentId);
      var cm2 := cm[key := RemoveAt(items, index)][parentId := parentChildren + [id]];
      Edited(s, Maps(s.maps.dataMap, pm[id := parentId], cm2), true)
  }

  /**
   * On a well-formed outline, indenting keeps it well formed: the moved item now hangs
   * under its former previous sibling, at the end of that sibling's children.
   */
  lemma IndentItemKeepsTree(s: Store, rank: map<string, nat>, id: string) returns (rank2: map<string, nat>)
    requires Tree(s.maps, rank)
    ensures Tree(IndentItem(s, id).store.maps, rank2)
    ensures IndentItem(s, id) != Unchanged(s) ==>
      && id in s.maps.parentMap
      && var prev := IndentItem(s, id).store.maps.parentMap[id];
      && prev in s.maps.parentMap && s.maps.parentMap[prev] == s.maps.parentMap[id]
      && IndentItem(s, id).store.maps.childrenMap[prev] == Children(s.maps.childrenMap, prev) + [id]
  {
    var pm, cm := s.maps.parentMap, s.maps.childrenMap;
    var key := ParentKey(pm, id);
    var items := Children(cm, key);
    var index := IndexOf(items, id);
    if index < 1 {
      rank2 := rank;
    } else {
      assert id in cm[key];
      var prev := items[index - 1];
      assert prev in cm[key];
      assert prev != id;
      assert Walk(pm, prev, rank) == [prev] + Walk(pm, key, rank);
      NotOwnAncestor(pm, rank, id);
      var list := Children(cm, prev) + [id];
      assert id !in Children(cm, prev);
      AppendMembers(Children(cm, prev), id);
      assert JoinedList(s.maps, id, prev) == Children(cm, prev);
      assert id !in Walk(pm, prev, rank);
      assert Without(Children(cm, key), id) == RemoveAt(items, index);
      assert IndentItem(s, id).store.maps == Relinked(s.maps, id, prev, list);
      rank2 := RelinkKeepsTree(s.maps, rank, id, prev, list);
    }
  }

  // ---------------------------------------------------------------------------
  // outdentItem

  /**
   * `outdentItem(id)`: nothing happens when `id` is not in its parent's list, when the
   * parent has no (truthy) parent, or when the parent is missing from the grandparent's
   * list; otherwise `id` moves to the grandparent's list, right after its old parent.
   */
  function OutdentItem(s: Store, id: string): (c: Change)
  {
    var pm, cm := s.maps.parentMap, s.maps.childrenMap;
    var key := ParentKey(pm, id);
    var items := Children(cm, key);
    var index := IndexOf(items, id);
    if index == -1 then Unchanged(s)
    else
      var cm1 := cm[key := RemoveAt(items, index)];
      if key !in pm || pm[key] == "" then Unchanged(s)
      else
        var parentId := pm[key];
        var parentItems := Children(cm1, parentId);
        var prevIndex := IndexOf(parentItems, key);
        if prevIndex == -1 then Unchanged(s)
        else
          var cm2 := cm1[parentId := InsertAt(parentItems, prevIndex + 1, id)];
          Edited(s, Maps(s.maps.dataMap, pm[id := parentId], cm2), true)
  }

  /** On a well-formed outline, outdenting keeps it well formed. */
  lemma OutdentItemKeepsTree(s: Store, rank: map<string, nat>, id: string) returns (rank2: map<string, nat>)
    requires Tree(s.maps, rank)
    ensures Tree(OutdentItem(s, id).store.maps, rank2)
  {
    var pm, cm := s.maps.parentMap, s.maps.childrenMap;
    var key := ParentKey(pm, id);
    var items := Children(cm, key);
    var index := IndexOf(items, id);
    if index == -1 || key !in pm || pm[key] == "" {
      rank2 := rank;
    } else {
      assert id in cm[key];
      var grand := pm[key];
      assert grand != key;
      var cm1 := cm[key := RemoveAt(items, index)];
      var parentItems := Children(cm1, grand);
      assert parentItems == Children(cm, grand);
      var at := IndexOf(parentItems, key);
      if at == -1 {
        rank2 := rank;
      } else {
        assert Walk(pm, key, rank) == [key] + Walk(pm, grand, rank);
        NotOwnAncestor(pm, rank, id);
        var list := InsertAt(parentItems, at + 1, id);
        assert id !in parentItems;
        InsertAtMembers(parentItems, at + 1, id);
        OutdentIsRelink(s, id, list);
        rank2 := RelinkKeepsTree(s.maps, rank, id, grand, list);
      }
    }
  }

  /** The edit behind a successful outdent, as a relink under the grandparent. */
  lemma OutdentIsRelink(s: Store, id: string, list: seq<string>)
    requires id in s.maps.parentMap && s.maps.parentMap[id] in s.maps.parentMap
    requires var from := s.maps.parentMap[id];
      var grand := s.maps.parentMap[from];
      var items := Children(s.maps.childrenMap, from);
      && grand != "" && grand != from && id in items
      && from in Children(s.maps.childrenMap, grand)
      && list == InsertAt(Children(s.maps.childrenMap, grand), IndexOf(Children(s.maps.childrenMap, grand), from) + 1, id)
    ensures OutdentItem(s, id).store.maps == Relinked(s.maps, id, s.maps.parentMap[s.maps.parentMap[id]], list)
  {
    var pm, cm := s.maps.parentMap, s.maps.childrenMap;
    var key := pm[id];
    assert ParentKey(pm, id) == key;
    var items := Children(cm, key);
    assert Without(items, id) == RemoveAt(items, IndexOf(items, id));
  }

  /**
   * On a well-formed outline, an outdented item now hangs under its old grandparent and
   * directly follows its old parent there.
   */
  lemma OutdentItemFollowsParent(s: Store, rank: map<string, nat>, id: string)
    requires Tree(s.maps, rank)
    ensures OutdentItem(s, id) != Unchanged(s) ==>
      && id in s.maps.parentMap && s.maps.parentMap[id] in s.maps.parentMap
      && var from := s.maps.parentMap[id];
      && var grand := s.maps.parentMap[from];
      && var list := OutdentItem(s, id).store.maps.childrenMap[grand];
      && OutdentItem(s, id).store.maps.parentMap[id] == grand
      && IndexOf(list, id) == IndexOf(list, from) + 1
  {
    var pm, cm := s.maps.parentMap, s.maps.childrenMap;
    var key := ParentKey(pm, id);
    var items := Children(cm, key);
    var index := IndexOf(items, id);
    if index != -1 && key in pm && pm[key] != "" {
      assert id in cm[key];
      var grand := pm[key];
      assert grand != key;
      var parentItems := Children(cm[key := RemoveAt(items, index)], grand);
      assert parentItems == Children(cm, grand);
      if IndexOf(parentItems, key) != -1 {
        NotOwnAncestor(pm, rank, id);
        assert id !in parentItems;
        InsertAfterIndex(parentItems, key, id);
      }
    }
  }

  // ---------------------------------------------------------------------------
  // moveItemWithinParent

  /**
   * `moveItemWithinParent(id, targetIndex)`: reorders `id` within its own (truthy)
   * parent's list to `targetIndex` clamped to the list; nothing happens when `id` has no
   * parent, is not in that list, or already sits at the clamped index.
   */
  function MoveItemWithinParent(s: Store, id: string, targetIndex: int): (c: Change)
    ensures c != Unchanged(s) ==>
      && id in s.maps.parentMap
      && var p := s.maps.parentMap[id];
      && var siblings := Children(s.maps.childrenMap, p);
      && p in c.store.maps.childrenMap
      && var list := c.store.maps.childrenMap[p];
      && id in siblings
      && c == Edited(s, s.maps.(childrenMap := s.maps.childrenMap[p := list]), false)
      && |list| == |siblings| && multiset(list) == multiset(siblings)
      && list[Clamp(0, targetIndex, |siblings| - 1)] == id
      && IndexOf(siblings, id) != Clamp(0, targetIndex, |siblings| - 1)
    ensures c == Unchanged(s) <==>
      || id !in s.maps.parentMap || s.maps.parentMap[id] == ""
      || var siblings := Children(s.maps.childrenMap, s.maps.parentMap[id]);
         id !in siblings || IndexOf(siblings, id) == Clamp(0, targetIndex, |siblings| - 1)
  {
    var pm, cm := s.maps.parentMap, s.maps.childrenMap;
    if id !in pm || pm[id] == "" then Unchanged(s)
    else
      var parentId := pm[id];
      var siblings := Children(cm, parentId);
      var currentIndex := IndexOf(siblings, id);
      if currentIndex == -1 then Unchanged(s)
      else
        var toIndex := Clamp(0, targetIndex, |siblings| - 1);
        if toIndex == currentIndex then Unchanged(s)
        else
          Edited(s, s.maps.(childrenMap := cm[parentId := Reordered(siblings, currentIndex, toIndex)]), false)
  }

  /** Reordering siblings keeps a well-formed outline well formed, with the same parents. */
  lemma MoveWithinParentKeepsTree(s: Store, rank: map<string, nat>, id: string, targetIndex: int)
    requires Tree(s.maps, rank)
    ensures Tree(MoveItemWithinParent(s, id, targetIndex).store.maps, rank)
  {
    var c := MoveItemWithinParent(s, id, targetIndex);
    if c != Unchanged(s) {
      var pm, cm := s.maps.parentMap, s.maps.childrenMap;
      var p := pm[id];
      var siblings := cm[p];
      var list := Reordered(siblings, IndexOf(siblings, id), Clamp(0, targetIndex, |siblings| - 1));
      assert c.store.maps == s.maps.(childrenMap := cm[p := list]);
      assert forall x :: x in list <==> x in siblings by {
        assert forall x :: x in list <==> x in multiset(list);
      }
      SameMembersKeepsTree(s.maps, rank, p, list);
    }
  }

  // ---------------------------------------------------------------------------
  // moveItem

  /**
   * What `moveItem(id, targetParentId, targetIndex)` does once its guards passed: `id`
   * leaves its list (nothing happens if it is not there) and is inserted into the target's
   * list at `targetIndex` clamped to [0, length], the target becoming its parent.
   */
  function MoveAfterGuard(s: Store, id: string, t: string, targetIndex: int): (c: Change)
    requires id in s.maps.parentMap
    ensures var m := s.maps;
      var siblings := Children(m.childrenMap, m.parentMap[id]);
      && (id !in siblings ==> c == Unchanged(s))
      && (id in siblings ==>
            var joined := JoinedList(m, id, t);
            var list := InsertAt(joined, Clamp(0, targetIndex, |joined|), id);
            c == Edited(s, Relinked(m, id, t, list), false))
  {
    var pm, cm := s.maps.parentMap, s.maps.childrenMap;
    var oldParentId := pm[id];
    var oldSiblings := Children(cm, oldParentId);
    var currentIndex := IndexOf(oldSiblings, id);
    if currentIndex == -1 then Unchanged(s)
    else
      var rest := RemoveAt(oldSiblings, currentIndex);
      var cm1 := cm[oldParentId := rest];
      var targetSiblings := if oldParentId == t then rest else Children(cm, t);
      var nextTargetIndex := Clamp(0, targetIndex, |targetSiblings|);
      var cm2 := cm1[t := InsertAt(targetSiblings, nextTargetIndex, id)];
      Edited(s, Maps(s.maps.dataMap, pm[id := t], cm2), false)
  }

  /**
   * `moveItem`: refused when `id` has no (truthy) parent or the target is `id` itself or
   * one of its descendants (the walk up from the target meets `id`).
   */
  ghost function MoveItemSpec(s: Store, id: string, t: string, targetIndex: int, rank: map<string, nat>): Change
    requires Ranked(s.maps.parentMap, rank)
  {
    var pm := s.maps.parentMap;
    if id !in pm || pm[id] == "" || t == id || id in Walk(pm, t, rank) then Unchanged(s)
    else MoveAfterGuard(s, id, t, targetIndex)
  }

  /**
   * `moveItem(id, targetParentId, targetIndex)`. The guard walks up the parents from the
   * target, which ends only because the parents are acyclic (`rank` witnesses that).
   */
  method MoveItem(s: Store, id: string, t: string, targetIndex: int, ghost rank: map<string, nat>) returns (c: Change)
    requires Ranked(s.maps.parentMap, rank)
    ensures c == MoveItemSpec(s, id, t, targetIndex, rank)
  {
    var pm := s.maps.parentMap;
    if id !in pm || pm[id] == "" {
      return Unchanged(s);
    }
    if t == id {
      return Unchanged(s);
    }
    var cursor := t;
    ghost var visited: seq<string> := [];
    while cursor != ""
      invariant Walk(pm, t, rank) == visited + Walk(pm, cursor, rank)
      invariant id !in visited
      decreases if cursor == "" then 0 else if cursor in pm then rank[cursor] + 2 else 1
    {
      if cursor == id {
        return Unchanged(s);
      }
      visited := visited + [cursor];
      cursor := if cursor in pm then pm[cursor] else "";
    }
    c := MoveAfterGuard(s, id, t, targetIndex);
  }

  /**
   * A move the guard lets through keeps a well-formed outline well formed (no cycle is
   * created), and the moved item ends up under the target at the clamped index.
   */
  lemma MoveItemKeepsTree(s: Store, rank: map<string, nat>, id: string, t: string, targetIndex: int)
      returns (rank2: map<string, nat>)
    requires Tree(s.maps, rank)
    ensures Tree(MoveItemSpec(s, id, t, targetIndex, rank).store.maps, rank2)
    ensures var c := MoveItemSpec(s, id, t, targetIndex, rank);
      c != Unchanged(s) ==>
        && id !in Walk(s.maps.parentMap, t, rank)
        && c.store.maps.parentMap[id] == t
        && var joined := JoinedList(s.maps, id, t);
        && c.store.maps.childrenMap[t][Clamp(0, targetIndex, |joined|)] == id
  {
    var c := MoveItemSpec(s, id, t, targetIndex, rank);
    if c == Unchanged(s) {
      rank2 := rank;
    } else {
      var m := s.maps;
      var joined := JoinedList(m, id, t);
      var at := Clamp(0, targetIndex, |joined|);
      var list := InsertAt(joined, at, id);
      assert id in Children(m.childrenMap, m.parentMap[id]);
      assert c.store.maps == Relinked(m, id, t, list);
      assert NoDup(joined) && id !in joined by {
        assert t != m.parentMap[id] ==> joined == Children(m.childrenMap, t);
      }
      InsertAtMembers(joined, at, id);
      rank2 := RelinkKeepsTree(m, rank, id, t, list);
    }
  }

  // ---------------------------------------------------------------------------
  // removeItem

  /**
   * `removeItem(id)`: removes `id`'s subtree and makes its previous sibling (or nothing)
   * the active item; the maps are persisted at once. When `removeSubTree` throws, the
   * store keeps its state and the error reaches the caller.
   */
  function RemoveItem(s: Store, id: string): (r: Result<Change, RemoveError>)
    ensures id !in s.maps.parentMap ==> r == Err(MissingParent(id))
    ensures r.Ok? ==>
      && var c := r.value;
      && id !in c.store.maps.dataMap && id !in c.store.maps.parentMap && id !in c.store.maps.childrenMap
      && c.store.collapsedIds == s.collapsedIds && c.store.currentBookId == s.currentBookId
      && c.persist == Some(Persist(s.currentBookId, c.store.maps, true))
  {
    match RemoveSubTree(s.maps, id, |s.maps.parentMap| + 1)
    case Err(e) => Err(e)
    case Ok(removed) => Ok(Edited(s.(activeId := removed.prev), removed.maps, true))
  }

  /**
   * On a well-formed outline, removing an item that has a parent succeeds: exactly its
   * subtree is gone, the rest stays well formed, and its previous sibling (none when it
   * came first) becomes the active item.
   */
  lemma RemoveItemKeepsTree(s: Store, rank: map<string, nat>, id: string)
    requires Tree(s.maps, rank) && id in s.maps.parentMap
    ensures RemoveItem(s, id).Ok?
    ensures var c := RemoveItem(s, id).value;
      && c.store.maps == RemovedTree(s.maps, id, rank)
      && c.store.activeId == PrevSibling(Children(s.maps.childrenMap, s.maps.parentMap[id]), id)
      && Tree(c.store.maps, rank)
  {
    SubtreeBound(s.maps, rank, id);
    RemoveSubTreeSpec(s.maps, rank, id, |s.maps.parentMap| + 1);
    RemovedTreeIsTree(s.maps, rank, id);
  }

  // ---------------------------------------------------------------------------
  // Collapse bookkeeping

  /** `!!collapsedIds[id]`: a missing entry reads as expanded. */
  function IsCollapsed(s: Store, id: string): bool {
    id in s.collapsedIds && s.collapsedIds[id]
  }

  /** `toggleCollapse(id)`: flips `id` and nothing else. */
  function ToggleCollapse(s: Store, id: string): (r: Store)
    ensures IsCollapsed(r, id) == !IsCollapsed(s, id)
    ensures forall k | k != id :: IsCollapsed(r, k) == IsCollapsed(s, k)
    ensures r.maps == s.maps && r.activeId == s.activeId
  {
    s.(collapsedIds := s.collapsedIds[id := !IsCollapsed(s, id)])
  }

  /** `collapseAll`: exactly the non-root items that have children are collapsed. */
  function CollapseAll(s: Store): (r: Store)
    ensures forall k :: IsCollapsed(r, k) <==>
      k in s.maps.childrenMap && k != Root && |s.maps.childrenMap[k]| > 0
    ensures forall k | k in r.collapsedIds :: r.collapsedIds[k]
    ensures r.maps == s.maps && r.activeId == s.activeId
  {
    var cm := s.maps.childrenMap;
    s.(collapsedIds := map k | k in cm && k != Root && |cm[k]| > 0 :: true)
  }

  /** `expandAll`: nothing is collapsed. */
  function ExpandAll(s: Store): (r: Store)
    ensures forall k :: !IsCollapsed(r, k)
    ensures r.maps == s.maps && r.activeId == s.activeId
  {
    s.(collapsedIds := map[])
  }
}
