/**
 * The stress-test outline of lib/features/debug/index.ts: `buildLargeOutlineMaps`
 * lists `LARGE_NOTE_NODE_COUNT` text nodes directly under the root. The ids the loop
 * draws from `uuidV7()` are the parameter `ids`, one per iteration.
 */
module DebugSeed {
  import opened Wrappers
  import opened OutlineTree
  import Strings
  import Seqs

  const LargeNoteNodeCount := 10000

  /** Node `i` (counting from 1): a text node titled "节点 i". */
  function SeedNode(id: string, i: nat): (n: Node)
    ensures n.id == Some(id) && n.kind == Some("text")
    ensures |n.text| > 3 && n.text[..3] == "节点 "
    ensures forall k | 3 <= k < |n.text| :: Strings.IsDigit(n.text[k])
    ensures Strings.DecimalValue(n.text[3..]) == i
  {
    Strings.DecimalRoundTrip(i);
    var n := Node(Some(id), Some("text"), "节点 " + Strings.DecimalString(i));
    assert n.text[3..] == Strings.DecimalString(i);
    n
  }

  /**
   * The maps the loop builds from `ids`: every id is a node with its own id and type
   * "text" under the root, the root lists the ids in creation order, and when the ids
   * are distinct node `ids[i]` is number `i + 1`.
   */
  ghost predicate Seeded(m: Maps, ids: seq<string>) {
    && m.childrenMap == map[Root := ids]
    && (forall id :: id in m.parentMap <==> id in ids)
    && (forall id | id in m.parentMap :: m.parentMap[id] == Root)
    && (forall id :: id in m.dataMap <==> id in ids)
    && (forall id | id in m.dataMap :: m.dataMap[id].id == Some(id) && m.dataMap[id].kind == Some("text"))
    && (NoDup(ids) ==> forall i | 0 <= i < |ids| :: m.dataMap[ids[i]] == SeedNode(ids[i], i + 1))
  }

  /** `buildLargeOutlineMaps()`. */
  method BuildLargeOutlineMaps(ids: seq<string>) returns (m: Maps)
    requires |ids| == LargeNoteNodeCount
    ensures Seeded(m, ids)
  {
    var dataMap: map<string, Node> := map[];
    var parentMap: map<string, string> := map[];
    var rootChildren: seq<string> := [];
    var i := 1;
    while i <= LargeNoteNodeCount
      invariant 1 <= i <= LargeNoteNodeCount + 1
      invariant rootChildren == ids[..i - 1]
      invariant forall id :: id in parentMap <==> id in rootChildren
      invariant forall id | id in parentMap :: parentMap[id] == Root
      invariant forall id :: id in dataMap <==> id in rootChildren
      invariant forall id | id in dataMap :: dataMap[id].id == Some(id) && dataMap[id].kind == Some("text")
      invariant NoDup(ids) ==> forall k | 0 <= k < i - 1 :: dataMap[ids[k]] == SeedNode(ids[k], k + 1)
    {
      var id := ids[i - 1];
      ghost var before := dataMap;
      dataMap := dataMap[id := SeedNode(id, i)];
      parentMap := parentMap[id := Root];
      Seqs.PrefixSnoc(ids, i - 1);
      rootChildren := rootChildren + [id];
      if NoDup(ids) {
        forall k | 0 <= k < i
          ensures dataMap[ids[k]] == SeedNode(ids[k], k + 1)
        {
          if k < i - 1 {
            assert ids[k] != id && dataMap[ids[k]] == before[ids[k]];
          }
        }
      }
      i := i + 1;
    }
    assert rootChildren == ids;
    m := Maps(dataMap, parentMap, map[Root := rootChildren]);
  }

  /** With distinct ids other than the root's and "", the seeded outline is well formed. */
  lemma SeededIsTree(m: Maps, ids: seq<string>)
    requires Seeded(m, ids) && NoDup(ids) && Root !in ids && "" !in ids
    ensures Tree(m, map id | id in m.parentMap :: 0)
  {
    FlatIsTree(m, ids);
  }

  /** Distinct nodes listed directly under the root, and nowhere else, form a well-formed outline. */
  lemma FlatIsTree(m: Maps, ids: seq<string>)
    requires m.childrenMap == map[Root := ids]
    requires (forall id :: id in m.parentMap <==> id in ids) && (forall id | id in m.parentMap :: m.parentMap[id] == Root)
    requires NoDup(ids) && Root !in ids && "" !in ids
    ensures Tree(m, map id | id in m.parentMap :: 0)
  {
    var pm, cm := m.parentMap, m.childrenMap;
    var rank := map id | id in pm :: 0;
    forall p, c | p in cm && c in cm[p] ensures c in pm && pm[c] == p {
      assert p == Root;
    }
    forall c | c in pm ensures pm[c] in cm && c in cm[pm[c]] {
      assert pm[c] == Root;
    }
    assert Linked(pm, cm);
    forall c | c in pm ensures c in rank && pm[c] !in pm {
      assert pm[c] == Root;
    }
  }
}
