/**
 * The topic tree of src/knowledge_tree_widget.py. The widget's item model
 * is an arena: every item ever created has a handle (its index in `items`),
 * `rows` are the handles of the top-level rows in display order and
 * `childRows` maps a handle to the handles of its child rows. `load_tree`
 * creates item `k` for the `k`-th topic of the hierarchy it is given.
 */
module Tree {
  import opened Wrappers
  import DataManager

  type Id = DataManager.Id
  type Topic = DataManager.HierarchyEntry

  const PlaceholderText: string := "No topics yet. Add one!"

  /** A model item: its text, the topic id stored under the user role, and its flags. */
  datatype Item = Item(text: string, topicId: Option<Id>, editable: bool, enabled: bool)

  const Placeholder: Item := Item(PlaceholderText, None, false, false)

  /** The item the first pass of `load_tree` creates for a topic. */
  function TopicItem(t: Topic): Item {
    Item(t.title, Some(t.id), true, true)
  }

  predicate UniqueTopics(data: seq<Topic>) {
    forall i, j :: 0 <= i < j < |data| ==> data[i].id != data[j].id
  }

  predicate NonEmptyIds(data: seq<Topic>) {
    forall i :: 0 <= i < |data| ==> data[i].id != ""
  }

  /** Some loaded topic has id `p`. */
  predicate Loaded(data: seq<Topic>, p: Id) {
    exists k :: 0 <= k < |data| && data[k].id == p
  }

  predicate Increasing(s: seq<nat>) {
    forall i, j :: 0 <= i < j < |s| ==> s[i] < s[j]
  }

  predicate DistinctKeys(s: seq<Id>) {
    forall i, j :: 0 <= i < j < |s| ==> s[i] != s[j]
  }

  lemma {:induction false} IncreasingOnce(s: seq<nat>, k: nat)
    requires Increasing(s) && k in s
    ensures multiset(s)[k] == 1
    decreases |s|
  {
    var init, x := s[..|s| - 1], s[|s| - 1];
    assert s == init + [x];
    if x == k {
      assert forall i :: 0 <= i < |init| ==> init[i] < k;
      assert k !in init;
    } else {
      IncreasingOnce(init, k);
    }
  }

  /** The `items` dict of the first pass: each id maps to the last topic carrying it. */
  function ItemsMap(data: seq<Topic>): map<Id, nat>
    decreases |data|
  {
    if data == [] then map[]
    else ItemsMap(data[..|data| - 1])[data[|data| - 1].id := |data| - 1]
  }

  /** Every loaded id is a key, and each key maps to a topic carrying it. */
  lemma {:induction false} ItemsMapExact(data: seq<Topic>)
    ensures forall k :: 0 <= k < |data| ==> data[k].id in ItemsMap(data)
    ensures forall id :: id in ItemsMap(data) ==> ItemsMap(data)[id] < |data| && data[ItemsMap(data)[id]].id == id
    decreases |data|
  {
    if data != [] {
      var init := data[..|data| - 1];
      assert forall k :: 0 <= k < |init| ==> init[k] == data[k];
      ItemsMapExact(init);
    }
  }

  /** With unique ids the item of topic `k` is item `k`. */
  lemma ItemsMapUnique(data: seq<Topic>)
    requires UniqueTopics(data)
    ensures forall k :: 0 <= k < |data| ==> data[k].id in ItemsMap(data) && ItemsMap(data)[data[k].id] == k
  {
    var im := ItemsMap(data);
    ItemsMapExact(data);
    forall k | 0 <= k < |data| ensures im[data[k].id] == k {
      var j := im[data[k].id];
      assert data[j].id == data[k].id;
    }
  }

  /** The keys of `items` are exactly the loaded ids. */
  lemma ItemsMapKeys(data: seq<Topic>, p: Id)
    ensures p in ItemsMap(data) <==> Loaded(data, p)
  {
    ItemsMapExact(data);
    if p in ItemsMap(data) {
      assert data[ItemsMap(data)[p]].id == p;
    }
  }

  /** The `children_map` dict of the first pass: every truthy parent id to its children, in input order. */
  function ChildMap(data: seq<Topic>): map<Id, seq<nat>>
    decreases |data|
  {
    if data == [] then map[]
    else
      var m := ChildMap(data[..|data| - 1]);
      var t := data[|data| - 1];
      if Truthy(t.parentId) then
        var p := t.parentId.value;
        m[p := (if p in m then m[p] else []) + [|data| - 1]]
      else m
  }

  /** Topic `k` of `data` names `p` as its parent. */
  predicate NamesParent(data: seq<Topic>, k: int, p: Id) {
    0 <= k < |data| && data[k].parentId == Some(p)
  }

  /** Each child list holds exactly the topics naming that truthy parent, in input order. */
  lemma {:induction false} ChildMapExact(data: seq<Topic>)
    ensures forall k :: 0 <= k < |data| && Truthy(data[k].parentId) ==>
              data[k].parentId.value in ChildMap(data) && k in ChildMap(data)[data[k].parentId.value]
    ensures forall p :: p in ChildMap(data) ==> p != "" && ChildMap(data)[p] != [] && Increasing(ChildMap(data)[p])
    ensures forall p, k :: p in ChildMap(data) && k in ChildMap(data)[p] ==> NamesParent(data, k, p)
    decreases |data|
  {
    if data != [] {
      var init, t, n := data[..|data| - 1], data[|data| - 1], |data| - 1;
      assert forall k :: 0 <= k < |init| ==> init[k] == data[k];
      ChildMapExact(init);
      var m := ChildMap(init);
      if Truthy(t.parentId) {
        var p := t.parentId.value;
        var before := if p in m then m[p] else [];
        forall i | 0 <= i < |before| ensures before[i] < n {
          assert before[i] in m[p];
        }
        assert Increasing(before + [n]);
        var r := ChildMap(data);
        assert r == m[p := before + [n]];
        forall q, k | q in r && k in r[q] ensures NamesParent(data, k, q) {
          if q == p && k !in before { assert k == n; }
        }
        forall k | 0 <= k < |data| && Truthy(data[k].parentId)
          ensures data[k].parentId.value in r && k in r[data[k].parentId.value]
        {
          if k < n && data[k].parentId.value == p { assert k in before; }
        }
      }
    }
  }

  /** The keys of `children_map` in insertion order. */
  function ParentKeys(data: seq<Topic>): seq<Id>
    decreases |data|
  {
    if data == [] then []
    else
      var ks := ParentKeys(data[..|data| - 1]);
      var t := data[|data| - 1];
      if Truthy(t.parentId) && t.parentId.value !in ChildMap(data[..|data| - 1]) then ks + [t.parentId.value] else ks
  }

  /** Each key of `children_map` is listed once. */
  lemma {:induction false} ParentKeysExact(data: seq<Topic>)
    ensures DistinctKeys(ParentKeys(data))
    ensures forall p :: p in ParentKeys(data) ==> p in ChildMap(data)
    ensures forall p :: p in ChildMap(data) ==> p in ParentKeys(data)
    decreases |data|
  {
    if data != [] {
      ParentKeysExact(data[..|data| - 1]);
    }
  }

  /** A topic of the second pass becomes a root: no parent, or a parent that is not loaded. */
  predicate RootIn(t: Topic, im: map<Id, nat>) {
    t.parentId.None? || t.parentId.value !in im
  }

  /** The `root_items` list of the second pass over `data`. */
  function RootItems(data: seq<Topic>, im: map<Id, nat>): seq<nat>
    requires forall k :: 0 <= k < |data| ==> data[k].id in im
    decreases |data|
  {
    if data == [] then []
    else
      var t := data[|data| - 1];
      RootItems(data[..|data| - 1], im) + (if RootIn(t, im) then [im[t.id]] else [])
  }

  /** With item `k` for topic `k`, the roots are exactly the root topics, in input order. */
  lemma {:induction false} RootItemsExact(data: seq<Topic>, im: map<Id, nat>)
    requires forall k :: 0 <= k < |data| ==> data[k].id in im && im[data[k].id] == k
    ensures forall k :: k in RootItems(data, im) ==> k < |data| && RootIn(data[k], im)
    ensures forall k :: 0 <= k < |data| && RootIn(data[k], im) ==> k in RootItems(data, im)
    ensures Increasing(RootItems(data, im))
    decreases |data|
  {
    if data != [] {
      var init, t := data[..|data| - 1], data[|data| - 1];
      assert forall k :: 0 <= k < |init| ==> init[k] == data[k];
      RootItemsExact(init, im);
      var r := RootItems(init, im);
      var full := RootItems(data, im);
      assert im[t.id] == |init|;
      assert full == r + (if RootIn(t, im) then [|init|] else []);
      forall k | k in full ensures k < |data| && RootIn(data[k], im) {
        if k in r { assert init[k] == data[k]; }
      }
      forall k | 0 <= k < |data| && RootIn(data[k], im) ensures k in full {
        if k < |init| { assert init[k] == data[k]; assert k in r; }
      }
      if RootIn(t, im) {
        IncreasingAppend(r, |init|);
      }
    }
  }

  lemma IncreasingAppend(s: seq<nat>, x: nat)
    requires Increasing(s) && forall k :: k in s ==> k < x
    ensures Increasing(s + [x])
  {
    forall i, j | 0 <= i < j < |s + [x]| ensures (s + [x])[i] < (s + [x])[j] {
      assert s[i] in s;
      if j < |s| { assert (s + [x])[j] == s[j]; }
    }
  }

  function ChildrenIn(m: map<nat, seq<nat>>, j: nat): seq<nat> {
    if j in m then m[j] else []
  }

  /** The third pass: each loaded parent's item receives its children, key by key. */
  function AttachChildren(keys: seq<Id>, cm: map<Id, seq<nat>>, im: map<Id, nat>): map<nat, seq<nat>>
    requires forall p :: p in keys ==> p in cm
    decreases |keys|
  {
    if keys == [] then map[]
    else
      var m := AttachChildren(keys[..|keys| - 1], cm, im);
      var p := keys[|keys| - 1];
      if p in im then m[im[p] := ChildrenIn(m, im[p]) + cm[p]] else m
  }

  /** With distinct keys and distinct items per key, each loaded parent ends with its own list and nothing else has children. */
  lemma {:induction false} AttachChildrenExact(keys: seq<Id>, cm: map<Id, seq<nat>>, im: map<Id, nat>)
    requires forall p :: p in keys ==> p in cm
    requires DistinctKeys(keys)
    requires forall p, q :: p in im && q in im && im[p] == im[q] ==> p == q
    ensures forall p :: p in keys && p in im ==> im[p] in AttachChildren(keys, cm, im) && AttachChildren(keys, cm, im)[im[p]] == cm[p]
    ensures forall j :: j in AttachChildren(keys, cm, im) ==> exists p :: p in keys && p in im && im[p] == j
    decreases |keys|
  {
    if keys != [] {
      var init, p := keys[..|keys| - 1], keys[|keys| - 1];
      assert forall q :: q in init ==> q in keys;
      AttachChildrenExact(init, cm, im);
      var m := AttachChildren(init, cm, im);
      if p in im {
        assert p !in init;
        forall q | q in init && q in im ensures im[q] != im[p] {
        }
        assert im[p] !in m;
        forall j | j in AttachChildren(keys, cm, im) ensures exists q :: q in keys && q in im && im[q] == j {
          if j != im[p] {
            var q :| q in init && q in im && im[q] == j;
            assert q in keys;
          }
        }
      }
      forall j | j in m ensures exists q :: q in keys && q in im && im[q] == j {
        var q :| q in init && q in im && im[q] == j;
        assert q in keys;
      }
    }
  }

  /** The forest `load_tree` builds from `data`, as its three passes compute it. */
  function LoadedRoots(data: seq<Topic>): seq<nat> {
    ItemsMapExact(data);
    RootItems(data, ItemsMap(data))
  }

  function LoadedChildren(data: seq<Topic>): map<nat, seq<nat>> {
    ParentKeysExact(data);
    AttachChildren(ParentKeys(data), ChildMap(data), ItemsMap(data))
  }

  /** Every parent item and every child item of `m` is below `n`. */
  predicate ChildRowsBounded(m: map<nat, seq<nat>>, n: nat) {
    forall j :: j in m ==> j < n && forall c :: c in m[j] ==> c < n
  }

  /** Attaching lists of items below `n` under items below `n` names only items below `n`. */
  lemma {:induction false} AttachChildrenBounded(keys: seq<Id>, cm: map<Id, seq<nat>>, im: map<Id, nat>, n: nat)
    requires forall p :: p in keys ==> p in cm
    requires forall p, c :: p in cm && c in cm[p] ==> c < n
    requires forall id :: id in im ==> im[id] < n
    ensures ChildRowsBounded(AttachChildren(keys, cm, im), n)
    decreases |keys|
  {
    if keys != [] {
      AttachChildrenBounded(keys[..|keys| - 1], cm, im, n);
    }
  }

  /** The loaded children name only loaded items. */
  lemma LoadedChildrenBounded(data: seq<Topic>)
    ensures ChildRowsBounded(LoadedChildren(data), |data|)
  {
    ParentKeysExact(data);
    ChildMapExact(data);
    LoadPrerequisites(data);
    AttachChildrenBounded(ParentKeys(data), ChildMap(data), ItemsMap(data), |data|);
  }

  /**
   * With distinct, non-empty ids, every topic is placed exactly once: a
   * topic without a loaded parent is one root row and nobody's child; any
   * other topic is no root and appears once among the children of its
   * parent's item and of no other item. Roots and every sibling list keep
   * input order.
   */
  lemma LoadTreePlacement(data: seq<Topic>)
    requires UniqueTopics(data) && NonEmptyIds(data)
    ensures Increasing(LoadedRoots(data))
    ensures forall j :: j in LoadedChildren(data) ==> Increasing(LoadedChildren(data)[j])
    ensures forall k :: 0 <= k < |data| && (data[k].parentId.None? || !Loaded(data, data[k].parentId.value)) ==>
              && multiset(LoadedRoots(data))[k] == 1
              && forall j :: j in LoadedChildren(data) ==> k !in LoadedChildren(data)[j]
    ensures forall k :: 0 <= k < |data| && data[k].parentId.Some? && Loaded(data, data[k].parentId.value) ==>
              && k !in LoadedRoots(data)
              && data[k].parentId.value in ItemsMap(data)
              && ItemsMap(data)[data[k].parentId.value] in LoadedChildren(data)
              && multiset(LoadedChildren(data)[ItemsMap(data)[data[k].parentId.value]])[k] == 1
              && forall j :: j in LoadedChildren(data) && k in LoadedChildren(data)[j] ==> j == ItemsMap(data)[data[k].parentId.value]
  {
    LoadedOrder(data);
    forall k: nat | k < |data| && (data[k].parentId.None? || !Loaded(data, data[k].parentId.value))
      ensures && multiset(LoadedRoots(data))[k] == 1
              && forall j :: j in LoadedChildren(data) ==> k !in LoadedChildren(data)[j]
    {
      RootPlacement(data, k);
    }
    forall k: nat | k < |data| && data[k].parentId.Some? && Loaded(data, data[k].parentId.value)
      ensures && k !in LoadedRoots(data)
              && data[k].parentId.value in ItemsMap(data)
              && ItemsMap(data)[data[k].parentId.value] in LoadedChildren(data)
              && multiset(LoadedChildren(data)[ItemsMap(data)[data[k].parentId.value]])[k] == 1
              && forall j :: j in LoadedChildren(data) && k in LoadedChildren(data)[j] ==> j == ItemsMap(data)[data[k].parentId.value]
    {
      ChildPlacement(data, k);
    }
  }

  /** The facts about the three passes that the placement lemmas share. */
  lemma LoadedFacts(data: seq<Topic>)
    requires UniqueTopics(data)
    ensures forall k :: 0 <= k < |data| ==> data[k].id in ItemsMap(data) && ItemsMap(data)[data[k].id] == k
    ensures forall p, q :: p in ItemsMap(data) && q in ItemsMap(data) && ItemsMap(data)[p] == ItemsMap(data)[q] ==> p == q
    ensures forall j :: j in LoadedChildren(data) ==>
              exists p :: p in ParentKeys(data) && p in ItemsMap(data) && ItemsMap(data)[p] == j
                          && p in ChildMap(data) && LoadedChildren(data)[j] == ChildMap(data)[p]
    ensures forall p :: p in ParentKeys(data) && p in ItemsMap(data) ==>
              ItemsMap(data)[p] in LoadedChildren(data) && LoadedChildren(data)[ItemsMap(data)[p]] == ChildMap(data)[p]
  {
    var im, cm, keys := ItemsMap(data), ChildMap(data), ParentKeys(data);
    ItemsMapExact(data);
    ItemsMapUnique(data);
    ParentKeysExact(data);
    AttachChildrenExact(keys, cm, im);
    var ch := LoadedChildren(data);
    forall j | j in ch
      ensures exists p :: p in keys && p in im && im[p] == j && p in cm && ch[j] == cm[p]
    {
      var p :| p in keys && p in im && im[p] == j;
      assert ch[j] == cm[p];
    }
  }

  lemma LoadedOrder(data: seq<Topic>)
    requires UniqueTopics(data)
    ensures Increasing(LoadedRoots(data))
    ensures forall j :: j in LoadedChildren(data) ==> Increasing(LoadedChildren(data)[j])
  {
    LoadedFacts(data);
    ChildMapExact(data);
    RootItemsExact(data, ItemsMap(data));
    forall j | j in LoadedChildren(data) ensures Increasing(LoadedChildren(data)[j]) {
      var p :| p in ParentKeys(data) && p in ItemsMap(data) && ItemsMap(data)[p] == j
               && p in ChildMap(data) && LoadedChildren(data)[j] == ChildMap(data)[p];
    }
  }

  lemma RootPlacement(data: seq<Topic>, k: nat)
    requires UniqueTopics(data) && NonEmptyIds(data) && k < |data|
    requires data[k].parentId.None? || !Loaded(data, data[k].parentId.value)
    ensures multiset(LoadedRoots(data))[k] == 1
    ensures forall j :: j in LoadedChildren(data) ==> k !in LoadedChildren(data)[j]
  {
    var im := ItemsMap(data);
    LoadedFacts(data);
    if data[k].parentId.Some? { ItemsMapKeys(data, data[k].parentId.value); }
    assert RootIn(data[k], im);
    RootItemsExact(data, im);
    IncreasingOnce(LoadedRoots(data), k);
    ChildMapExact(data);
    forall j | j in LoadedChildren(data) ensures k !in LoadedChildren(data)[j] {
      var p :| p in ParentKeys(data) && p in im && im[p] == j
               && p in ChildMap(data) && LoadedChildren(data)[j] == ChildMap(data)[p];
      assert k in ChildMap(data)[p] ==> NamesParent(data, k, p);
    }
  }

  lemma ChildPlacement(data: seq<Topic>, k: nat)
    requires UniqueTopics(data) && NonEmptyIds(data) && k < |data|
    requires data[k].parentId.Some? && Loaded(data, data[k].parentId.value)
    ensures k !in LoadedRoots(data)
    ensures data[k].parentId.value in ItemsMap(data)
    ensures ItemsMap(data)[data[k].parentId.value] in LoadedChildren(data)
    ensures multiset(LoadedChildren(data)[ItemsMap(data)[data[k].parentId.value]])[k] == 1
    ensures forall j :: j in LoadedChildren(data) && k in LoadedChildren(data)[j] ==> j == ItemsMap(data)[data[k].parentId.value]
  {
    var im, p := ItemsMap(data), data[k].parentId.value;
    LoadedFacts(data);
    ItemsMapKeys(data, p);
    assert !RootIn(data[k], im);
    RootItemsExact(data, im);
    ChildMapExact(data);
    assert p == data[im[p]].id;
    assert Truthy(data[k].parentId);
    ParentKeysExact(data);
    var ch := LoadedChildren(data);
    assert ch[im[p]] == ChildMap(data)[p];
    IncreasingOnce(ch[im[p]], k);
    forall j | j in ch && k in ch[j] ensures j == im[p] {
      var q :| q in ParentKeys(data) && q in im && im[q] == j && q in ChildMap(data) && ch[j] == ChildMap(data)[q];
      assert NamesParent(data, k, q);
    }
  }

  /** What the passes of `load_tree` rely on: every key is in `children_map` with a list, every id is mapped in range. */
  lemma LoadPrerequisites(data: seq<Topic>)
    ensures forall p :: p in ParentKeys(data) ==> p in ChildMap(data) && ChildMap(data)[p] != []
    ensures forall k :: 0 <= k < |data| ==> data[k].id in ItemsMap(data)
    ensures forall id :: id in ItemsMap(data) ==> ItemsMap(data)[id] < |data|
  {
    ChildMapExact(data);
    ParentKeysExact(data);
    ItemsMapExact(data);
  }

  lemma LoadedRootsBounded(data: seq<Topic>)
    ensures forall i :: 0 <= i < |LoadedRoots(data)| ==> LoadedRoots(data)[i] < |data|
  {
    var im := ItemsMap(data);
    ItemsMapExact(data);
    RootItemsInRange(data, im, |data|);
  }

  lemma {:induction false} RootItemsInRange(data: seq<Topic>, im: map<Id, nat>, n: nat)
    requires forall k :: 0 <= k < |data| ==> data[k].id in im
    requires forall id :: id in im ==> im[id] < n
    ensures forall i :: 0 <= i < |RootItems(data, im)| ==> RootItems(data, im)[i] < n
    decreases |data|
  {
    if data != [] {
      var init := data[..|data| - 1];
      assert forall k :: 0 <= k < |init| ==> init[k] == data[k];
      RootItemsInRange(init, im, n);
    }
  }

  /** The second pass of `load_tree`: the root items, in input order. */
  method CollectRoots(data: seq<Topic>, itemsById: map<Id, nat>) returns (rootItems: seq<nat>)
    requires forall k :: 0 <= k < |data| ==> data[k].id in itemsById
    ensures rootItems == RootItems(data, itemsById)
  {
    rootItems := [];
    var k := 0;
    while k < |data|
      invariant 0 <= k <= |data|
      invariant rootItems == RootItems(data[..k], itemsById)
    {
      var t := data[k];
      assert data[..k + 1][..k] == data[..k] && data[..k + 1][k] == t;
      var item := itemsById[t.id];
      if t.parentId.None? {
        rootItems := rootItems + [item];
      } else if t.parentId.value in itemsById {
      } else {
        rootItems := rootItems + [item];
      }
      k := k + 1;
    }
    assert data[..|data|] == data;
  }

  class KnowledgeTree {
    /** Every item created since the last clear, by handle. */
    var items: seq<Item>
    /** The top-level rows, in display order. */
    var rows: seq<nat>
    /** The child rows of each item that has any. */
    var childRows: map<nat, seq<nat>>
    /** `_topic_item_map`. */
    var topicItemMap: map<Id, nat>
    /** The item of the current index, if any. */
    var current: Option<nat>

    /** Row, child and map entries name existing items. */
    predicate Valid()
      reads this
    {
      && (forall i :: 0 <= i < |rows| ==> rows[i] < |items|)
      && ChildRowsBounded(childRows, |items|)
      && (forall id :: id in topicItemMap ==> topicItemMap[id] < |items|)
    }

    /** `__init__`: an empty tree, which `load_tree` then fills. */
    constructor ()
      ensures Valid()
      ensures items == [] && rows == [] && childRows == map[] && topicItemMap == map[] && current == None
    {
      items, rows, childRows, topicItemMap, current := [], [], map[], map[], None;
    }

    /**
     * `load_tree`, given the rows `get_topic_hierarchy` returned: the tree
     * is cleared, item `k` is created for topic `k`, and the rows and
     * children are those of the three passes; empty input leaves one
     * disabled placeholder row.
     */
    method LoadTree(data: seq<Topic>)
      modifies this
      ensures Valid()
      ensures data != [] ==> && |items| == |data|
                             && (forall k :: 0 <= k < |data| ==> items[k] == TopicItem(data[k]))
                             && rows == LoadedRoots(data)
      ensures data == [] ==> items == [Placeholder] && rows == [0]
      ensures childRows == LoadedChildren(data)
      ensures topicItemMap == ItemsMap(data)
      ensures current == None
    {
      items, rows, childRows, topicItemMap, current := [], [], map[], map[], None;
      var itemsById, childrenMap, parentKeys := CreateItems(data);
      LoadPrerequisites(data);
      var rootItems := CollectRoots(data, itemsById);
      AttachAll(parentKeys, childrenMap, itemsById);
      AddRootRows(rootItems);
      assert rows == LoadedRoots(data);
      LoadedRootsBounded(data);
      LoadedChildrenBounded(data);
      if data == [] {
        items := items + [Placeholder];
        rows := rows + [|items| - 1];
      }
    }

    /** The last loop of `load_tree`: each root item is appended to the model as a top-level row, in order. */
    method AddRootRows(rootItems: seq<nat>)
      requires rows == []
      modifies this`rows
      ensures rows == rootItems
    {
      var i := 0;
      while i < |rootItems|
        invariant 0 <= i <= |rootItems|
        invariant rows == rootItems[..i]
      {
        assert rootItems[..i + 1] == rootItems[..i] + [rootItems[i]];
        rows := rows + [rootItems[i]];
        i := i + 1;
      }
    }

    /** The first pass of `load_tree`: one item per topic, and the `items` and `children_map` dicts. */
    method CreateItems(data: seq<Topic>) returns (itemsById: map<Id, nat>, childrenMap: map<Id, seq<nat>>, parentKeys: seq<Id>)
      requires items == [] && topicItemMap == map[]
      modifies this`items, this`topicItemMap
      ensures |items| == |data| && forall j :: 0 <= j < |data| ==> items[j] == TopicItem(data[j])
      ensures itemsById == ItemsMap(data) && topicItemMap == itemsById
      ensures childrenMap == ChildMap(data) && parentKeys == ParentKeys(data)
    {
      itemsById, childrenMap, parentKeys := map[], map[], [];
      var k := 0;
      while k < |data|
        invariant 0 <= k <= |data|
        invariant |items| == k && forall j :: 0 <= j < k ==> items[j] == TopicItem(data[j])
        invariant itemsById == ItemsMap(data[..k]) && topicItemMap == itemsById
        invariant childrenMap == ChildMap(data[..k]) && parentKeys == ParentKeys(data[..k])
      {
        var t := data[k];
        assert data[..k + 1][..k] == data[..k] && data[..k + 1][k] == t;
        items := items + [TopicItem(t)];
        itemsById := itemsById[t.id := k];
        topicItemMap := topicItemMap[t.id := k];
        if Truthy(t.parentId) {
          var p := t.parentId.value;
          if p !in childrenMap {
            childrenMap := childrenMap[p := []];
            parentKeys := parentKeys + [p];
          }
          childrenMap := childrenMap[p := childrenMap[p] + [k]];
        }
        k := k + 1;
      }
      assert data[..|data|] == data;
    }

    /** The third pass of `load_tree`: every loaded parent's item receives its children. */
    method AttachAll(parentKeys: seq<Id>, childrenMap: map<Id, seq<nat>>, itemsById: map<Id, nat>)
      requires forall p :: p in parentKeys ==> p in childrenMap && childrenMap[p] != []
      requires childRows == map[]
      modifies this`childRows
      ensures childRows == AttachChildren(parentKeys, childrenMap, itemsById)
    {
      var i := 0;
      while i < |parentKeys|
        invariant 0 <= i <= |parentKeys|
        invariant childRows == AttachChildren(parentKeys[..i], childrenMap, itemsById)
      {
        var p := parentKeys[i];
        assert parentKeys[..i + 1][..i] == parentKeys[..i] && parentKeys[..i + 1][i] == p;
        if p in itemsById {
          AppendChildren(itemsById[p], childrenMap[p]);
        }
        i := i + 1;
      }
      assert parentKeys[..|parentKeys|] == parentKeys;
    }

    /** The inner loop of the third pass: `list` is appended, in order, to the children of `parentItem`. */
    method AppendChildren(parentItem: nat, list: seq<nat>)
      modifies this`childRows
      ensures list != [] ==> childRows == old(childRows)[parentItem := ChildrenIn(old(childRows), parentItem) + list]
      ensures list == [] ==> childRows == old(childRows)
    {
      var j := 0;
      while j < |list|
        invariant 0 <= j <= |list|
        invariant j == 0 ==> childRows == old(childRows)
        invariant j > 0 ==> childRows == old(childRows)[parentItem := ChildrenIn(old(childRows), parentItem) + list[..j]]
      {
        ghost var before := ChildrenIn(old(childRows), parentItem);
        assert list[..j + 1] == list[..j] + [list[j]];
        assert ChildrenIn(childRows, parentItem) == before + list[..j];
        childRows := childRows[parentItem := ChildrenIn(childRows, parentItem) + [list[j]]];
        assert (before + list[..j]) + [list[j]] == before + list[..j + 1];
        j := j + 1;
      }
      assert list[..|list|] == list;
    }

    /**
     * `add_topic_item`: a first row whose text is the placeholder's is
     * removed; the new item is mapped, attached under its parent's item
     * when the parent id is truthy and mapped (the new item included), else
     * appended as a root, and becomes the current item.
     */
    method AddTopicItem(title: string, topicId: Id, parentId: Option<Id>) returns (item: nat)
      requires Valid()
      modifies this
      ensures Valid()
      ensures item == |old(items)| && items == old(items) + [Item(title, Some(topicId), true, true)]
      ensures topicItemMap == old(topicItemMap)[topicId := item]
      ensures current == Some(item)
      ensures var kept := if |old(rows)| > 0 && old(items)[old(rows)[0]].text == PlaceholderText
                          then old(rows)[1..] else old(rows);
              if Truthy(parentId) && parentId.value in topicItemMap then
                var parentItem := topicItemMap[parentId.value];
                rows == kept && childRows == old(childRows)[parentItem := ChildrenIn(old(childRows), parentItem) + [item]]
              else
                rows == kept + [item] && childRows == old(childRows)
    {
      if |rows| > 0 {
        var firstItemText := items[rows[0]].text;
        if firstItemText == PlaceholderText {
          rows := rows[1..];
        }
      }
      item := |items|;
      items := items + [Item(title, Some(topicId), true, true)];
      topicItemMap := topicItemMap[topicId := item];
      if Truthy(parentId) && parentId.value in topicItemMap {
        var parentItem := topicItemMap[parentId.value];
        childRows := childRows[parentItem := ChildrenIn(childRows, parentItem) + [item]];
      } else {
        rows := rows + [item];
      }
      current := Some(item);
    }

    /** `update_topic_item_title`: only the mapped item's text changes; an unknown id changes nothing. */
    method UpdateTopicItemTitle(topicId: Id, newTitle: string)
      requires Valid()
      modifies this
      ensures Valid()
      ensures rows == old(rows) && childRows == old(childRows) && topicItemMap == old(topicItemMap) && current == old(current)
      ensures topicId in topicItemMap ==>
                items == old(items)[topicItemMap[topicId] := old(items)[topicItemMap[topicId]].(text := newTitle)]
      ensures topicId !in topicItemMap ==> items == old(items)
    {
      if topicId in topicItemMap {
        var item := topicItemMap[topicId];
        items := items[item := items[item].(text := newTitle)];
      }
    }
  }
}
