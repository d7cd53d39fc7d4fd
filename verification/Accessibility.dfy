/** The parent map of a surface's accessibility nodes, updated node by node and in atomic batches. */
module Accessibility {
  import opened Forest
  import opened Options

  const INT_MAX := 0x7fff_ffff

  /** `fieldsValid` stands for the checks on role, states, actions, text ranges, bounds and numeric range
      that read nothing but the node itself. */
  datatype Node = Node(id: nat, parent: nat, fieldsValid: bool)

  datatype Result = Ok | InvalidArgument | BackendFailed

  /** A batch: subtrees to remove, nodes to place, and optionally the node to focus (0 for none). */
  datatype Update = Update(removed: seq<nat>, nodes: seq<Node>, setsFocus: bool, focus: nat)

  /** The counts and the focus fit the integers they are handed on as. */
  predicate Fits(update: Update) {
    update.focus <= INT_MAX && |update.nodes| <= INT_MAX / 10 && |update.removed| <= INT_MAX
  }

  // ----- what an update means -----

  ghost function RemoveAll(m: Parents, removed: seq<nat>): Option<Parents> {
    if removed == [] then Some(m)
    else if removed[0] == 0 || removed[0] !in m then None
    else RemoveAll(m - Subtree(m, removed[0]), removed[1..])
  }

  ghost predicate Placeable(m: Parents, node: Node) {
    && node.fieldsValid && node.id != 0 && node.id <= INT_MAX && node.parent <= INT_MAX
    && node.id != node.parent
    && (node.parent == 0 || node.parent in m)
    && !Above(m, node.id, node.parent)
  }

  ghost function PlaceAll(m: Parents, nodes: seq<Node>): Option<Parents>
    decreases nodes
  {
    if nodes == [] then Some(m)
    else if !Placeable(m, nodes[0]) then None
    else PlaceAll(m[nodes[0].id := nodes[0].parent], nodes[1..])
  }

  /** The map after a batch, or `None` when the batch is refused. */
  ghost function Updated(m: Parents, update: Update): Option<Parents> {
    match RemoveAll(m, update.removed)
    case None => None
    case Some(remaining) =>
      match PlaceAll(remaining, update.nodes)
      case None => None
      case Some(placed) =>
        if update.setsFocus && update.focus != 0 && update.focus !in placed then None else Some(placed)
  }

  lemma {:induction false} RemoveAllIsForest(m: Parents, removed: seq<nat>)
    requires IsForest(m)
    ensures RemoveAll(m, removed).Some? ==> IsForest(RemoveAll(m, removed).value)
  {
    hide IsForest;
    if removed != [] && removed[0] in m {
      RemovedIsForest(m, removed[0]);
      RemoveAllIsForest(m - Subtree(m, removed[0]), removed[1..]);
    }
  }

  lemma {:induction false} PlaceAllIsForest(m: Parents, nodes: seq<Node>)
    requires IsForest(m)
    ensures PlaceAll(m, nodes).Some? ==> IsForest(PlaceAll(m, nodes).value)
    decreases nodes
  {
    hide IsForest;
    if nodes != [] && Placeable(m, nodes[0]) {
      PlacedIsForest(m, nodes[0].id, nodes[0].parent);
      PlaceAllIsForest(m[nodes[0].id := nodes[0].parent], nodes[1..]);
    }
  }

  /** An accepted batch leaves a closed forest without cycles. */
  lemma UpdatedIsForest(m: Parents, update: Update)
    requires IsForest(m)
    ensures Updated(m, update).Some? ==> IsForest(Updated(m, update).value)
  {
    hide IsForest;
    RemoveAllIsForest(m, update.removed);
    if RemoveAll(m, update.removed).Some? {
      PlaceAllIsForest(RemoveAll(m, update.removed).value, update.nodes);
    }
  }

  /** The nodes in or below any of the listed ones, in the map before the batch. */
  ghost function Subtrees(m: Parents, tops: seq<nat>): set<nat> {
    set n | n in m && exists i :: 0 <= i < |tops| && Above(m, tops[i], n)
  }

  /** Removing one subtree does not change what is below the nodes that stay. */
  lemma AboveSurvives(m: Parents, top: nat, a: nat, n: nat)
    requires IsForest(m) && a != 0 && n in m && n !in Subtree(m, top)
    ensures Above(m - Subtree(m, top), a, n) <==> Above(m, a, n)
  {
    hide IsForest;
    var gone := Subtree(m, top);
    SubtreeIsClosed(m, top);
    if Above(m, a, n) {
      var k: nat :| Up(m, n, k) == a;
      WalkSurvives(m, gone, n, k);
    }
    if Above(m - gone, a, n) {
      var k: nat :| Up(m - gone, n, k) == a;
      WalkSurvives(m, gone, n, k);
    }
  }

  /** Removals take out exactly the listed nodes' subtrees, whatever their order and overlap. */
  lemma {:induction false} RemoveAllTakesSubtrees(m: Parents, removed: seq<nat>)
    requires IsForest(m) && RemoveAll(m, removed).Some?
    ensures RemoveAll(m, removed).value == m - Subtrees(m, removed)
  {
    hide IsForest;
    if removed == [] {
      assert Subtrees(m, removed) == {};
    } else {
      var top, rest := removed[0], removed[1..];
      var gone := Subtree(m, top);
      var m' := m - gone;
      RemovedIsForest(m, top);
      RemoveAllTakesSubtrees(m', rest);
      forall n | n in m
        ensures n in Subtrees(m, removed) <==> n in gone || n in Subtrees(m', rest)
      {
        SplitAbove(m, removed, n);
        if n !in gone {
          AllRemovedAreNodes(m', rest);
          forall i | 0 <= i < |rest| ensures Above(m', rest[i], n) <==> Above(m, rest[i], n) {
            AboveSurvives(m, top, rest[i], n);
          }
        }
      }
      assert m' - Subtrees(m', rest) == m - Subtrees(m, removed);
    }
  }

  lemma SplitAbove(m: Parents, removed: seq<nat>, n: nat)
    requires removed != []
    ensures (exists i :: 0 <= i < |removed| && Above(m, removed[i], n))
       <==> Above(m, removed[0], n) || exists i :: 0 <= i < |removed[1..]| && Above(m, removed[1..][i], n)
  {
    if i :| 0 <= i < |removed| && Above(m, removed[i], n) {
      if i > 0 {
        assert removed[1..][i - 1] == removed[i];
      }
    }
    if i :| 0 <= i < |removed[1..]| && Above(m, removed[1..][i], n) {
      assert removed[i + 1] == removed[1..][i];
    }
  }

  lemma {:induction false} AllRemovedAreNodes(m: Parents, removed: seq<nat>)
    requires RemoveAll(m, removed).Some?
    ensures forall i :: 0 <= i < |removed| ==> removed[i] != 0
  {
    if removed != [] {
      AllRemovedAreNodes(m - Subtree(m, removed[0]), removed[1..]);
      forall i | 0 <= i < |removed| ensures removed[i] != 0 {
        if i > 0 {
          assert removed[i] == removed[1..][i - 1];
        }
      }
    }
  }

  ghost predicate Places(nodes: seq<Node>, id: nat) {
    exists i :: 0 <= i < |nodes| && nodes[i].id == id
  }

  lemma {:induction false} PlaceAllAddsNodes(m: Parents, nodes: seq<Node>)
    requires PlaceAll(m, nodes).Some?
    ensures var r := PlaceAll(m, nodes).value;
            && (forall n :: n in r <==> n in m || Places(nodes, n))
            && (forall n :: n in m && !Places(nodes, n) ==> n in r && r[n] == m[n])
            && (forall i :: 0 <= i < |nodes| && !Places(nodes[i + 1..], nodes[i].id) ==>
                  nodes[i].id in r && r[nodes[i].id] == nodes[i].parent)
    decreases nodes
  {
    if nodes != [] {
      var first, rest := nodes[0], nodes[1..];
      var m' := m[first.id := first.parent];
      PlaceAllAddsNodes(m', rest);
      forall n ensures Places(nodes, n) <==> n == first.id || Places(rest, n) {
        if i :| 0 <= i < |nodes| && nodes[i].id == n {
          if i > 0 { assert rest[i - 1] == nodes[i]; }
        }
        if i :| 0 <= i < |rest| && rest[i].id == n {
          assert nodes[i + 1] == rest[i];
        }
      }
      var r := PlaceAll(m, nodes).value;
      forall i | 0 <= i < |nodes| && !Places(nodes[i + 1..], nodes[i].id)
        ensures nodes[i].id in r && r[nodes[i].id] == nodes[i].parent
      {
        if i > 0 {
          assert rest[i - 1] == nodes[i] && rest[i..] == nodes[i + 1..];
        } else {
          assert nodes[1..] == rest;
        }
      }
    }
  }

  /** An accepted batch removes exactly the subtrees it lists and then places its nodes, the last mention
      of a node deciding its parent; every other node keeps its parent. */
  lemma UpdatedIsExact(m: Parents, update: Update)
    requires IsForest(m) && Updated(m, update).Some?
    ensures var r := Updated(m, update).value;
            && (forall n :: n in r <==> (n in m && n !in Subtrees(m, update.removed)) || Places(update.nodes, n))
            && (forall n :: n in r && !Places(update.nodes, n) ==> n in m && r[n] == m[n])
            && (forall i :: 0 <= i < |update.nodes| && !Places(update.nodes[i + 1..], update.nodes[i].id) ==>
                  update.nodes[i].id in r && r[update.nodes[i].id] == update.nodes[i].parent)
  {
    hide IsForest;
    RemoveAllTakesSubtrees(m, update.removed);
    PlaceAllAddsNodes(m - Subtrees(m, update.removed), update.nodes);
  }

  /** A node may be placed exactly if its own fields are in order, its parent exists and the result is a forest. */
  lemma PlaceableExactly(m: Parents, node: Node)
    requires IsForest(m)
    ensures Placeable(m, node) <==>
            && node.fieldsValid && 0 < node.id <= INT_MAX && node.parent <= INT_MAX
            && (node.parent == 0 || node.parent in m)
            && IsForest(m[node.id := node.parent])
  {
    if 0 < node.id && (node.parent == 0 || node.parent in m) {
      if Above(m, node.id, node.parent) {
        var k: nat :| Up(m, node.parent, k) == node.id;
        UpFromRoot(m, k);
        PlacedAboveIsNoForest(m, node.id, node.parent);
      } else {
        assert Up(m, node.parent, 0) == node.parent;
        PlacedIsForest(m, node.id, node.parent);
      }
    }
  }

  // ----- which updates are accepted -----

  /** Every node to remove is there, and not already gone with one listed before it. */
  ghost predicate RemovalsOk(m: Parents, removed: seq<nat>) {
    forall i :: 0 <= i < |removed| ==>
      && removed[i] != 0 && removed[i] in m
      && forall j :: 0 <= j < i ==> !Above(m, removed[j], removed[i])
  }

  /** The nodes put under their parents one after the other, without any check. */
  function Placed(m: Parents, nodes: seq<Node>): Parents
    decreases nodes
  {
    if nodes == [] then m else Placed(m[nodes[0].id := nodes[0].parent], nodes[1..])
  }

  /** Node `i` is in order, its parent is there by the time it is placed, and placing it makes no cycle. */
  ghost predicate PlacementOk(m: Parents, nodes: seq<Node>, i: nat)
    requires i < |nodes|
  {
    var node := nodes[i];
    && node.fieldsValid && 0 < node.id <= INT_MAX && node.parent <= INT_MAX
    && (node.parent == 0 || node.parent in m || Places(nodes[..i], node.parent))
    && IsForest(Placed(m, nodes[..i + 1]))
  }

  ghost predicate PlacementsOk(m: Parents, nodes: seq<Node>) {
    forall i :: 0 <= i < |nodes| ==> PlacementOk(m, nodes, i)
  }

  /** The update as its caller can check it: what it removes, what it places and what it focuses. */
  ghost predicate Acceptable(m: Parents, update: Update) {
    var rest := m - Subtrees(m, update.removed);
    && RemovalsOk(m, update.removed)
    && PlacementsOk(rest, update.nodes)
    && (update.setsFocus && update.focus != 0 ==> update.focus in rest || Places(update.nodes, update.focus))
  }

  lemma RemovalsStep(m: Parents, removed: seq<nat>)
    requires IsForest(m) && removed != [] && removed[0] != 0 && removed[0] in m
    ensures RemovalsOk(m, removed) <==> RemovalsOk(m - Subtree(m, removed[0]), removed[1..])
  {
    hide IsForest, Above;
    var top, rest := removed[0], removed[1..];
    var m' := m - Subtree(m, top);
    forall i, j | 0 <= i < |rest| && 0 <= j < i && rest[j] != 0 && rest[i] in m'
      ensures Above(m', rest[j], rest[i]) <==> Above(m, rest[j], rest[i])
    {
      AboveSurvives(m, top, rest[j], rest[i]);
    }
    if RemovalsOk(m, removed) {
      forall i | 0 <= i < |rest|
        ensures rest[i] != 0 && rest[i] in m' && forall j :: 0 <= j < i ==> !Above(m', rest[j], rest[i])
      {
        assert rest[i] == removed[i + 1] && !Above(m, removed[0], removed[i + 1]);
        forall j | 0 <= j < i ensures !Above(m', rest[j], rest[i]) {
          assert rest[j] == removed[j + 1];
        }
      }
    }
    if RemovalsOk(m', rest) {
      forall i | 0 <= i < |removed|
        ensures removed[i] != 0 && removed[i] in m && forall j :: 0 <= j < i ==> !Above(m, removed[j], removed[i])
      {
        if i > 0 {
          assert removed[i] == rest[i - 1];
          forall j | 0 <= j < i ensures !Above(m, removed[j], removed[i]) {
            if j > 0 { assert removed[j] == rest[j - 1]; }
          }
        }
      }
    }
  }

  lemma {:induction false} RemoveAllExactly(m: Parents, removed: seq<nat>)
    requires IsForest(m)
    ensures RemoveAll(m, removed).Some? <==> RemovalsOk(m, removed)
  {
    hide IsForest;
    if removed != [] && removed[0] != 0 && removed[0] in m {
      RemovedIsForest(m, removed[0]);
      RemoveAllExactly(m - Subtree(m, removed[0]), removed[1..]);
      RemovalsStep(m, removed);
    }
  }

  lemma FirstPlacement(m: Parents, nodes: seq<Node>)
    requires IsForest(m) && nodes != []
    ensures PlacementOk(m, nodes, 0) <==> Placeable(m, nodes[0])
  {
    hide IsForest;
    PlaceableExactly(m, nodes[0]);
    assert nodes[..1] == [nodes[0]] && nodes[..1][1..] == [];
    assert Placed(m, nodes[..1]) == m[nodes[0].id := nodes[0].parent];
  }

  lemma LaterPlacement(m: Parents, nodes: seq<Node>, i: nat)
    requires 0 < i < |nodes|
    ensures PlacementOk(m, nodes, i) <==> PlacementOk(m[nodes[0].id := nodes[0].parent], nodes[1..], i - 1)
  {
    hide IsForest;
    var rest, before, parent := nodes[1..], nodes[..i], nodes[i].parent;
    var later := before[1..];
    assert nodes[..i + 1][1..] == rest[..i] && later == rest[..i - 1];
    if n :| 0 <= n < |before| && before[n].id == parent {
      if n > 0 { assert later[n - 1].id == parent; }
    }
    if n :| 0 <= n < |later| && later[n].id == parent {
      assert before[n + 1].id == parent;
    }
    assert before[0] == nodes[0];
  }

  lemma {:induction false} PlaceAllExactly(m: Parents, nodes: seq<Node>)
    requires IsForest(m)
    ensures PlaceAll(m, nodes) == if PlacementsOk(m, nodes) then Some(Placed(m, nodes)) else None
    decreases nodes
  {
    hide IsForest, PlacementOk, Placeable;
    if nodes != [] {
      FirstPlacement(m, nodes);
      if Placeable(m, nodes[0]) {
        var m' := m[nodes[0].id := nodes[0].parent];
        PlaceableExactly(m, nodes[0]);
        PlaceAllExactly(m', nodes[1..]);
        var rest := nodes[1..];
        forall i | 0 <= i < |rest| ensures PlacementOk(m', rest, i) <==> PlacementOk(m, nodes, i + 1) {
          LaterPlacement(m, nodes, i + 1);
        }
        if PlacementsOk(m', rest) {
          forall i | 0 <= i < |nodes| ensures PlacementOk(m, nodes, i) {
            assert i > 0 ==> PlacementOk(m', rest, i - 1);
          }
        }
      }
    }
  }

  /** An update is accepted if and only if it is acceptable, and then it leaves the remaining nodes with the new ones
      placed. */
  lemma UpdatedExactly(m: Parents, update: Update)
    requires IsForest(m)
    ensures Updated(m, update) ==
            if Acceptable(m, update) then Some(Placed(m - Subtrees(m, update.removed), update.nodes)) else None
  {
    hide IsForest, PlacementsOk, RemovalsOk;
    RemoveAllExactly(m, update.removed);
    if RemoveAll(m, update.removed).Some? {
      RemoveAllTakesSubtrees(m, update.removed);
      RemoveAllIsForest(m, update.removed);
      PlaceAllExactly(m - Subtrees(m, update.removed), update.nodes);
      if PlaceAll(m - Subtrees(m, update.removed), update.nodes).Some? {
        PlaceAllAddsNodes(m - Subtrees(m, update.removed), update.nodes);
      }
    }
  }

  // ----- the map itself -----

  class NodeTree {
    var parents: Parents

    ghost predicate Valid()
      reads this
    {
      IsForest(parents)
    }

    constructor ()
      ensures Valid() && parents == map[]
    {
      parents := map[];
    }

    method Clear(javaSucceeds: bool) returns (result: Result)
      requires Valid()
      modifies this
      ensures Valid() && (result == Ok <==> javaSucceeds)
      ensures parents == if javaSucceeds then map[] else old(parents)
    {
      if !javaSucceeds {
        return BackendFailed;
      }
      parents := map[];
      return Ok;
    }

    /** `nk_surface_accessibility_set_node`. */
    method SetNode(node: Node, javaSucceeds: bool) returns (result: Result)
      requires Valid()
      modifies this
      ensures Valid()
      ensures result == InvalidArgument <==> !PlacementOk(old(parents), [node], 0)
      ensures parents == if result == Ok then old(parents)[node.id := node.parent] else old(parents)
      ensures result == Ok <==> result != InvalidArgument && javaSucceeds
    {
      hide IsForest, PlacementOk;
      FirstPlacement(parents, [node]);
      if !node.fieldsValid || node.id == 0 || node.id > INT_MAX || node.parent > INT_MAX || node.id == node.parent {
        return InvalidArgument;
      }
      if node.parent != 0 && node.parent !in parents {
        return InvalidArgument;
      }
      var cyclic := WouldCycle(parents, node.id, node.parent);
      if cyclic {
        return InvalidArgument;
      }
      if !javaSucceeds {
        return BackendFailed;
      }
      PlacedIsForest(parents, node.id, node.parent);
      parents := parents[node.id := node.parent];
      return Ok;
    }

    /** `nk_surface_accessibility_remove_node`. */
    method RemoveNode(node: nat, javaSucceeds: bool) returns (result: Result)
      requires Valid()
      modifies this
      ensures Valid()
      ensures result == InvalidArgument <==> node == 0 || node > INT_MAX || node !in old(parents)
      ensures result == Ok <==> result != InvalidArgument && javaSucceeds
      ensures parents == if result == Ok then old(parents) - Subtree(old(parents), node) else old(parents)
    {
      hide IsForest;
      if node == 0 || node > INT_MAX || node !in parents {
        return InvalidArgument;
      }
      if !javaSucceeds {
        return BackendFailed;
      }
      RemovedIsForest(parents, node);
      parents := WithoutSubtree(parents, node);
      return Ok;
    }

    /** `nk_surface_accessibility_update`: the batch is checked on a copy, which replaces the map only
        when everything has succeeded. */
    method UpdateAll(update: Update, javaSucceeds: bool) returns (result: Result)
      requires Valid()
      modifies this
      ensures Valid()
      ensures result == InvalidArgument <==> !Fits(update) || !Acceptable(old(parents), update)
      ensures result == Ok <==> result != InvalidArgument && javaSucceeds
      ensures result == Ok ==> Updated(old(parents), update) == Some(parents)
      ensures parents ==
              if result != Ok then old(parents)
              else Placed(old(parents) - Subtrees(old(parents), update.removed), update.nodes)
    {
      hide IsForest, Acceptable, Placed;
      UpdatedExactly(parents, update);
      if !Fits(update) {
        return InvalidArgument;
      }
      UpdatedIsForest(parents, update);
      var removed := RemoveListed(parents, update.removed);
      if removed == None {
        return InvalidArgument;
      }
      RemoveAllIsForest(parents, update.removed);
      var placed := PlaceListed(removed.value, update.nodes);
      if placed == None {
        return InvalidArgument;
      }
      if update.setsFocus && update.focus != 0 && update.focus !in placed.value {
        return InvalidArgument;
      }
      if !javaSucceeds {
        return BackendFailed;
      }
      parents := placed.value;
      return Ok;
    }
  }

  /** The ancestor walk. Its depth guard never decides: a forest's walks end within its size. */
  method WouldCycle(parents: Parents, id: nat, parent: nat) returns (cyclic: bool)
    requires IsForest(parents) && id != 0 && (parent == 0 || parent in parents)
    ensures cyclic <==> Above(parents, id, parent)
  {
    var ancestor, depth := parent, 0;
    while ancestor != 0
      invariant ancestor == Up(parents, parent, depth)
      invariant forall j: nat :: j < depth ==> Up(parents, parent, j) != id
      invariant ancestor != 0 ==> depth + 1 <= |parents|
      decreases |parents| + 1 - depth, ancestor != 0
    {
      if ancestor == id {
        return true;
      }
      if depth > |parents| {
        assert false;
        return true;
      }
      UpStaysInside(parents, parent, depth);
      UpAdds(parents, parent, depth, 1);
      assert Up(parents, ancestor, 1) == parents[ancestor];
      ancestor := if ancestor in parents then parents[ancestor] else 0;
      depth := depth + 1;
      if ancestor != 0 {
        WalkIsShort(parents, parent, depth);
      }
    }
    forall k: nat ensures Up(parents, parent, k) != id {
      if k >= depth {
        if parent == 0 {
          UpFromRoot(parents, k);
        } else {
          UpBeyond(parents, parent, depth, k);
        }
      }
    }
    return false;
  }

  lemma {:induction false} DistinctSize(s: seq<nat>, all: set<nat>)
    requires Distinct(s) && forall x :: x in s ==> x in all
    ensures |s| <= |all|
  {
    if s != [] {
      var last := s[|s| - 1];
      DistinctSize(s[..|s| - 1], all - {last});
    }
  }

  /** The work list: `items` is the node and, after it, children of earlier items, each once. Children of
      the first `done` items are all listed; those of item `done` are, but for the ones in `todo`. */
  ghost predicate WorkList(m: Parents, top: nat, items: seq<nat>, done: nat, todo: set<nat>) {
    && Distinct(items) && items != [] && items[0] == top && done <= |items|
    && (forall x :: x in items ==> x in Subtree(m, top))
    && (forall c :: c in m && m[c] in items[..done] ==> c in items)
    && (done < |items| ==> forall c :: c in m && m[c] == items[done] && c !in todo ==> c in items)
    && (forall i :: 1 <= i < |items| ==>
          && items[i] in m
          && (|| m[items[i]] in items[..done]
              || (done < |items| && m[items[i]] == items[done] && items[i] !in todo)))
  }

  lemma NewItemIsNotListed(m: Parents, top: nat, items: seq<nat>, done: nat, todo: set<nat>, c: nat)
    requires WorkList(m, top, items, done, todo) && done < |items|
    requires c in todo && c in m && m[c] == items[done] && c != top
    ensures c !in items
  {
    forall i | 0 <= i < |items| ensures items[i] != c {
    }
  }

  /** A child of the current item that the scan has not reached is below the top and not yet listed. */
  lemma NewItemIsFresh(m: Parents, top: nat, items: seq<nat>, done: nat, todo: set<nat>, c: nat)
    requires IsForest(m) && top in m && WorkList(m, top, items, done, todo) && done < |items|
    requires c in todo && c in m && m[c] == items[done]
    ensures c !in items && c in Subtree(m, top)
  {
    var parent := items[done];
    assert parent in items;
    hide IsForest, WorkList;
    var k: nat :| Up(m, parent, k) == top;
    assert Up(m, c, k + 1) == top;
    if c == top {
      NoCycles(m, top, k + 1);
    }
    NewItemIsNotListed(m, top, items, done, todo, c);
  }

  lemma NewItem(m: Parents, top: nat, items: seq<nat>, done: nat, todo: set<nat>, c: nat)
    requires WorkList(m, top, items, done, todo) && done < |items|
    requires c !in items && c in Subtree(m, top) && m[c] == items[done]
    ensures WorkList(m, top, items + [c], done, todo - {c})
  {
    var items' := items + [c];
    assert items'[..done] == items[..done];
    assert items'[done] == items[done];
  }

  method CollectSubtree(m: Parents, top: nat) returns (items: seq<nat>)
    requires IsForest(m) && top in m
    ensures forall x :: x in items <==> x in Subtree(m, top)
  {
    hide IsForest;
    items := [top];
    assert Up(m, top, 0) == top;
    var done := 0;
    while done < |items|
      invariant WorkList(m, top, items, done, m.Keys)
      invariant |items| <= |m|
      decreases |m| - done
    {
      var todo := m.Keys;
      while todo != {}
        invariant todo <= m.Keys && done < |items|
        invariant WorkList(m, top, items, done, todo)
        invariant |items| <= |m|
        decreases todo
      {
        var candidate :| candidate in todo;
        if m[candidate] == items[done] {
          NewItemIsFresh(m, top, items, done, todo, candidate);
          NewItem(m, top, items, done, todo, candidate);
          items := items + [candidate];
          DistinctSize(items, m.Keys);
        }
        todo := todo - {candidate};
      }
      NextItem(m, top, items, done);
      done := done + 1;
    }
    forall x | x in Subtree(m, top) ensures x in items {
      var k: nat :| Up(m, x, k) == top;
      AllBelowListed(m, top, items, x, k);
    }
  }

  lemma NextItem(m: Parents, top: nat, items: seq<nat>, done: nat)
    requires IsForest(m) && WorkList(m, top, items, done, {}) && done < |items|
    ensures WorkList(m, top, items, done + 1, m.Keys)
  {
    hide IsForest;
    assert items[..done + 1] == items[..done] + [items[done]];
  }

  lemma {:induction false} AllBelowListed(m: Parents, top: nat, items: seq<nat>, x: nat, k: nat)
    requires IsForest(m) && top in m && x in m && Up(m, x, k) == top
    requires WorkList(m, top, items, |items|, m.Keys)
    ensures x in items
    decreases k
  {
    if k > 0 {
      UpFromRoot(m, k - 1);
      AllBelowListed(m, top, items, m[x], k - 1);
      assert items[..|items|] == items;
    }
  }

  method WithoutSubtree(m: Parents, top: nat) returns (r: Parents)
    requires IsForest(m) && top in m
    ensures r == m - Subtree(m, top)
  {
    hide IsForest;
    var items := CollectSubtree(m, top);
    r := m;
    for i := 0 to |items|
      invariant r == m - set x | x in items[..i]
    {
      assert items[..i + 1] == items[..i] + [items[i]];
      r := r - {items[i]};
    }
    assert items[..|items|] == items;
  }

  method RemoveListed(m: Parents, removed: seq<nat>) returns (r: Option<Parents>)
    requires IsForest(m)
    ensures r == RemoveAll(m, removed)
    ensures r == if RemovalsOk(m, removed) then Some(m - Subtrees(m, removed)) else None
  {
    hide IsForest, RemovalsOk;
    RemoveAllExactly(m, removed);
    if RemoveAll(m, removed).Some? {
      RemoveAllTakesSubtrees(m, removed);
    }
    var parents: Parents := m;
    for index := 0 to |removed|
      invariant IsForest(parents)
      invariant RemoveAll(parents, removed[index..]) == RemoveAll(m, removed)
    {
      var top := removed[index];
      assert removed[index..][1..] == removed[index + 1..];
      if top == 0 || top !in parents {
        return None;
      }
      RemovedIsForest(parents, top);
      parents := WithoutSubtree(parents, top);
    }
    return Some(parents);
  }

  method PlaceListed(m: Parents, nodes: seq<Node>) returns (r: Option<Parents>)
    requires IsForest(m)
    ensures r == PlaceAll(m, nodes)
    ensures r == if PlacementsOk(m, nodes) then Some(Placed(m, nodes)) else None
  {
    hide IsForest, PlacementsOk, Placed;
    PlaceAllExactly(m, nodes);
    var parents: Parents := m;
    for index := 0 to |nodes|
      invariant IsForest(parents)
      invariant PlaceAll(parents, nodes[index..]) == PlaceAll(m, nodes)
    {
      var node := nodes[index];
      assert nodes[index..][1..] == nodes[index + 1..];
      if !node.fieldsValid || node.id == 0 || node.id > INT_MAX || node.parent > INT_MAX || node.id == node.parent
         || (node.parent != 0 && node.parent !in parents) {
        return None;
      }
      var cyclic := WouldCycle(parents, node.id, node.parent);
      if cyclic {
        return None;
      }
      PlacedIsForest(parents, node.id, node.parent);
      parents := parents[node.id := node.parent];
    }
    return Some(parents);
  }
}
