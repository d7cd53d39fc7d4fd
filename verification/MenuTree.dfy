/** Menus and menu items: handles that list each other as parents and children. */
module MenuTree {
  import opened Forest
  import opened Options

  datatype Kind = Command | Checkbox | Radio | Submenu | Separator

  /** `parent` is 0 for an item at the top level of its menu. */
  datatype Item = Item(
    menu: nat, parent: nat, kind: Kind, disabled: bool, checked: bool, hidden: bool, children: seq<nat>)

  type Menus = map<nat, seq<nat>>
  type Items = map<nat, Item>

  datatype Result = Ok | InvalidHandle | InvalidArgument | OutOfMemory | BackendFailed

  // ----- well-formed trees -----

  function ParentsOf(items: Items): Parents {
    map h | h in items :: items[h].parent
  }

  /** A child list names only live items, each once, and each of them names this menu and parent. */
  predicate ListOk(items: Items, children: seq<nat>, menu: nat, parent: nat) {
    Distinct(children)
    && forall c :: c in children ==> c in items && items[c].menu == menu && items[c].parent == parent
  }

  /** The list an item belongs on holds it, and its own list is in order. */
  predicate ItemOk(menus: Menus, items: Items, h: nat)
    requires h in items
  {
    var i := items[h];
    && i.menu in menus
    && (if i.parent == 0 then h in menus[i.menu]
        else i.parent in items && items[i.parent].menu == i.menu && h in items[i.parent].children)
    && ListOk(items, i.children, i.menu, h)
  }

  predicate MenuOk(menus: Menus, items: Items, m: nat)
    requires m in menus
  {
    ListOk(items, menus[m], m, 0)
  }

  ghost predicate WellFormed(menus: Menus, items: Items) {
    && 0 !in menus && 0 !in items && menus.Keys !! items.Keys
    && IsForest(ParentsOf(items))
    && (forall h {:trigger ItemOk(menus, items, h)} :: h in items ==> ItemOk(menus, items, h))
    && (forall m {:trigger MenuOk(menus, items, m)} :: m in menus ==> MenuOk(menus, items, m))
  }

  /** The list that holds `h`. */
  function Siblings(menus: Menus, items: Items, h: nat): seq<nat>
    requires h in items
  {
    if items[h].parent != 0 && items[h].parent in items then items[items[h].parent].children
    else if items[h].menu in menus then menus[items[h].menu]
    else []
  }

  // ----- lists without an element -----

  function Drop(s: seq<nat>, h: nat): (r: seq<nat>)
    ensures forall x :: x in r <==> x in s && x != h
  {
    if s == [] then [] else if s[0] == h then Drop(s[1..], h) else [s[0]] + Drop(s[1..], h)
  }

  lemma {:induction false} DropIsDistinct(s: seq<nat>, h: nat)
    requires Distinct(s)
    ensures Distinct(Drop(s, h))
  {
    if s != [] {
      DropIsDistinct(s[1..], h);
      if s[0] != h {
        var r := Drop(s[1..], h);
        forall i, j | 0 <= i < j < |[s[0]] + r| ensures ([s[0]] + r)[i] != ([s[0]] + r)[j] {
          if i == 0 {
            assert r[j - 1] in r && r[j - 1] in s[1..];
          }
        }
      }
    }
  }

  // ----- subtrees -----

  lemma ChildIsBelow(items: Items, h: nat, c: nat)
    requires IsForest(ParentsOf(items)) && h in items && c in items && items[c].parent == h
    ensures Subtree(ParentsOf(items), c) < Subtree(ParentsOf(items), h)
    ensures c in Subtree(ParentsOf(items), h)
  {
    var m := ParentsOf(items);
    assert m[c] == h;
    forall n | n in Subtree(m, c) ensures n in Subtree(m, h) {
      var k: nat :| Up(m, n, k) == c;
      UpAdds(m, n, k, 1);
      assert Up(m, c, 1) == h;
      assert Up(m, n, k + 1) == h;
    }
    assert h in Subtree(m, h) by { assert Up(m, h, 0) == h; }
    assert h !in Subtree(m, c) by {
      forall k: nat ensures Up(m, h, k) != c {
        if Up(m, h, k) == c {
          UpAdds(m, h, k, 1);
          assert Up(m, c, 1) == h;
          NoCycles(m, h, k + 1);
        }
      }
    }
    assert c in Subtree(m, h) by { assert Up(m, c, 1) == h; }
  }

  /** A subtree is its top and the subtrees of the top's children. */
  lemma SubtreeSplits(items: Items, h: nat, n: nat)
    requires IsForest(ParentsOf(items)) && h in items && n in Subtree(ParentsOf(items), h) && n != h
    ensures exists c :: c in items && items[c].parent == h && n in Subtree(ParentsOf(items), c)
  {
    var m := ParentsOf(items);
    var k: nat :| Up(m, n, k) == h;
    var j := FirstHit(m, n, k, h);
    assert j > 0;
    var c := Up(m, n, j - 1);
    UpAdds(m, n, j - 1, 1);
    UpStaysInside(m, n, j - 1);
    UpFromRoot(m, 1);
    assert c in m;
    assert Up(m, c, 1) == m[c];
    assert Above(m, c, n);
  }

  /** `gone` holds the whole subtree of each of its members. */
  ghost predicate ClosedBelow(items: Items, gone: set<nat>) {
    forall x :: x in items && items[x].parent in gone ==> x in gone
  }

  lemma {:induction false} ClosedBelowTakesSubtree(items: Items, gone: set<nat>, h: nat, n: nat, k: nat)
    requires ClosedBelow(items, gone) && h in gone && Up(ParentsOf(items), n, k) == h && n in items
    requires 0 !in gone
    ensures n in gone
    decreases k
  {
    if k > 0 {
      var p := items[n].parent;
      if p in items {
        ClosedBelowTakesSubtree(items, gone, h, p, k - 1);
      } else {
        assert k == 1 || Up(ParentsOf(items), p, k - 1) == 0;
      }
    }
  }

  /** Every item has an ancestor at the top level, in the same menu. */
  lemma {:induction false} TopAncestor(menus: Menus, items: Items, n: nat, k: nat) returns (top: nat)
    requires WellFormed(menus, items) && n in items && Up(ParentsOf(items), n, k) == 0
    ensures top in items && items[top].parent == 0 && items[top].menu == items[n].menu
    ensures n in Subtree(ParentsOf(items), top)
    decreases k
  {
    var m := ParentsOf(items);
    assert ItemOk(menus, items, n);
    if items[n].parent == 0 {
      top := n;
      assert Up(m, n, 0) == n;
    } else {
      var p := items[n].parent;
      top := TopAncestor(menus, items, p, k - 1);
      var j: nat :| Up(m, p, j) == top;
      assert Up(m, n, j + 1) == top;
    }
  }

  lemma {:induction false} SameMenuAbove(menus: Menus, items: Items, h: nat, n: nat, k: nat)
    requires WellFormed(menus, items) && n in items && Up(ParentsOf(items), n, k) == h && h in items
    ensures items[n].menu == items[h].menu
    decreases k
  {
    assert ItemOk(menus, items, n);
    if k > 0 {
      UpFromRoot(ParentsOf(items), k - 1);
      if items[n].parent != 0 {
        SameMenuAbove(menus, items, h, items[n].parent, k - 1);
      }
    }
  }

  // ----- the trees after each change -----

  /** `h` off the list that holds it, and its whole subtree gone. */
  ghost function RemovedItems(items: Items, h: nat): Items
    requires h in items
  {
    var parent := items[h].parent;
    var unlisted :=
      if parent in items then items[parent := items[parent].(children := Drop(items[parent].children, h))] else items;
    unlisted - Subtree(ParentsOf(items), h)
  }

  function RemovedMenus(menus: Menus, items: Items, h: nat): Menus
    requires h in items
  {
    var menu := items[h].menu;
    if items[h].parent == 0 && menu in menus then menus[menu := Drop(menus[menu], h)] else menus
  }

  lemma RemovedIsWellFormed(menus: Menus, items: Items, h: nat)
    requires WellFormed(menus, items) && h in items
    ensures WellFormed(RemovedMenus(menus, items, h), RemovedItems(items, h))
  {
    hide IsForest, Distinct;
    var m, gone := ParentsOf(items), Subtree(ParentsOf(items), h);
    var menus', items' := RemovedMenus(menus, items, h), RemovedItems(items, h);
    RemovedIsForest(m, h);
    SubtreeIsClosed(m, h);
    assert ParentsOf(items') == m - gone;
    assert ItemOk(menus, items, h);
    assert h in gone by { assert Up(m, h, 0) == h; }
    forall x | x in items' ensures ItemOk(menus', items', x) {
      assert ItemOk(menus, items, x);
      assert m[x] !in gone;
      ListSurvives(items, items', items[x].children, items[x].menu, x, h);
    }
    forall k | k in menus' ensures MenuOk(menus', items', k) {
      assert MenuOk(menus, items, k);
      ListSurvives(items, items', menus[k], k, 0, h);
    }
  }

  /** A list loses at most `h` itself: the rest of the removed subtree is on the lists that go with it. */
  lemma ListSurvives(items: Items, items': Items, list: seq<nat>, menu: nat, parent: nat, h: nat)
    requires IsForest(ParentsOf(items)) && h in items && items' == RemovedItems(items, h)
    requires ListOk(items, list, menu, parent) && parent !in Subtree(ParentsOf(items), h)
    ensures ListOk(items', Drop(list, h), menu, parent)
    ensures parent != items[h].parent ==> ListOk(items', list, menu, parent)
  {
    DropIsDistinct(list, h);
    var m := ParentsOf(items);
    forall c | c in list && c != h ensures c in items' && items'[c].menu == menu && items'[c].parent == parent {
      if c in Subtree(m, h) {
        SubtreeSplitsUp(items, h, c);
      }
    }
  }

  lemma SubtreeSplitsUp(items: Items, h: nat, c: nat)
    requires IsForest(ParentsOf(items)) && c in Subtree(ParentsOf(items), h) && c != h && h in items
    ensures items[c].parent in Subtree(ParentsOf(items), h)
  {
    var m := ParentsOf(items);
    var k: nat :| Up(m, c, k) == h;
    UpFromRoot(m, k - 1);
    assert Up(m, m[c], k - 1) == h;
  }

  function AddedItems(items: Items, h: nat, item: Item): Items {
    var parent := item.parent;
    var listed :=
      if parent in items then items[parent := items[parent].(children := items[parent].children + [h])] else items;
    listed[h := item]
  }

  function AddedMenus(menus: Menus, h: nat, item: Item): Menus {
    if item.parent == 0 && item.menu in menus then menus[item.menu := menus[item.menu] + [h]] else menus
  }

  /** The list that `item` names is the old one followed by `h`, every other list and every other field is as before,
      and the item itself is stored as given. */
  predicate AtEnd(menus: Menus, items: Items, menus': Menus, items': Items, h: nat, item: Item) {
    && menus'.Keys == menus.Keys && items'.Keys == items.Keys + {h}
    && h in items' && items'[h] == item
    && (forall m :: m in menus ==>
          menus'[m] == menus[m] + if item.parent == 0 && item.menu == m then [h] else [])
    && (forall x :: x in items && x != h ==>
          && items'[x] == items[x].(children := items'[x].children)
          && items'[x].children == items[x].children + if item.parent == x then [h] else [])
  }

  lemma AddedIsForest(items: Items, h: nat, item: Item)
    requires IsForest(ParentsOf(items)) && h != 0 && h !in items
    requires item.parent == 0 || item.parent in items
    ensures IsForest(ParentsOf(AddedItems(items, h, item)))
  {
    var m := ParentsOf(items);
    forall k: nat ensures Up(m, item.parent, k) != h {
      UpStaysInside(m, item.parent, k);
    }
    PlacedIsForest(m, h, item.parent);
    assert ParentsOf(AddedItems(items, h, item)) == m[h := item.parent];
  }

  lemma NewItemOk(menus: Menus, items: Items, h: nat, item: Item)
    requires h != 0 && h !in items && item.menu in menus && item.children == [] && 0 !in items
    requires item.parent == 0 || (item.parent in items && items[item.parent].menu == item.menu)
    ensures ItemOk(AddedMenus(menus, h, item), AddedItems(items, h, item), h)
  {
  }

  lemma OldItemOk(menus: Menus, items: Items, h: nat, item: Item, x: nat)
    requires h != 0 && h !in items && item.menu in menus && x in items && 0 !in items && ItemOk(menus, items, x)
    requires item.parent == 0 || (item.parent in items && items[item.parent].menu == item.menu)
    ensures ItemOk(AddedMenus(menus, h, item), AddedItems(items, h, item), x)
  {
    hide ListOk;
    ListGrows(items, AddedItems(items, h, item), items[x].children, items[x].menu, x, h, item);
  }

  lemma AddedIsWellFormed(menus: Menus, items: Items, h: nat, item: Item)
    requires WellFormed(menus, items) && h != 0 && h !in items && h !in menus
    requires item.menu in menus && item.children == []
    requires item.parent == 0 || (item.parent in items && items[item.parent].menu == item.menu)
    ensures WellFormed(AddedMenus(menus, h, item), AddedItems(items, h, item))
  {
    hide IsForest, Distinct;
    var menus', items' := AddedMenus(menus, h, item), AddedItems(items, h, item);
    AddedIsForest(items, h, item);
    forall x | x in items' ensures ItemOk(menus', items', x) {
      if x == h {
        NewItemOk(menus, items, h, item);
      } else {
        OldItemOk(menus, items, h, item, x);
      }
    }
    forall k | k in menus' ensures MenuOk(menus', items', k) {
      assert MenuOk(menus, items, k);
      ListGrows(items, items', menus[k], k, 0, h, item);
    }
  }

  lemma ListGrows(items: Items, items': Items, list: seq<nat>, menu: nat, parent: nat, h: nat, item: Item)
    requires items' == AddedItems(items, h, item) && h !in items
    requires ListOk(items, list, menu, parent)
    ensures ListOk(items', list, menu, parent)
    ensures item.menu == menu && item.parent == parent ==> ListOk(items', list + [h], menu, parent)
  {
    assert h !in list;
    forall c | c in list ensures items'[c].menu == items[c].menu && items'[c].parent == items[c].parent {
    }
  }

  ghost function OfMenu(items: Items, menu: nat): set<nat> {
    set h | h in items && items[h].menu == menu
  }

  lemma DestroyedIsWellFormed(menus: Menus, items: Items, menu: nat)
    requires WellFormed(menus, items) && menu in menus
    ensures WellFormed(menus - {menu}, items - OfMenu(items, menu))
  {
    var gone := OfMenu(items, menu);
    var menus', items' := menus - {menu}, items - gone;
    var m := ParentsOf(items);
    forall x | x in items && x !in gone && m[x] in m ensures m[x] !in gone {
      assert ItemOk(menus, items, x);
    }
    forall x | x in items' ensures exists k: nat :: Up(m - gone, x, k) == 0 {
      assert x in m;
      var k: nat :| Up(m, x, k) == 0;
      WalkSurvives(m, gone, x, k);
    }
    assert ParentsOf(items') == m - gone;
    forall x | x in items' ensures ItemOk(menus', items', x) {
      assert ItemOk(menus, items, x);
    }
    forall k | k in menus' ensures MenuOk(menus', items', k) {
      assert MenuOk(menus, items, k);
    }
  }

  // ----- radio groups -----

  /** The items once `h` is the selected radio of its list. */
  function Selected(items: Items, list: seq<nat>, h: nat): Items {
    map x | x in items ::
      if x == h then items[x].(checked := true)
      else if x in list && items[x].kind.Radio? then items[x].(checked := false)
      else items[x]
  }

  lemma SiblingsAreListed(menus: Menus, items: Items, h: nat)
    requires WellFormed(menus, items) && h in items
    ensures h in Siblings(menus, items, h)
    ensures ListOk(items, Siblings(menus, items, h), items[h].menu, items[h].parent)
  {
    hide IsForest;
    assert ItemOk(menus, items, h);
    if items[h].parent != 0 {
      assert ItemOk(menus, items, items[h].parent);
    } else {
      assert MenuOk(menus, items, items[h].menu);
    }
  }

  /** Two items stand side by side: in one menu, below one parent. */
  predicate SideBySide(items: Items, x: nat, h: nat) {
    x in items && h in items && items[x].menu == items[h].menu && items[x].parent == items[h].parent
  }

  lemma SiblingsExactly(menus: Menus, items: Items, h: nat)
    requires WellFormed(menus, items) && h in items
    ensures forall x :: x in Siblings(menus, items, h) <==> SideBySide(items, x, h)
  {
    hide IsForest;
    SiblingsAreListed(menus, items, h);
    forall x | SideBySide(items, x, h) ensures x in Siblings(menus, items, h) {
      assert ItemOk(menus, items, x);
    }
  }

  /** A selected radio is the only checked radio among the items beside it, and nothing but the check marks of radios
      beside it changes. */
  lemma SelectedIsAlone(menus: Menus, items: Items, h: nat)
    requires WellFormed(menus, items) && h in items && items[h].kind.Radio?
    ensures var items' := Selected(items, Siblings(menus, items, h), h);
            && WellFormed(menus, items') && items'.Keys == items.Keys
            && (forall x :: x in items && SideBySide(items, x, h) && items[x].kind.Radio? ==>
                  items'[x] == items[x].(checked := (x == h)))
            && (forall x :: x in items && !(SideBySide(items, x, h) && items[x].kind.Radio?) ==> items'[x] == items[x])
  {
    hide IsForest;
    var list := Siblings(menus, items, h);
    var items' := Selected(items, list, h);
    SiblingsExactly(menus, items, h);
    CheckMarksKeepForm(menus, items, items');
  }

  lemma CheckMarksKeepForm(menus: Menus, items: Items, items': Items)
    requires WellFormed(menus, items) && items'.Keys == items.Keys
    requires forall x :: x in items ==> items'[x] == items[x].(checked := items'[x].checked)
    ensures WellFormed(menus, items')
  {
    assert ParentsOf(items') == ParentsOf(items);
    forall x | x in items' ensures ItemOk(menus, items', x) {
      assert ItemOk(menus, items, x);
      SameList(items, items', items[x].children, items[x].menu, x);
    }
    forall k | k in menus ensures MenuOk(menus, items', k) {
      assert MenuOk(menus, items, k);
      SameList(items, items', menus[k], k, 0);
    }
  }

  lemma SameList(items: Items, items': Items, list: seq<nat>, menu: nat, parent: nat)
    requires items'.Keys == items.Keys && ListOk(items, list, menu, parent)
    requires forall x :: x in items ==> items'[x].menu == items[x].menu && items'[x].parent == items[x].parent
    ensures ListOk(items', list, menu, parent)
  {
  }

  lemma CheckKeepsForm(menus: Menus, items: Items, h: nat, checked: bool)
    requires WellFormed(menus, items) && h in items
    ensures WellFormed(menus, items[h := items[h].(checked := checked)])
    ensures items[h].menu in menus && (items[h].parent == 0 || items[h].parent in items)
  {
    hide IsForest;
    assert ItemOk(menus, items, h);
    CheckMarksKeepForm(menus, items, items[h := items[h].(checked := checked)]);
  }

  /** Marking a radio first and clearing its siblings then selects it. */
  lemma MarkedThenSelected(menus: Menus, items: Items, h: nat)
    requires h in items
    ensures var marked := items[h := items[h].(checked := true)];
            Selected(marked, Siblings(menus, marked, h), h) == Selected(items, Siblings(menus, items, h), h)
  {
    var marked := items[h := items[h].(checked := true)];
    assert Siblings(menus, marked, h) == Siblings(menus, items, h);
  }

  // ----- the menus of a process -----

  /** `x` lists exactly its children. */
  ghost predicate Listed(items: Items, x: nat)
    requires x in items
  {
    forall c {:trigger c in items[x].children} ::
      c in items[x].children <==> c in items && items[c].parent == x
  }

  ghost predicate ListedBelow(items: Items, h: nat) {
    forall x :: x in Subtree(ParentsOf(items), h) ==> Listed(items, x)
  }

  lemma WellFormedIsListed(menus: Menus, items: Items, h: nat)
    requires WellFormed(menus, items)
    ensures ListedBelow(items, h)
  {
    forall x | x in items ensures Listed(items, x) {
      assert ItemOk(menus, items, x);
      forall c | c in items && items[c].parent == x ensures c in items[x].children {
        assert ItemOk(menus, items, c);
      }
    }
  }

  lemma GoneGrows(items: Items, gone: set<nat>, c: nat)
    requires IsForest(ParentsOf(items)) && ClosedBelow(items, gone) && 0 !in gone
    ensures ClosedBelow(items, gone + Subtree(ParentsOf(items), c)) && 0 !in gone + Subtree(ParentsOf(items), c)
  {
    SubtreeIsClosed(ParentsOf(items), c);
  }

  lemma GoneTakesSubtree(items: Items, gone: set<nat>, h: nat)
    requires IsForest(ParentsOf(items)) && ClosedBelow(items, gone) && h in gone && 0 !in gone
    ensures Subtree(ParentsOf(items), h) <= gone
  {
    forall n | n in Subtree(ParentsOf(items), h) ensures n in gone {
      var k: nat :| Up(ParentsOf(items), n, k) == h;
      ClosedBelowTakesSubtree(items, gone, h, n, k);
    }
  }

  /** Once all children of `h` are gone with their subtrees, only `h` itself is left. */
  lemma ChildrenCoverSubtree(items: Items, gone: set<nat>, h: nat)
    requires IsForest(ParentsOf(items)) && h in items && ClosedBelow(items, gone) && 0 !in gone
    requires forall c :: c in items && items[c].parent == h ==> c in gone
    ensures Subtree(ParentsOf(items), h) <= gone + {h}
  {
    forall n | n in Subtree(ParentsOf(items), h) && n != h ensures n in gone {
      SubtreeSplits(items, h, n);
      var c :| c in items && items[c].parent == h && n in Subtree(ParentsOf(items), c);
      GoneTakesSubtree(items, gone, c);
    }
  }

  /** Taking `h` off its parent's list changes neither the parents nor anything below `h`. */
  lemma DropFromParentKeepsTree(items: Items, h: nat)
    requires IsForest(ParentsOf(items)) && h in items && items[h].parent in items && ListedBelow(items, h)
    ensures var parent := items[h].parent;
            var unlisted := items[parent := items[parent].(children := Drop(items[parent].children, h))];
            ParentsOf(unlisted) == ParentsOf(items) && ListedBelow(unlisted, h)
  {
    var m, parent := ParentsOf(items), items[h].parent;
    var unlisted := items[parent := items[parent].(children := Drop(items[parent].children, h))];
    assert ParentsOf(unlisted) == m;
    assert parent !in Subtree(m, h) by {
      forall k: nat ensures Up(m, parent, k) != h {
        assert Up(m, h, k + 1) == Up(m, parent, k);
        NoCycles(m, h, k + 1);
      }
    }
    forall x | x in Subtree(m, h) ensures Listed(unlisted, x) {
      assert Listed(items, x);
    }
  }

  lemma SubtreeIsOfMenu(menus: Menus, items: Items, h: nat)
    requires WellFormed(menus, items) && h in items
    ensures Subtree(ParentsOf(items), h) <= OfMenu(items, items[h].menu)
  {
    forall n | n in Subtree(ParentsOf(items), h) ensures n in OfMenu(items, items[h].menu) {
      var k: nat :| Up(ParentsOf(items), n, k) == h;
      SameMenuAbove(menus, items, h, n, k);
    }
  }

  /** Once every top-level item of a menu is gone with its subtree, all its items are. */
  lemma TopLevelCoversMenu(menus: Menus, items: Items, menu: nat, gone: set<nat>)
    requires WellFormed(menus, items) && menu in menus && ClosedBelow(items, gone) && 0 !in gone
    requires forall c :: c in menus[menu] ==> c in gone
    ensures OfMenu(items, menu) <= gone
  {
    forall n | n in OfMenu(items, menu) ensures n in gone {
      assert n in ParentsOf(items);
      var k: nat :| Up(ParentsOf(items), n, k) == 0;
      var top := TopAncestor(menus, items, n, k);
      assert ItemOk(menus, items, top);
      GoneTakesSubtree(items, gone, top);
    }
  }

  lemma NoSiblings(items: Items, h: nat)
    requires h in items && items[h].checked
    ensures Selected(items, [], h) == items
  {
  }

  /** One more element of the list of a radio to be selected: cleared if it is another checked radio. */
  lemma OneMoreSibling(items: Items, list: seq<nat>, i: nat, h: nat)
    requires i < |list|
    ensures var done, s := Selected(items, list[..i], h), list[i];
            && done.Keys == items.Keys
            && Selected(items, list[..i + 1], h) ==
               if s != h && s in done && done[s].kind.Radio? && done[s].checked
               then done[s := done[s].(checked := false)] else done
  {
    assert list[..i + 1] == list[..i] + [list[i]];
  }

  class MenuTable {
    var menus: Menus
    var items: Items
    var active: nat

    ghost predicate Valid()
      reads this
    {
      WellFormed(menus, items) && (active == 0 || active in menus)
    }

    constructor ()
      ensures Valid() && menus == map[] && items == map[] && active == 0
    {
      menus, items, active := map[], map[], 0;
    }

    /** `handle` is what the handle registry returned: 0 when it is full. */
    method CreateMenu(handle: nat) returns (result: Result)
      requires Valid() && (handle != 0 ==> handle !in menus && handle !in items)
      modifies this
      ensures Valid() && items == old(items) && active == old(active)
      ensures result.Ok? <==> handle != 0
      ensures menus == if handle != 0 then old(menus)[handle := []] else old(menus)
    {
      if handle == 0 {
        return OutOfMemory;
      }
      ghost var before := menus;
      menus := menus[handle := []];
      forall x | x in items ensures ItemOk(menus, items, x) {
        assert ItemOk(before, items, x);
      }
      forall k | k in menus ensures MenuOk(menus, items, k) {
        assert k != handle ==> MenuOk(before, items, k);
      }
      return Ok;
    }

    /** Removes `h` and everything below it, deepest first. */
    method EraseItemTree(h: nat, ghost base: Items, ghost gone: set<nat>)
      requires IsForest(ParentsOf(base)) && ListedBelow(base, h) && h in base
      requires ClosedBelow(base, gone) && 0 !in gone && items == base - gone
      modifies this`items
      ensures items == base - gone - Subtree(ParentsOf(base), h)
      decreases Subtree(ParentsOf(base), h)
    {
      hide IsForest;
      ghost var below := Subtree(ParentsOf(base), h);
      if h !in items {
        GoneTakesSubtree(base, gone, h);
        return;
      }
      assert h in below by { assert Up(ParentsOf(base), h, 0) == h; }
      var descendants := items[h].children;
      ghost var g := gone;
      for i := 0 to |descendants|
        invariant ClosedBelow(base, g) && 0 !in g && items == base - g
        invariant gone <= g <= gone + below
        invariant forall j :: 0 <= j < i ==> descendants[j] in g
      {
        var c := descendants[i];
        assert c in base[h].children;
        ChildIsBelow(base, h, c);
        GoneGrows(base, g, c);
        EraseItemTree(c, base, g);
        assert c in Subtree(ParentsOf(base), c) by { assert Up(ParentsOf(base), c, 0) == c; }
        g := g + Subtree(ParentsOf(base), c);
      }
      forall c | c in base && base[c].parent == h ensures c in g {
        assert Listed(base, h) && c in base[h].children;
      }
      ChildrenCoverSubtree(base, g, h);
      items := items - {h};
    }

    method ListItem(handle: nat, item: Item)
      requires item.menu in menus && (item.parent == 0 || item.parent in items)
      requires 0 !in items && handle !in items && handle !in menus
      modifies this`items, this`menus
      ensures menus == AddedMenus(old(menus), handle, item) && items == AddedItems(old(items), handle, item)
    {
      var parent, menu := item.parent, item.menu;
      items := items[handle := item];
      if parent != 0 {
        items := items[parent := items[parent].(children := items[parent].children + [handle])];
      } else {
        menus := menus[menu := menus[menu] + [handle]];
      }
    }

    /** Takes the item listed last back off its list and out of the table. */
    method UnlistItem(handle: nat, ghost menus0: Menus, ghost items0: Items)
      requires handle in items && handle !in items0 && 0 !in items0 && handle !in menus0
      requires items[handle].menu in menus0 && (items[handle].parent == 0 || items[handle].parent in items0)
      requires menus == AddedMenus(menus0, handle, items[handle]) && items == AddedItems(items0, handle, items[handle])
      modifies this`items, this`menus
      ensures menus == menus0 && items == items0
    {
      var parent, menu := items[handle].parent, items[handle].menu;
      if parent != 0 {
        var list := items[parent].children;
        assert list[..|list| - 1] == items0[parent].children;
        items := items[parent := items[parent].(children := list[..|list| - 1])];
      } else {
        var list := menus[menu];
        assert list[..|list| - 1] == menus0[menu];
        menus := menus[menu := list[..|list| - 1]];
      }
      items := items - {handle};
    }

    method AddItem(menu: nat, item: Item, optionsValid: bool, handle: nat, backendAccepts: bool)
        returns (result: Result)
      requires Valid() && (handle != 0 ==> handle !in menus && handle !in items)
      requires item.menu == menu && item.children == []
      modifies this
      ensures Valid() && active == old(active)
      ensures result.Ok? <==>
        && menu in old(menus) && optionsValid && handle != 0 && backendAccepts
        && (item.parent == 0 || (item.parent in old(items) && old(items)[item.parent].menu == menu
                                 && old(items)[item.parent].kind.Submenu?))
      ensures menu in old(menus) && !optionsValid ==> result == InvalidArgument
      ensures menu !in old(menus) ==> result == InvalidHandle
      ensures result.Ok? ==> menus == AddedMenus(old(menus), handle, item)
      ensures result.Ok? ==> items == AddedItems(old(items), handle, item)
      ensures result.Ok? ==> AtEnd(old(menus), old(items), menus, items, handle, item)
      ensures !result.Ok? ==> menus == old(menus) && items == old(items)
    {
      hide IsForest;
      if menu !in menus {
        return InvalidHandle;
      }
      if !optionsValid {
        return InvalidArgument;
      }
      if item.parent != 0 {
        if item.parent !in items || items[item.parent].menu != menu || !items[item.parent].kind.Submenu? {
          return InvalidHandle;
        }
      }
      if handle == 0 {
        return OutOfMemory;
      }
      AddedIsWellFormed(menus, items, handle, item);
      ListItem(handle, item);
      if !backendAccepts {
        UnlistItem(handle, old(menus), old(items));
        return BackendFailed;
      }
      return Ok;
    }

    method RemoveItem(h: nat) returns (result: Result)
      requires Valid()
      modifies this
      ensures Valid() && active == old(active)
      ensures result.Ok? <==> h in old(items)
      ensures result.Ok? ==> menus == RemovedMenus(old(menus), old(items), h)
      ensures result.Ok? ==> items == RemovedItems(old(items), h)
      ensures !result.Ok? ==> menus == old(menus) && items == old(items)
    {
      hide IsForest;
      if h !in items {
        return InvalidHandle;
      }
      assert ItemOk(menus, items, h);
      RemovedIsWellFormed(menus, items, h);
      WellFormedIsListed(menus, items, h);
      var owner, parent := items[h].menu, items[h].parent;
      if parent != 0 {
        DropFromParentKeepsTree(items, h);
        items := items[parent := items[parent].(children := Drop(items[parent].children, h))];
      } else {
        menus := menus[owner := Drop(menus[owner], h)];
      }
      EraseItemTree(h, items, {});
      assert menus == RemovedMenus(old(menus), old(items), h);
      assert items == RemovedItems(old(items), h);
      return Ok;
    }

    method DestroyMenu(menu: nat) returns (result: Result)
      requires Valid()
      modifies this
      ensures Valid()
      ensures result.Ok? <==> menu in old(menus)
      ensures menus == old(menus) - {menu}
      ensures items == if menu in old(menus) then old(items) - OfMenu(old(items), menu) else old(items)
      ensures active == if menu in old(menus) && old(active) == menu then 0 else old(active)
    {
      hide IsForest;
      if menu !in menus {
        return InvalidHandle;
      }
      DestroyedIsWellFormed(menus, items, menu);
      if active == menu {
        active := 0;
      }
      var children := menus[menu];
      ghost var base, g := items, {};
      assert MenuOk(menus, base, menu);
      for i := 0 to |children|
        invariant menus == old(menus) && active == if old(active) == menu then 0 else old(active)
        invariant ClosedBelow(base, g) && 0 !in g && items == base - g
        invariant g <= OfMenu(base, menu)
        invariant forall j :: 0 <= j < i ==> children[j] in g
      {
        var c := children[i];
        WellFormedIsListed(menus, base, c);
        GoneGrows(base, g, c);
        SubtreeIsOfMenu(menus, base, c);
        EraseItemTree(c, base, g);
        assert c in Subtree(ParentsOf(base), c) by { assert Up(ParentsOf(base), c, 0) == c; }
        g := g + Subtree(ParentsOf(base), c);
      }
      TopLevelCoversMenu(menus, base, menu, g);
      menus := menus - {menu};
      assert items == old(items) - OfMenu(old(items), menu);
      return Ok;
    }

    /** `backendInstalls` is whether the platform took the new menu. */
    method SetApplicationMenu(menu: nat, backendInstalls: bool) returns (result: Result)
      requires Valid()
      modifies this`active
      ensures Valid()
      ensures result.Ok? <==> menu == old(active) || menu == 0 || (menu in menus && backendInstalls)
      ensures active == if result.Ok? then menu else old(active)
    {
      if menu == active {
        return Ok;
      }
      if menu != 0 {
        if menu !in menus {
          return InvalidHandle;
        }
        if !backendInstalls {
          return BackendFailed;
        }
      }
      active := menu;
      return Ok;
    }

    method UncheckRadioSiblings(selected: nat)
      requires selected in items && items[selected].checked && items[selected].menu in menus
      requires items[selected].parent == 0 || items[selected].parent in items
      modifies this`items
      ensures items == Selected(old(items), Siblings(menus, old(items), selected), selected)
    {
      hide Selected;
      ghost var before := items;
      NoSiblings(before, selected);
      var parent := items[selected].parent;
      var siblings := if parent != 0 then items[parent].children else menus[items[selected].menu];
      for i := 0 to |siblings|
        invariant items.Keys == before.Keys
        invariant items == Selected(before, siblings[..i], selected)
      {
        var s := siblings[i];
        OneMoreSibling(before, siblings, i, selected);
        if s != selected && s in items && items[s].kind.Radio? && items[s].checked {
          items := items[s := items[s].(checked := false)];
        }
      }
      assert siblings[..|siblings|] == siblings;
    }

    method SetChecked(h: nat, checked: bool) returns (result: Result)
      requires Valid()
      modifies this`items
      ensures Valid()
      ensures result.Ok? <==> h in old(items) && (old(items)[h].kind.Checkbox? || old(items)[h].kind.Radio?)
      ensures items ==
        if !result.Ok? then old(items)
        else if old(items)[h].kind.Radio? && checked then Selected(old(items), Siblings(menus, old(items), h), h)
        else old(items)[h := old(items)[h].(checked := checked)]
    {
      hide IsForest;
      if h !in items {
        return InvalidHandle;
      }
      if !items[h].kind.Checkbox? && !items[h].kind.Radio? {
        return InvalidArgument;
      }
      ghost var before := items;
      CheckKeepsForm(menus, before, h, checked);
      items := items[h := items[h].(checked := checked)];
      if items[h].kind.Radio? && checked {
        UncheckRadioSiblings(h);
        MarkedThenSelected(menus, before, h);
        SelectedIsAlone(menus, before, h);
      }
      return Ok;
    }

    /** `event` is the check mark the activation event carries. */
    method Activate(h: nat) returns (event: Option<bool>)
      requires Valid()
      modifies this`items
      ensures Valid()
      ensures event.Some? <==>
        && h in old(items) && !old(items)[h].disabled && !old(items)[h].hidden
        && !old(items)[h].kind.Separator? && !old(items)[h].kind.Submenu?
      ensures event.Some? ==> h in items && event.value == items[h].checked
      ensures items ==
        if event.None? || old(items)[h].kind.Command? then old(items)
        else if old(items)[h].kind.Radio? then Selected(old(items), Siblings(menus, old(items), h), h)
        else old(items)[h := old(items)[h].(checked := !old(items)[h].checked)]
    {
      hide IsForest;
      if h !in items || items[h].disabled || items[h].hidden || items[h].kind.Separator? || items[h].kind.Submenu? {
        return None;
      }
      ghost var before := items;
      if items[h].kind.Radio? {
        CheckKeepsForm(menus, before, h, true);
        items := items[h := items[h].(checked := true)];
        UncheckRadioSiblings(h);
        MarkedThenSelected(menus, before, h);
        SelectedIsAlone(menus, before, h);
      } else if items[h].kind.Checkbox? {
        CheckKeepsForm(menus, before, h, !items[h].checked);
        items := items[h := items[h].(checked := !items[h].checked)];
      }
      return Some(items[h].checked);
    }
  }
}
