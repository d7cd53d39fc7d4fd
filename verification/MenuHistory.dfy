/** Histories of one menu table: every list shows its items in the order in which they were added. */
module MenuHistory {
  import opened Forest
  import opened MenuTree

  /** `adds` lists every item ever added, oldest first. */
  datatype History = History(menus: Menus, items: Items, adds: seq<nat>)

  const START := History(map[], map[], [])

  datatype Op =
    | Create(menu: nat)
    | Add(handle: nat, item: Item)
    | Remove(handle: nat)
    | Destroy(menu: nat)
    | Mark(handle: nat, checked: bool)

  /** A handle is issued once. */
  predicate IsNewHandle(t: History, h: nat) {
    h != 0 && h !in t.menus && h !in t.items && h !in t.adds
  }

  predicate MayAdd(t: History, h: nat, item: Item) {
    && IsNewHandle(t, h) && item.menu in t.menus && item.children == []
    && (item.parent == 0
        || (item.parent in t.items && t.items[item.parent].menu == item.menu && t.items[item.parent].kind.Submenu?))
  }

  /** One operation; one that fails changes nothing. */
  ghost function Step(t: History, op: Op): History {
    match op
    case Create(menu) => if IsNewHandle(t, menu) then t.(menus := t.menus[menu := []]) else t
    case Add(h, item) =>
      if MayAdd(t, h, item)
      then History(AddedMenus(t.menus, h, item), AddedItems(t.items, h, item), t.adds + [h]) else t
    case Remove(h) =>
      if h in t.items then t.(menus := RemovedMenus(t.menus, t.items, h), items := RemovedItems(t.items, h)) else t
    case Destroy(menu) =>
      if menu in t.menus then t.(menus := t.menus - {menu}, items := t.items - OfMenu(t.items, menu)) else t
    case Mark(h, checked) =>
      if h !in t.items || !(t.items[h].kind.Checkbox? || t.items[h].kind.Radio?) then t
      else if t.items[h].kind.Radio? && checked
      then t.(items := Selected(t.items, Siblings(t.menus, t.items, h), h))
      else t.(items := t.items[h := t.items[h].(checked := checked)])
  }

  ghost function Run(ops: seq<Op>): History {
    if ops == [] then START else Step(Run(ops[..|ops| - 1]), ops[|ops| - 1])
  }

  // ----- the items of one list, by age -----

  predicate Belongs(items: Items, h: nat, menu: nat, parent: nat) {
    h in items && items[h].menu == menu && items[h].parent == parent
  }

  /** The live items of this menu and parent, in the order of `adds`. */
  function Listed(adds: seq<nat>, items: Items, menu: nat, parent: nat): seq<nat> {
    if adds == [] then []
    else
      var earlier, last := Listed(adds[..|adds| - 1], items, menu, parent), adds[|adds| - 1];
      if Belongs(items, last, menu, parent) then earlier + [last] else earlier
  }

  predicate ItemsInOrder(t: History, p: nat)
    requires p in t.items
  {
    t.items[p].children == Listed(t.adds, t.items, t.items[p].menu, p)
  }

  predicate MenuInOrder(t: History, m: nat)
    requires m in t.menus
  {
    t.menus[m] == Listed(t.adds, t.items, m, 0)
  }

  ghost predicate InOrder(t: History) {
    && WellFormed(t.menus, t.items)
    && (forall m {:trigger MenuInOrder(t, m)} :: m in t.menus ==> MenuInOrder(t, m))
    && (forall p {:trigger ItemsInOrder(t, p)} :: p in t.items ==> ItemsInOrder(t, p))
  }

  lemma {:induction false} SameListed(adds: seq<nat>, items: Items, items': Items, menu: nat, parent: nat)
    requires forall x :: x in adds ==> (Belongs(items, x, menu, parent) <==> Belongs(items', x, menu, parent))
    ensures Listed(adds, items, menu, parent) == Listed(adds, items', menu, parent)
  {
    hide Belongs;
    if adds != [] {
      SameListed(adds[..|adds| - 1], items, items', menu, parent);
    }
  }

  lemma {:induction false} ListedBelong(adds: seq<nat>, items: Items, menu: nat, parent: nat)
    ensures forall x :: x in Listed(adds, items, menu, parent) ==> Belongs(items, x, menu, parent)
  {
    hide Belongs;
    if adds != [] {
      ListedBelong(adds[..|adds| - 1], items, menu, parent);
    }
  }

  // ----- adding -----

  lemma AddedBelongs(items: Items, h: nat, item: Item, x: nat, menu: nat, parent: nat)
    requires h !in items
    ensures Belongs(AddedItems(items, h, item), x, menu, parent) <==>
            if x == h then item.menu == menu && item.parent == parent else Belongs(items, x, menu, parent)
  {
  }

  lemma AddedListed(t: History, h: nat, item: Item, menu: nat, parent: nat)
    requires MayAdd(t, h, item)
    ensures Listed(t.adds + [h], AddedItems(t.items, h, item), menu, parent) ==
            Listed(t.adds, t.items, menu, parent) + if item.menu == menu && item.parent == parent then [h] else []
  {
    hide AddedItems, Belongs;
    var items' := AddedItems(t.items, h, item);
    assert (t.adds + [h])[..|t.adds|] == t.adds;
    forall x | x in t.adds ensures Belongs(t.items, x, menu, parent) <==> Belongs(items', x, menu, parent) {
      AddedBelongs(t.items, h, item, x, menu, parent);
    }
    SameListed(t.adds, t.items, items', menu, parent);
    AddedBelongs(t.items, h, item, h, menu, parent);
  }

  lemma {:induction false} NoneListed(adds: seq<nat>, items: Items, menu: nat, parent: nat)
    requires forall x :: x in items ==> !Belongs(items, x, menu, parent)
    ensures Listed(adds, items, menu, parent) == []
  {
    if adds != [] {
      NoneListed(adds[..|adds| - 1], items, menu, parent);
    }
  }

  /** Nothing hangs below a handle that is not in use. */
  lemma NothingBelow(t: History, h: nat, menu: nat)
    requires WellFormed(t.menus, t.items) && h != 0 && h !in t.items
    ensures Listed(t.adds, t.items, menu, h) == []
  {
    forall x | x in t.items ensures !Belongs(t.items, x, menu, h) {
      assert ItemOk(t.menus, t.items, x);
    }
    NoneListed(t.adds, t.items, menu, h);
  }

  lemma AddKeepsOrder(t: History, h: nat, item: Item)
    requires InOrder(t) && MayAdd(t, h, item)
    ensures InOrder(Step(t, Add(h, item)))
  {
    hide WellFormed, Listed;
    var n := Step(t, Add(h, item));
    AddKeepsForm(t, h, item);
    forall m | m in n.menus ensures MenuInOrder(n, m) {
      assert MenuInOrder(t, m);
      AddedListed(t, h, item, m, 0);
    }
    forall p | p in n.items ensures ItemsInOrder(n, p) {
      AddedListed(t, h, item, n.items[p].menu, p);
      if p == h {
        NothingBelow(t, h, item.menu);
      } else {
        assert ItemsInOrder(t, p);
      }
    }
  }

  lemma AddKeepsForm(t: History, h: nat, item: Item)
    requires WellFormed(t.menus, t.items) && MayAdd(t, h, item)
    ensures WellFormed(AddedMenus(t.menus, h, item), AddedItems(t.items, h, item)) && 0 !in t.items
  {
    AddedIsWellFormed(t.menus, t.items, h, item);
  }

  // ----- removing -----

  lemma {:induction false} DropAppends(s: seq<nat>, x: nat, h: nat)
    ensures Drop(s + [x], h) == Drop(s, h) + if x == h then [] else [x]
  {
    if s != [] {
      assert (s + [x])[1..] == s[1..] + [x];
      DropAppends(s[1..], x, h);
    }
  }

  lemma {:induction false} DropNothing(s: seq<nat>, h: nat)
    requires h !in s
    ensures Drop(s, h) == s
  {
    if s != [] {
      DropNothing(s[1..], h);
    }
  }

  lemma {:induction false} DroppedListed(adds: seq<nat>, items: Items, items': Items, menu: nat, parent: nat, h: nat)
    requires forall x :: x in adds ==>
               (Belongs(items', x, menu, parent) <==> Belongs(items, x, menu, parent) && x != h)
    ensures Listed(adds, items', menu, parent) == Drop(Listed(adds, items, menu, parent), h)
  {
    hide Belongs, Drop;
    if adds == [] {
      NothingToDrop(h);
    } else {
      var before, last := adds[..|adds| - 1], adds[|adds| - 1];
      DroppedListed(before, items, items', menu, parent, h);
      DropAppends(Listed(before, items, menu, parent), last, h);
    }
  }

  lemma NothingToDrop(h: nat)
    ensures Drop([], h) == []
  {
  }

  lemma RemovedBelongs(t: History, h: nat, x: nat, menu: nat, parent: nat)
    requires WellFormed(t.menus, t.items) && h in t.items && parent !in Subtree(ParentsOf(t.items), h)
    ensures Belongs(RemovedItems(t.items, h), x, menu, parent) <==> Belongs(t.items, x, menu, parent) && x != h
  {
    hide IsForest, Above;
    assert h in Subtree(ParentsOf(t.items), h) by { AboveItself(t.items, h); }
    if Belongs(t.items, x, menu, parent) && x != h && x in Subtree(ParentsOf(t.items), h) {
      SubtreeSplitsUp(t.items, h, x);
    }
  }

  lemma AboveItself(items: Items, h: nat)
    requires h in items
    ensures h in Subtree(ParentsOf(items), h)
  {
    assert Up(ParentsOf(items), h, 0) == h;
  }

  lemma RemovedListed(t: History, h: nat, menu: nat, parent: nat)
    requires WellFormed(t.menus, t.items) && h in t.items && parent !in Subtree(ParentsOf(t.items), h)
    ensures var list := Listed(t.adds, t.items, menu, parent);
            Listed(t.adds, RemovedItems(t.items, h), menu, parent) ==
            if t.items[h].menu == menu && t.items[h].parent == parent then Drop(list, h) else list
  {
    hide WellFormed, RemovedItems, Drop;
    forall x | x in t.adds
      ensures Belongs(RemovedItems(t.items, h), x, menu, parent) <==> Belongs(t.items, x, menu, parent) && x != h
    {
      RemovedBelongs(t, h, x, menu, parent);
    }
    DroppedListed(t.adds, t.items, RemovedItems(t.items, h), menu, parent, h);
    ListedBelong(t.adds, t.items, menu, parent);
    if h !in Listed(t.adds, t.items, menu, parent) {
      DropNothing(Listed(t.adds, t.items, menu, parent), h);
    }
  }

  /** Where a removed item was, and what an item that stays looks like afterwards. */
  lemma RemovedKeeps(t: History, h: nat, p: nat)
    requires WellFormed(t.menus, t.items) && h in t.items && p in RemovedItems(t.items, h)
    ensures p in t.items && p !in Subtree(ParentsOf(t.items), h) && 0 !in Subtree(ParentsOf(t.items), h)
    ensures RemovedItems(t.items, h)[p].menu == t.items[p].menu
    ensures RemovedItems(t.items, h)[p].children ==
            if t.items[h].parent == p then Drop(t.items[p].children, h) else t.items[p].children
    ensures t.items[h].parent == p ==> t.items[h].menu == t.items[p].menu
  {
    assert ItemOk(t.menus, t.items, h);
  }

  lemma RemovedForm(t: History, h: nat)
    requires WellFormed(t.menus, t.items) && h in t.items
    ensures WellFormed(RemovedMenus(t.menus, t.items, h), RemovedItems(t.items, h))
    ensures 0 !in Subtree(ParentsOf(t.items), h)
  {
    RemovedIsWellFormed(t.menus, t.items, h);
  }

  lemma RemoveKeepsOrder(t: History, h: nat)
    requires InOrder(t) && h in t.items
    ensures InOrder(Step(t, Remove(h)))
  {
    hide WellFormed, Listed, RemovedItems, Drop;
    var n := Step(t, Remove(h));
    RemovedForm(t, h);
    forall m | m in n.menus ensures MenuInOrder(n, m) {
      assert MenuInOrder(t, m);
      RemovedListed(t, h, m, 0);
    }
    forall p | p in n.items ensures ItemsInOrder(n, p) {
      RemovedKeeps(t, h, p);
      assert ItemsInOrder(t, p);
      RemovedListed(t, h, t.items[p].menu, p);
    }
  }

  // ----- the other operations -----

  lemma DestroyKeepsOrder(t: History, menu: nat)
    requires InOrder(t) && menu in t.menus
    ensures InOrder(Step(t, Destroy(menu)))
  {
    hide WellFormed, Listed;
    var n := Step(t, Destroy(menu));
    DestroyedForm(t, menu);
    forall m | m in n.menus ensures MenuInOrder(n, m) {
      assert MenuInOrder(t, m);
      SameListed(t.adds, t.items, n.items, m, 0);
    }
    forall p | p in n.items ensures ItemsInOrder(n, p) {
      assert ItemsInOrder(t, p);
      SameListed(t.adds, t.items, n.items, n.items[p].menu, p);
    }
  }

  lemma DestroyedForm(t: History, menu: nat)
    requires WellFormed(t.menus, t.items) && menu in t.menus
    ensures WellFormed(t.menus - {menu}, t.items - OfMenu(t.items, menu))
  {
    DestroyedIsWellFormed(t.menus, t.items, menu);
  }

  lemma NothingInNewMenu(t: History, menu: nat)
    requires WellFormed(t.menus, t.items) && menu !in t.menus
    ensures Listed(t.adds, t.items, menu, 0) == []
  {
    forall x | x in t.items ensures !Belongs(t.items, x, menu, 0) {
      assert ItemOk(t.menus, t.items, x);
    }
    NoneListed(t.adds, t.items, menu, 0);
  }

  lemma CreateKeepsOrder(t: History, menu: nat)
    requires InOrder(t) && IsNewHandle(t, menu)
    ensures InOrder(Step(t, Create(menu)))
  {
    hide IsForest;
    var n := Step(t, Create(menu));
    forall x | x in n.items ensures ItemOk(n.menus, n.items, x) && ItemsInOrder(n, x) {
      assert ItemOk(t.menus, t.items, x) && ItemsInOrder(t, x);
    }
    NothingInNewMenu(t, menu);
    forall m | m in n.menus ensures MenuOk(n.menus, n.items, m) && MenuInOrder(n, m) {
      if m != menu {
        assert MenuOk(t.menus, t.items, m) && MenuInOrder(t, m);
      }
    }
  }

  /** Check marks have no part in the lists. */
  lemma MarkKeepsOrder(t: History, h: nat, checked: bool)
    requires InOrder(t)
    ensures InOrder(Step(t, Mark(h, checked)))
  {
    hide WellFormed, Listed;
    var n := Step(t, Mark(h, checked));
    MarkedForm(t, h, checked);
    forall m | m in n.menus ensures MenuInOrder(n, m) {
      assert MenuInOrder(t, m);
      SameListed(t.adds, t.items, n.items, m, 0);
    }
    forall p | p in n.items ensures ItemsInOrder(n, p) {
      assert ItemsInOrder(t, p);
      SameListed(t.adds, t.items, n.items, n.items[p].menu, p);
    }
  }

  lemma MarkedForm(t: History, h: nat, checked: bool)
    requires WellFormed(t.menus, t.items)
    ensures WellFormed(Step(t, Mark(h, checked)).menus, Step(t, Mark(h, checked)).items)
  {
    hide WellFormed;
    if h in t.items {
      if t.items[h].kind.Radio? && checked {
        SelectedIsAlone(t.menus, t.items, h);
      } else {
        CheckKeepsForm(t.menus, t.items, h, checked);
      }
    }
  }

  /** In every history of additions, removals, destroyed menus and check marks, the top-level list of a menu and the
      children of an item are exactly its live items, in the order in which they were added. */
  lemma {:induction false} RunIsInOrder(ops: seq<Op>)
    ensures InOrder(Run(ops))
  {
    if ops != [] {
      hide InOrder, AddedItems, AddedMenus, RemovedItems, RemovedMenus, Selected;
      var t, op := Run(ops[..|ops| - 1]), ops[|ops| - 1];
      RunIsInOrder(ops[..|ops| - 1]);
      match op {
        case Create(menu) =>
          if IsNewHandle(t, menu) { CreateKeepsOrder(t, menu); }
        case Add(h, item) =>
          if MayAdd(t, h, item) { AddKeepsOrder(t, h, item); }
        case Remove(h) =>
          if h in t.items { RemoveKeepsOrder(t, h); }
        case Destroy(menu) =>
          if menu in t.menus { DestroyKeepsOrder(t, menu); }
        case Mark(h, checked) => MarkKeepsOrder(t, h, checked);
      }
    }
  }
}
