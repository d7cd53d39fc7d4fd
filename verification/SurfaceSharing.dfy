/** Graphics surfaces that share a context: share counts and the leaf-first teardown loops. */
module SurfaceSharing {
  import opened Forest

  /** `shared` is the surface this one shares from, 0 for none, `dependents` its share count, and `context` stands
      for the API and major version of its context. */
  datatype Shared = Shared(host: nat, context: nat, shared: nat, dependents: nat, prepared: bool)

  type Table = map<nat, Shared>

  datatype Result = Ok | InvalidHandle | InvalidArgument | InvalidRequest | OutOfMemory | BackendFailed

  function ParentsOf(t: Table): Parents {
    map h | h in t :: t[h].shared
  }

  function Dependents(t: Table, h: nat): set<nat> {
    set k | k in t && t[k].shared == h
  }

  ghost predicate CountsExact(t: Table) {
    forall h :: h in t ==> t[h].dependents == |Dependents(t, h)|
  }

  /** The surface `s` shares from exists, is of the same host and has the same kind of context. */
  predicate MayShare(t: Table, s: Shared) {
    s.shared == 0 || (s.shared in t && t[s.shared].host == s.host && t[s.shared].context == s.context)
  }

  predicate SharesWithinHost(t: Table, h: nat)
    requires h in t
  {
    MayShare(t, t[h])
  }

  ghost predicate SharingStaysInside(t: Table) {
    forall h {:trigger SharesWithinHost(t, h)} :: h in t ==> SharesWithinHost(t, h)
  }

  /** Share counts are exact, chains end at a surface that shares from none, and sharing stays within one
      host and one kind of context. */
  ghost predicate Consistent(t: Table) {
    && 0 !in t && IsForest(ParentsOf(t))
    && CountsExact(t) && SharingStaysInside(t)
  }

  /** Whether the surface at the end of a share chain owns retained images is the caller's to say. */
  ghost predicate Blocked(t: Table, retained: set<nat>, h: nat) {
    h in t && (t[h].prepared || (t[h].shared == 0 && h in retained))
  }

  ghost predicate Destroyable(t: Table, retained: set<nat>, h: nat) {
    h in t && t[h].dependents == 0 && !Blocked(t, retained, h)
  }

  /** A surface can be destroyed exactly if nothing shares from it, no frame is prepared on it, and it is not the end
      of a chain that owns retained images. */
  lemma DestroyableExactly(t: Table, retained: set<nat>, h: nat)
    requires CountsExact(t)
    ensures Destroyable(t, retained, h) <==>
            && h in t && (forall g :: g in t ==> t[g].shared != h)
            && !t[h].prepared && (h in retained ==> t[h].shared != 0)
  {
    if h in t {
      if t[h].dependents == 0 {
        assert Dependents(t, h) == {};
        assert forall g :: g in t ==> g !in Dependents(t, h);
      }
      if forall g :: g in t ==> t[g].shared != h {
        assert Dependents(t, h) == {};
      }
    }
  }

  /** The same surfaces of the two tables differ in nothing but their share counts. */
  predicate SameButCounts(t: Table, t': Table) {
    forall g :: g in t && g in t' ==> t[g].(dependents := 0) == t'[g].(dependents := 0)
  }

  function Without(t: Table, h: nat): Table
    requires h in t
  {
    var parent := t[h].shared;
    var rest := t - {h};
    if parent in rest && rest[parent].dependents > 0
    then rest[parent := rest[parent].(dependents := rest[parent].dependents - 1)]
    else rest
  }

  /** A new surface that nothing shares from yet. */
  predicate IsNew(s: Shared) {
    s.dependents == 0 && !s.prepared
  }

  function With(t: Table, h: nat, s: Shared): Table {
    var added := t[h := s];
    var from := s.shared;
    if from in t && from != h then added[from := t[from].(dependents := t[from].dependents + 1)] else added
  }

  lemma NoDependentsIsLeaf(t: Table, h: nat)
    requires Consistent(t) && h in t
    ensures t[h].dependents == 0 <==> IsLeaf(ParentsOf(t), h)
  {
    hide IsForest;
    if t[h].dependents == 0 {
      assert Dependents(t, h) == {};
      forall c | c in ParentsOf(t) ensures ParentsOf(t)[c] != h {
        assert c !in Dependents(t, h);
      }
    } else {
      var c :| c in Dependents(t, h);
      assert ParentsOf(t)[c] == h;
    }
  }

  lemma {:induction false} LeafIsAboveNothing(m: Parents, h: nat, n: nat, k: nat)
    requires IsForest(m) && IsLeaf(m, h) && n != h && n in m
    ensures Up(m, n, k) != h
    decreases k
  {
    if k > 0 {
      assert m[n] != h;
      if m[n] in m {
        LeafIsAboveNothing(m, h, m[n], k - 1);
      } else {
        UpFromRoot(m, k - 1);
      }
    }
  }

  lemma LeafSubtree(m: Parents, h: nat)
    requires IsForest(m) && IsLeaf(m, h)
    ensures Subtree(m, h) == {h}
  {
    hide IsForest;
    assert Up(m, h, 0) == h;
    forall n | n in m && n != h ensures !Above(m, h, n) {
      forall k: nat ensures Up(m, n, k) != h {
        LeafIsAboveNothing(m, h, n, k);
      }
    }
  }

  lemma DependentsWithout(t: Table, h: nat, g: nat)
    requires h in t
    ensures Dependents(Without(t, h), g) == Dependents(t, g) - {h}
  {
  }

  lemma WithoutCounts(t: Table, h: nat)
    requires CountsExact(t) && h in t && t[h].dependents == 0
    requires t[h].shared != 0 ==> t[h].shared in t
    ensures CountsExact(Without(t, h))
    ensures t[h].shared != h
    ensures t[h].shared != 0 ==> t[t[h].shared].dependents > 0
  {
    var t', parent := Without(t, h), t[h].shared;
    assert Dependents(t, h) == {};
    assert h !in Dependents(t, h);
    assert h in Dependents(t, parent);
    forall g | g in t' ensures t'[g].dependents == |Dependents(t', g)| {
      DependentsWithout(t, h, g);
      if g != parent {
        assert h !in Dependents(t, g);
      }
    }
  }

  lemma WithoutIsForest(t: Table, h: nat)
    requires Consistent(t) && h in t && t[h].dependents == 0
    ensures IsForest(ParentsOf(Without(t, h)))
  {
    hide IsForest, CountsExact, SharingStaysInside;
    NoDependentsIsLeaf(t, h);
    LeafSubtree(ParentsOf(t), h);
    RemovedIsForest(ParentsOf(t), h);
    assert ParentsOf(Without(t, h)) == ParentsOf(t) - {h};
  }

  lemma WithoutStaysInside(t: Table, h: nat)
    requires SharingStaysInside(t) && CountsExact(t) && h in t && t[h].dependents == 0
    ensures SharingStaysInside(Without(t, h))
  {
    var t' := Without(t, h);
    assert Dependents(t, h) == {};
    forall g | g in t' ensures SharesWithinHost(t', g) {
      assert SharesWithinHost(t, g);
      assert g !in Dependents(t, h);
    }
  }

  lemma WithoutIsConsistent(t: Table, h: nat)
    requires Consistent(t) && h in t && t[h].dependents == 0
    ensures Consistent(Without(t, h))
    ensures t[h].shared != h
    ensures t[h].shared != 0 ==> t[h].shared in t && t[t[h].shared].dependents > 0
  {
    hide IsForest, CountsExact;
    assert SharesWithinHost(t, h);
    WithoutCounts(t, h);
    WithoutIsForest(t, h);
    WithoutStaysInside(t, h);
  }

  /** Nothing but the share count of its parent changes for the others. */
  lemma WithoutFrame(t: Table, h: nat)
    requires Consistent(t) && h in t && t[h].dependents == 0
    ensures Without(t, h).Keys == t.Keys - {h} && |Without(t, h)| < |t|
    ensures forall g :: g in Without(t, h) ==>
              t[g].(dependents := 0) == Without(t, h)[g].(dependents := 0)
    ensures forall g :: g in t && t[g].host != t[h].host ==> g in Without(t, h) && Without(t, h)[g] == t[g]
  {
    hide IsForest, CountsExact;
    WithoutIsConsistent(t, h);
    assert SharesWithinHost(t, h);
    var t' := Without(t, h);
    assert t'.Keys == t.Keys - {h};
    assert |t'.Keys| < |t.Keys|;
  }

  lemma DependentsWith(t: Table, h: nat, s: Shared, g: nat)
    requires h !in t && s.shared != h
    ensures Dependents(With(t, h, s), g)
         == if g == s.shared then Dependents(t, g) + {h} else Dependents(t, g)
  {
  }

  lemma WithCounts(t: Table, h: nat, s: Shared)
    requires CountsExact(t) && h !in t && s.shared != h && s.dependents == 0
    requires Dependents(t, h) == {}
    ensures CountsExact(With(t, h, s))
  {
    var t' := With(t, h, s);
    forall g | g in t' ensures t'[g].dependents == |Dependents(t', g)| {
      DependentsWith(t, h, s, g);
      assert h !in Dependents(t, g);
    }
  }

  lemma NewIsAboveNothing(m: Parents, h: nat, n: nat)
    requires IsForest(m) && h !in m && h != 0 && (n == 0 || n in m)
    ensures !Above(m, h, n)
  {
    forall k: nat ensures Up(m, n, k) != h {
      UpStaysInside(m, n, k);
    }
  }

  lemma WithIsForest(t: Table, h: nat, s: Shared)
    requires Consistent(t) && h !in t && h != 0 && MayShare(t, s)
    ensures IsForest(ParentsOf(With(t, h, s)))
  {
    hide IsForest, CountsExact, SharingStaysInside;
    NewIsAboveNothing(ParentsOf(t), h, s.shared);
    PlacedIsForest(ParentsOf(t), h, s.shared);
    assert ParentsOf(With(t, h, s)) == ParentsOf(t)[h := s.shared];
  }

  lemma WithStaysInside(t: Table, h: nat, s: Shared)
    requires SharingStaysInside(t) && h !in t && h != 0 && MayShare(t, s)
    ensures SharingStaysInside(With(t, h, s)) && Dependents(t, h) == {}
  {
    var t' := With(t, h, s);
    forall g | g in t' ensures SharesWithinHost(t', g) {
      if g != h { assert SharesWithinHost(t, g); }
    }
    forall k | k in t ensures t[k].shared != h {
      assert SharesWithinHost(t, k);
    }
  }

  lemma WithIsConsistent(t: Table, h: nat, s: Shared)
    requires Consistent(t) && h !in t && h != 0 && MayShare(t, s) && s.dependents == 0
    ensures Consistent(With(t, h, s))
  {
    hide IsForest, CountsExact, SharingStaysInside;
    WithIsForest(t, h, s);
    WithStaysInside(t, h, s);
    WithCounts(t, h, s);
  }

  lemma NothingSharesFromNew(t: Table, h: nat, s: Shared)
    requires SharingStaysInside(t) && h !in t && h != 0 && MayShare(t, s)
    ensures forall g :: g in With(t, h, s) ==> With(t, h, s)[g].shared != h
  {
    forall g | g in t ensures t[g].shared != h {
      assert SharesWithinHost(t, g);
    }
  }

  lemma WithoutWith(t: Table, h: nat, s: Shared)
    requires Consistent(t) && h !in t && h != 0 && MayShare(t, s)
    ensures Without(With(t, h, s), h) == t
  {
  }

  lemma PreparedIsConsistent(t: Table, h: nat, prepared: bool)
    requires Consistent(t) && h in t
    ensures Consistent(t[h := t[h].(prepared := prepared)])
  {
    hide IsForest;
    var t' := t[h := t[h].(prepared := prepared)];
    assert ParentsOf(t') == ParentsOf(t);
    forall g | g in t' ensures t'[g].dependents == |Dependents(t', g)| {
      assert Dependents(t', g) == Dependents(t, g);
    }
    forall g | g in t' ensures SharesWithinHost(t', g) {
      assert SharesWithinHost(t, g);
    }
  }

  // ----- which surface can go next -----

  /** The surfaces of one host are a forest of their own. */
  function OfHost(t: Table, host: nat): Table {
    map h | h in t && t[h].host == host :: t[h]
  }

  lemma {:induction false} HostWalk(t: Table, host: nat, n: nat, k: nat)
    requires Consistent(t) && n in OfHost(t, host)
    ensures Up(ParentsOf(OfHost(t, host)), n, k) == Up(ParentsOf(t), n, k)
    decreases k
  {
    hide IsForest;
    assert SharesWithinHost(t, n);
    if k > 0 && t[n].shared != 0 {
      HostWalk(t, host, t[n].shared, k - 1);
    } else if k > 0 {
      UpFromRoot(ParentsOf(t), k - 1);
      UpFromRoot(ParentsOf(OfHost(t, host)), k - 1);
    }
  }

  lemma HostIsForest(t: Table, host: nat)
    requires Consistent(t)
    ensures IsForest(ParentsOf(OfHost(t, host)))
  {
    var sub := ParentsOf(OfHost(t, host));
    forall n | n in sub ensures sub[n] == 0 || sub[n] in sub {
      assert SharesWithinHost(t, n);
    }
    forall n | n in sub ensures exists k: nat :: Up(sub, n, k) == 0 {
      assert n in ParentsOf(t);
      var k: nat :| Up(ParentsOf(t), n, k) == 0;
      HostWalk(t, host, n, k);
    }
  }

  /** A host that has surfaces has one that none shares from: the next to go. */
  lemma HostHasLeaf(t: Table, host: nat, any: nat)
    requires Consistent(t) && any in t && t[any].host == host
    ensures exists h :: h in t && t[h].host == host && t[h].dependents == 0
  {
    hide IsForest;
    var sub := ParentsOf(OfHost(t, host));
    HostIsForest(t, host);
    assert any in sub;
    HasLeaf(sub);
    var h :| IsLeaf(sub, h);
    forall c | c in t ensures t[c].shared != h {
      assert SharesWithinHost(t, c);
      if c in sub { assert sub[c] != h by { assert !HasChild(sub, h); } }
    }
    assert Dependents(t, h) == {};
    assert t[h].dependents == 0;
  }

  lemma TableHasLeaf(t: Table)
    requires Consistent(t) && t != map[]
    ensures exists h :: h in t && t[h].dependents == 0
  {
    hide IsForest;
    var any :| any in t;
    HostHasLeaf(t, t[any].host, any);
  }

  // ----- the table -----

  class SurfaceTable {
    var surfaces: Table

    ghost predicate Valid()
      reads this
    {
      Consistent(surfaces)
    }

    constructor ()
      ensures Valid() && surfaces == map[]
    {
      surfaces := map[];
    }

    /** The bookkeeping of surface creation; `handle` is what the registry issued, 0 when it is full, and
        `viewCreated` whether the platform made the surface's view. Without it the new surface is destroyed
        again. */
    method Create(handle: nat, surface: Shared, viewCreated: bool) returns (result: Result)
      requires Valid() && handle !in surfaces && IsNew(surface)
      modifies this
      ensures Valid()
      ensures result == Ok ==> surfaces == With(old(surfaces), handle, surface)
      ensures result != Ok ==> surfaces == old(surfaces)
      ensures result == Ok <==> handle != 0 && MayShare(old(surfaces), surface) && viewCreated
      ensures result == InvalidHandle <==> surface.shared != 0 && surface.shared !in old(surfaces)
      ensures result == InvalidArgument <==>
              && surface.shared != 0 && surface.shared in old(surfaces)
              && (old(surfaces)[surface.shared].host != surface.host
                  || old(surfaces)[surface.shared].context != surface.context)
      ensures result == Ok ==>
                && surfaces.Keys == old(surfaces).Keys + {handle} && surfaces[handle] == surface
                && SameButCounts(old(surfaces), surfaces)
    {
      hide IsForest, CountsExact;
      var shared := surface.shared;
      if shared != 0 {
        if shared !in surfaces {
          return InvalidHandle;
        }
        if surfaces[shared].host != surface.host || surfaces[shared].context != surface.context {
          return InvalidArgument;
        }
      }
      if handle == 0 {
        return OutOfMemory;
      }
      WithIsConsistent(surfaces, handle, surface);
      surfaces := surfaces[handle := surface];
      if shared != 0 {
        surfaces := surfaces[shared := surfaces[shared].(dependents := surfaces[shared].dependents + 1)];
      }
      assert surfaces == With(old(surfaces), handle, surface);
      if !viewCreated {
        WithoutWith(old(surfaces), handle, surface);
        NothingSharesFromNew(old(surfaces), handle, surface);
        var destroyed := Destroy(handle, {});
        return BackendFailed;
      }
      return Ok;
    }

    /** `frame_prepared` is set when a frame is begun on a surface and cleared when it is closed. */
    method SetPrepared(handle: nat, prepared: bool)
      requires Valid() && handle in surfaces
      modifies this
      ensures Valid()
      ensures surfaces == old(surfaces)[handle := old(surfaces)[handle].(prepared := prepared)]
    {
      PreparedIsConsistent(surfaces, handle, prepared);
      surfaces := surfaces[handle := surfaces[handle].(prepared := prepared)];
    }

    /** The end of a share chain. */
    method DeviceSurface(handle: nat) returns (device: nat)
      requires Valid() && handle in surfaces
      ensures device in surfaces && surfaces[device].shared == 0
      ensures device == handle <==> surfaces[handle].shared == 0
    {
      device := handle;
      var m := ParentsOf(surfaces);
      ghost var steps: nat := 0;
      assert handle in m;
      ghost var bound: nat :| Up(m, handle, bound) == 0;
      while surfaces[device].shared != 0
        invariant device in surfaces && device == Up(m, handle, steps)
        invariant steps > 0 ==> device != handle
        invariant steps <= bound
        decreases bound - steps
      {
        assert SharesWithinHost(surfaces, device);
        UpAdds(m, handle, steps, 1);
        assert Up(m, device, 1) == surfaces[device].shared;
        device := surfaces[device].shared;
        steps := steps + 1;
        NoCycles(m, handle, steps);
        if steps > bound {
          UpBeyond(m, handle, bound, steps);
        }
      }
    }

    method Destroy(handle: nat, retained: set<nat>) returns (result: Result)
      requires Valid()
      modifies this
      ensures Valid()
      ensures result == InvalidHandle <==> handle !in old(surfaces)
      ensures result == Ok <==>
              && handle in old(surfaces) && (forall g :: g in old(surfaces) ==> old(surfaces)[g].shared != handle)
              && !old(surfaces)[handle].prepared && (handle in retained ==> old(surfaces)[handle].shared != 0)
      ensures result == Ok ==> surfaces == Without(old(surfaces), handle)
      ensures result == Ok ==>
                surfaces.Keys == old(surfaces).Keys - {handle} && SameButCounts(old(surfaces), surfaces)
      ensures result != Ok ==> surfaces == old(surfaces)
    {
      hide IsForest, CountsExact, SharingStaysInside, Dependents;
      DestroyableExactly(surfaces, retained, handle);
      if handle !in surfaces {
        return InvalidHandle;
      }
      if surfaces[handle].dependents != 0 {
        return InvalidRequest;
      }
      if surfaces[handle].prepared {
        return InvalidRequest;
      }
      var device := DeviceSurface(handle);
      if device == handle && handle in retained {
        return InvalidRequest;
      }
      WithoutIsConsistent(surfaces, handle);
      WithoutFrame(surfaces, handle);
      var parent := surfaces[handle].shared;
      if parent != 0 {
        surfaces := surfaces[parent := surfaces[parent].(dependents := surfaces[parent].dependents - 1)];
      }
      surfaces := surfaces - {handle};
      assert surfaces == Without(old(surfaces), handle);
      return Ok;
    }

    /** The shutdown loop: any leaf, in the map's own order, until none is left. */
    method Shutdown(retained: set<nat>)
      requires Valid()
      requires forall h :: h in surfaces ==> !Blocked(surfaces, retained, h)
      modifies this
      ensures surfaces == map[]
    {
      hide IsForest;
      while surfaces != map[]
        invariant Valid()
        invariant forall h :: h in surfaces ==> !Blocked(surfaces, retained, h)
        decreases |surfaces|
      {
        TableHasLeaf(surfaces);
        var leaf :| leaf in surfaces && surfaces[leaf].dependents == 0;
        WithoutFrame(surfaces, leaf);
        var result := Destroy(leaf, retained);
      }
    }

    /** The host loop: leaves of that host until none is left. */
    method DestroyHost(host: nat, retained: set<nat>)
      requires Valid()
      requires forall h :: h in surfaces && surfaces[h].host == host ==> !Blocked(surfaces, retained, h)
      modifies this
      ensures Valid()
      ensures surfaces == old(surfaces) - OfHost(old(surfaces), host).Keys
    {
      hide IsForest;
      while exists h :: h in surfaces && surfaces[h].host == host && surfaces[h].dependents == 0
        invariant Valid()
        invariant forall h :: h in surfaces && surfaces[h].host == host ==> !Blocked(surfaces, retained, h)
        invariant OnlyHostLeaves(old(surfaces), surfaces, host)
        decreases |surfaces|
      {
        var leaf :| leaf in surfaces && surfaces[leaf].host == host && surfaces[leaf].dependents == 0;
        WithoutFrame(surfaces, leaf);
        HostLeafLeaves(old(surfaces), surfaces, host, leaf);
        var result := Destroy(leaf, retained);
      }
      if any :| any in surfaces && surfaces[any].host == host {
        HostHasLeaf(surfaces, host, any);
      }
      AllHostLeft(old(surfaces), surfaces, host);
    }
  }

  /** Between two tables only surfaces of the host have gone, and the others are untouched. */
  ghost predicate OnlyHostLeaves(before: Table, now: Table, host: nat) {
    && (forall h :: h in before && before[h].host != host ==> h in now && now[h] == before[h])
    && (forall h :: h in now ==> h in before && now[h].host == before[h].host)
  }

  lemma HostLeafLeaves(before: Table, now: Table, host: nat, leaf: nat)
    requires OnlyHostLeaves(before, now, host) && Consistent(now)
    requires leaf in now && now[leaf].host == host && now[leaf].dependents == 0
    ensures OnlyHostLeaves(before, Without(now, leaf), host)
  {
    hide IsForest;
    WithoutFrame(now, leaf);
    var next := Without(now, leaf);
    forall h | h in next ensures next[h].host == now[h].host {
      assert next[h].(dependents := 0) == now[h].(dependents := 0);
      assert next[h].host == next[h].(dependents := 0).host;
    }
  }

  lemma AllHostLeft(before: Table, now: Table, host: nat)
    requires OnlyHostLeaves(before, now, host)
    requires forall h :: h in now ==> now[h].host != host
    ensures now == before - OfHost(before, host).Keys
  {
  }

  // ----- when the loops do not end -----

  /** The table after the loop body ran with these choices of leaf. */
  ghost function AfterBodies(t: Table, retained: set<nat>, choices: seq<nat>): Table {
    if choices == [] then t
    else
      var before := AfterBodies(t, retained, choices[..|choices| - 1]);
      var leaf := choices[|choices| - 1];
      if Destroyable(before, retained, leaf) then Without(before, leaf) else before
  }

  lemma {:induction false} BlockedSurvives(t: Table, retained: set<nat>, blocked: nat, choices: seq<nat>)
    requires Consistent(t) && Blocked(t, retained, blocked)
    ensures var after := AfterBodies(t, retained, choices);
            Consistent(after) && Blocked(after, retained, blocked) && after[blocked].host == t[blocked].host
  {
    hide IsForest;
    if choices != [] {
      BlockedSurvives(t, retained, blocked, choices[..|choices| - 1]);
      var before := AfterBodies(t, retained, choices[..|choices| - 1]);
      var leaf := choices[|choices| - 1];
      if Destroyable(before, retained, leaf) {
        WithoutIsConsistent(before, leaf);
      }
    }
  }

  /** A prepared frame or a retained device anywhere keeps the shutdown loop running for ever: after any
      number of rounds there still is a surface, and a leaf to try. Together with `Shutdown` this says
      exactly when shutdown ends. */
  lemma BlockedShutdownNeverEnds(t: Table, retained: set<nat>, blocked: nat, choices: seq<nat>)
    requires Consistent(t) && Blocked(t, retained, blocked)
    ensures var after := AfterBodies(t, retained, choices);
            after != map[] && exists h :: h in after && after[h].dependents == 0
  {
    hide IsForest;
    BlockedSurvives(t, retained, blocked, choices);
    assert blocked in AfterBodies(t, retained, choices);
    TableHasLeaf(AfterBodies(t, retained, choices));
  }

  /** The same on a host keeps its loop running: after any number of rounds the host still has a leaf, which is
      the loop's condition to go on. Together with `DestroyHost` this says exactly when that loop ends. */
  lemma BlockedHostNeverEnds(t: Table, retained: set<nat>, blocked: nat, choices: seq<nat>)
    requires Consistent(t) && Blocked(t, retained, blocked)
    ensures var after := AfterBodies(t, retained, choices);
            exists h :: h in after && after[h].host == t[blocked].host && after[h].dependents == 0
  {
    BlockedSurvives(t, retained, blocked, choices);
    HostHasLeaf(AfterBodies(t, retained, choices), t[blocked].host, blocked);
  }
}
