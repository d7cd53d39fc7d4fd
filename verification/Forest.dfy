/** Forests as parent maps: node to parent, 0 for a top-level node. */
module Forest {
  type Parents = map<nat, nat>

  predicate Distinct(s: seq<nat>) {
    forall i, j :: 0 <= i < j < |s| ==> s[i] != s[j]
  }

  /** The ancestor `k` levels above `n`; 0 once the walk has left the map. */
  function Up(m: Parents, n: nat, k: nat): nat
    decreases k
  {
    if k == 0 then n else if n in m then Up(m, m[n], k - 1) else 0
  }

  /** Every parent is a node or 0, and every walk upwards ends. */
  ghost predicate IsForest(m: Parents) {
    && 0 !in m
    && (forall n :: n in m ==> m[n] == 0 || m[n] in m)
    && (forall n :: n in m ==> exists k: nat :: Up(m, n, k) == 0)
  }

  /** `a` is `n` or above it. */
  ghost predicate Above(m: Parents, a: nat, n: nat) {
    exists k: nat :: Up(m, n, k) == a
  }

  lemma {:induction false} UpAdds(m: Parents, n: nat, j: nat, k: nat)
    requires n in m || n == 0
    requires 0 !in m && forall x :: x in m ==> m[x] == 0 || m[x] in m
    ensures Up(m, Up(m, n, j), k) == Up(m, n, j + k)
    decreases j
  {
    if j == 0 {
    } else if n == 0 {
      UpFromRoot(m, k);
    } else {
      UpAdds(m, m[n], j - 1, k);
    }
  }

  lemma {:induction false} UpFromRoot(m: Parents, k: nat)
    requires 0 !in m
    ensures Up(m, 0, k) == 0
  {
  }

  lemma UpBeyond(m: Parents, n: nat, d: nat, k: nat)
    requires IsForest(m) && n in m && Up(m, n, d) == 0 && d <= k
    ensures Up(m, n, k) == 0
  {
    UpAdds(m, n, d, k - d);
    UpFromRoot(m, k - d);
  }

  lemma {:induction false} UpStaysInside(m: Parents, n: nat, k: nat)
    requires 0 !in m && forall x :: x in m ==> m[x] == 0 || m[x] in m
    requires n in m || n == 0
    ensures Up(m, n, k) in m || Up(m, n, k) == 0
    decreases k
  {
    if k > 0 && n in m {
      UpStaysInside(m, m[n], k - 1);
    }
  }

  // ----- no cycles, and the pigeonhole bound -----

  lemma {:induction false} CyclesRepeat(m: Parents, a: nat, k: nat, times: nat)
    requires IsForest(m) && a in m && Up(m, a, k) == a
    ensures Up(m, a, k * times) == a
  {
    if times > 0 {
      CyclesRepeat(m, a, k, times - 1);
      UpAdds(m, a, k * (times - 1), k);
      assert k * (times - 1) + k == k * times;
    } else {
      assert k * 0 == 0;
    }
  }

  lemma NoCycles(m: Parents, a: nat, k: nat)
    requires IsForest(m) && a in m && k > 0
    ensures Up(m, a, k) != a
  {
    if Up(m, a, k) == a {
      var d: nat :| Up(m, a, d) == 0;
      CyclesRepeat(m, a, k, d);
      MulAtLeast(k, d);
      UpBeyond(m, a, d, k * d);
    }
  }

  lemma MulAtLeast(k: nat, d: nat)
    requires k > 0
    ensures k * d >= d
  {
  }

  /** The first `k` nodes of the walk from `n`. */
  function Walk(m: Parents, n: nat, k: nat): (r: set<nat>) {
    if k == 0 then {} else Walk(m, n, k - 1) + {Up(m, n, k - 1)}
  }

  lemma {:induction false} OnWalk(m: Parents, n: nat, k: nat, x: nat) returns (j: nat)
    requires x in Walk(m, n, k)
    ensures j < k && Up(m, n, j) == x
  {
    if x == Up(m, n, k - 1) {
      j := k - 1;
    } else {
      j := OnWalk(m, n, k - 1, x);
    }
  }

  lemma {:induction false} WalkIsDistinct(m: Parents, n: nat, k: nat)
    requires IsForest(m) && n in m && (k > 0 ==> Up(m, n, k - 1) != 0)
    ensures |Walk(m, n, k)| == k && Walk(m, n, k) <= m.Keys
  {
    if k > 0 {
      if k > 1 && Up(m, n, k - 2) == 0 {
        UpBeyond(m, n, k - 2, k - 1);
        assert false;
      }
      WalkIsDistinct(m, n, k - 1);
      var last := Up(m, n, k - 1);
      UpStaysInside(m, n, k - 1);
      if last in Walk(m, n, k - 1) {
        var j := OnWalk(m, n, k - 1, last);
        UpAdds(m, n, j, k - 1 - j);
        NoCycles(m, last, k - 1 - j);
      }
    }
  }

  /** A walk that has not ended after `k` steps has visited `k + 1` different nodes. */
  lemma WalkIsShort(m: Parents, n: nat, k: nat)
    requires IsForest(m) && n in m && Up(m, n, k) != 0
    ensures k + 1 <= |m|
  {
    WalkIsDistinct(m, n, k + 1);
    SubsetSize(Walk(m, n, k + 1), m.Keys);
  }

  lemma {:induction false} SubsetSize<T>(a: set<T>, b: set<T>)
    requires a <= b
    ensures |a| <= |b|
  {
    if a != {} {
      var x :| x in a;
      SubsetSize(a - {x}, b - {x});
    }
  }

  // ----- re-parenting -----

  /** Two maps that differ only at `id` agree on walks that do not pass it. */
  lemma {:induction false} SameUntil(m: Parents, m': Parents, id: nat, n: nat, k: nat)
    requires forall x :: x != id ==> (x in m <==> x in m') && (x in m ==> m[x] == m'[x])
    requires forall j: nat :: j < k ==> Up(m, n, j) != id
    ensures Up(m', n, k) == Up(m, n, k)
    decreases k
  {
    if k > 0 {
      assert Up(m, n, 0) != id;
      if n in m {
        forall j: nat | j < k - 1 ensures Up(m, m[n], j) != id {
          assert Up(m, n, j + 1) != id;
        }
        SameUntil(m, m', id, m[n], k - 1);
      }
    }
  }

  lemma {:induction false} FirstHit(m: Parents, n: nat, k: nat, id: nat) returns (j: nat)
    requires Up(m, n, k) == id
    ensures j <= k && Up(m, n, j) == id && forall i: nat :: i < j ==> Up(m, n, i) != id
  {
    if i: nat :| i < k && Up(m, n, i) == id {
      j := FirstHit(m, n, i, id);
    } else {
      j := k;
    }
  }

  /** Hanging `id` (new or old) under `parent` keeps a forest when `id` is not above `parent`. */
  lemma PlacedIsForest(m: Parents, id: nat, parent: nat)
    requires IsForest(m) && id != 0 && (parent == 0 || parent in m)
    requires !Above(m, id, parent)
    ensures IsForest(m[id := parent])
  {
    var m' := m[id := parent];
    var kp: nat :| Up(m, parent, kp) == 0;
    SameUntil(m, m', id, parent, kp);
    forall n | n in m' ensures exists k: nat :: Up(m', n, k) == 0 {
      if j: nat :| Up(m, n, j) == id {
        var i := FirstHit(m, n, j, id);
        SameUntil(m, m', id, n, i);
        assert Up(m', id, kp + 1) == 0;
        UpAdds(m', n, i, kp + 1);
      } else {
        assert n != id by { assert Up(m, n, 0) == n; }
        var k: nat :| Up(m, n, k) == 0;
        SameUntil(m, m', id, n, k);
      }
    }
  }

  /** ... and makes a cycle when it is. */
  lemma PlacedAboveIsNoForest(m: Parents, id: nat, parent: nat)
    requires IsForest(m) && id != 0 && parent in m && Above(m, id, parent)
    ensures !IsForest(m[id := parent])
  {
    var m' := m[id := parent];
    var k: nat :| Up(m, parent, k) == id;
    var j := FirstHit(m, parent, k, id);
    SameUntil(m, m', id, parent, j);
    if IsForest(m') {
      assert Up(m', id, j + 1) == id;
      NoCycles(m', id, j + 1);
    }
  }

  // ----- removing subtrees -----

  ghost function Subtree(m: Parents, top: nat): set<nat> {
    set n | n in m && Above(m, top, n)
  }

  lemma {:induction false} WalkSurvives(m: Parents, gone: set<nat>, n: nat, k: nat)
    requires forall x :: x in m && x !in gone && m[x] in m ==> m[x] !in gone
    requires n !in gone
    ensures Up(m - gone, n, k) == Up(m, n, k)
    decreases k
  {
    if k > 0 && n in m {
      if m[n] in m {
        WalkSurvives(m, gone, m[n], k - 1);
      } else if k > 1 {
        assert m[n] !in m - gone;
      }
    }
  }

  lemma SubtreeIsClosed(m: Parents, top: nat)
    requires IsForest(m)
    ensures forall x :: x in m && m[x] in Subtree(m, top) ==> x in Subtree(m, top)
  {
    forall x | x in m && m[x] in Subtree(m, top) ensures x in Subtree(m, top) {
      var k: nat :| Up(m, m[x], k) == top;
      assert Up(m, x, k + 1) == top;
    }
  }

  lemma RemovedIsForest(m: Parents, top: nat)
    requires IsForest(m)
    ensures IsForest(m - Subtree(m, top))
  {
    SubtreeIsClosed(m, top);
    var gone := Subtree(m, top);
    forall n | n in m - gone ensures exists k: nat :: Up(m - gone, n, k) == 0 {
      var k: nat :| Up(m, n, k) == 0;
      WalkSurvives(m, gone, n, k);
    }
  }

  // ----- leaves -----

  ghost predicate HasChild(m: Parents, n: nat) {
    exists c :: c in m && m[c] == n
  }

  ghost predicate IsLeaf(m: Parents, n: nat) {
    n in m && !HasChild(m, n)
  }

  lemma {:induction false} DeepNode(m: Parents, k: nat) returns (n: nat)
    requires m != map[] && forall x :: x in m ==> HasChild(m, x)
    ensures n in m && Up(m, n, k) in m
  {
    if k == 0 {
      n :| n in m;
    } else {
      var above := DeepNode(m, k - 1);
      assert HasChild(m, above);
      n :| n in m && m[n] == above;
    }
  }

  /** Every non-empty forest has a leaf. */
  lemma HasLeaf(m: Parents)
    requires IsForest(m) && m != map[]
    ensures exists n :: IsLeaf(m, n)
  {
    if forall n :: !IsLeaf(m, n) {
      forall x | x in m ensures HasChild(m, x) {
        assert !IsLeaf(m, x);
      }
      var n := DeepNode(m, |m|);
      WalkIsShort(m, n, |m|);
    }
  }
}
