/**
  * The value of a point quadtree (quadtree/src/quadtree.rs) and the pure
  * specification of its operations. The class in quadtree.dfy updates a tree
  * in place and is proved to follow these functions; the lemmas here state
  * what those operations guarantee.
  *
  * Recursion depth: over exact reals the source's `insert` and `subdivide`
  * can recurse without a bound, but only when a full leaf whose particles
  * all share one position is offered another particle at that position, or
  * when the capacity is 0. Even then the descent stops where the position
  * lies on a center line of the node that subdivides (see `CoincidentLost`). Here every insertion carries `fuel`, the number of
  * levels it may still descend; a full node reached with no fuel left drops
  * the particle.
  */
module TreeModel {
  import opened Geometry

  /** The only thing the tree uses of a particle is its position. */
  datatype Particle = Particle(position: Vec2, velocity: Vec2)

  /**
    * One `QuadTree` node: its own particles, its children (`[]` for `None`,
    * otherwise four subtrees in quadrant order), its capacity and its bounds.
    */
  datatype Tree = Node(points: seq<Particle>, children: seq<Tree>, capacity: nat, bounds: BoundingBox)

  /*
   * Selecting particles
   */

  /** The particles of `s` strictly inside `range`, in their original order. */
  function Within(s: seq<Particle>, range: BoundingBox): (r: seq<Particle>)
    ensures |r| <= |s|
  {
    if s == [] then []
    else
      assert s == s[..|s| - 1] + [s[|s| - 1]];
      var init := Within(s[..|s| - 1], range);
      if range.Contains(s[|s| - 1].position) then init + [s[|s| - 1]] else init
  }

  /** The particles of `s` lying on neither center line of `b`, in their original order. */
  function OffCenterLines(s: seq<Particle>, b: BoundingBox): (r: seq<Particle>)
    ensures |r| <= |s|
  {
    if s == [] then []
    else
      assert s == s[..|s| - 1] + [s[|s| - 1]];
      var init := OffCenterLines(s[..|s| - 1], b);
      var x := s[|s| - 1];
      if x.position.x != b.Center().x && x.position.y != b.Center().y then init + [x] else init
  }

  /** `Within` selects particles of `s` only, never more often than they occur. */
  lemma {:induction false} WithinSubMultiset(s: seq<Particle>, range: BoundingBox)
    ensures multiset(Within(s, range)) <= multiset(s)
    decreases |s|
  {
    if s != [] {
      var init := s[..|s| - 1];
      assert s == init + [s[|s| - 1]];
      WithinSubMultiset(init, range);
    }
  }

  /** `Within` keeps every copy of a particle inside the range and drops every copy of one outside it. */
  lemma {:induction false} WithinCount(s: seq<Particle>, range: BoundingBox, x: Particle)
    ensures multiset(Within(s, range))[x] == if range.Contains(x.position) then multiset(s)[x] else 0
    decreases |s|
  {
    if s != [] {
      var init := s[..|s| - 1];
      assert s == init + [s[|s| - 1]];
      WithinCount(init, range, x);
    }
  }

  /** `OffCenterLines` selects particles of `s` only, never more often than they occur. */
  lemma {:induction false} OffCenterLinesSubMultiset(s: seq<Particle>, b: BoundingBox)
    ensures multiset(OffCenterLines(s, b)) <= multiset(s)
    decreases |s|
  {
    if s != [] {
      var init := s[..|s| - 1];
      assert s == init + [s[|s| - 1]];
      OffCenterLinesSubMultiset(init, b);
    }
  }

  /** Every particle `Within` selects is strictly inside the range. */
  lemma {:induction false} WithinInside(s: seq<Particle>, range: BoundingBox)
    ensures forall x :: x in Within(s, range) ==> range.Contains(x.position)
    decreases |s|
  {
    if s != [] {
      WithinInside(s[..|s| - 1], range);
    }
  }

  /** `Within` misses no particle strictly inside the range. */
  lemma {:induction false} WithinComplete(s: seq<Particle>, range: BoundingBox)
    ensures forall x :: x in s && range.Contains(x.position) ==> x in Within(s, range)
    decreases |s|
  {
    if s != [] {
      var init := s[..|s| - 1];
      assert s == init + [s[|s| - 1]];
      WithinComplete(init, range);
    }
  }

  /** When every particle is inside the range, `Within` keeps them all. */
  lemma {:induction false} WithinAll(s: seq<Particle>, range: BoundingBox)
    requires forall x :: x in s ==> range.Contains(x.position)
    ensures Within(s, range) == s
    decreases |s|
  {
    if s != [] {
      var init := s[..|s| - 1];
      assert s == init + [s[|s| - 1]];
      WithinAll(init, range);
    }
  }

  /** When no particle is inside the range, `Within` selects nothing. */
  lemma {:induction false} WithinNone(s: seq<Particle>, range: BoundingBox)
    requires forall x :: x in s ==> !range.Contains(x.position)
    ensures Within(s, range) == []
    decreases |s|
  {
    if s != [] {
      var init := s[..|s| - 1];
      assert s == init + [s[|s| - 1]];
      WithinNone(init, range);
    }
  }

  /** Extending a sequence by one particle extends its part inside `range` by that particle, if it is inside. */
  lemma WithinSnoc(s: seq<Particle>, x: Particle, range: BoundingBox)
    ensures Within(s + [x], range) == if range.Contains(x.position) then Within(s, range) + [x] else Within(s, range)
  {
    assert (s + [x])[..|s + [x]| - 1] == s;
  }

  /** Extending a sequence by one particle extends its part off the center lines by that particle, if it is off them. */
  lemma OffCenterLinesSnoc(s: seq<Particle>, x: Particle, b: BoundingBox)
    ensures OffCenterLines(s + [x], b)
         == if x.position.x != b.Center().x && x.position.y != b.Center().y
            then OffCenterLines(s, b) + [x] else OffCenterLines(s, b)
  {
    assert (s + [x])[..|s + [x]| - 1] == s;
  }

  /** The part inside `range` of the first `k + 1` particles extends that of the first `k`. */
  lemma WithinStep(s: seq<Particle>, k: nat, range: BoundingBox)
    requires k < |s|
    ensures Within(s[..k + 1], range)
         == if range.Contains(s[k].position) then Within(s[..k], range) + [s[k]] else Within(s[..k], range)
  {
    assert s[..k + 1] == s[..k] + [s[k]];
    WithinSnoc(s[..k], s[k], range);
  }

  /** Taking the particles inside `range` distributes over concatenation. */
  lemma {:induction false} WithinConcat(a: seq<Particle>, b: seq<Particle>, range: BoundingBox)
    ensures Within(a + b, range) == Within(a, range) + Within(b, range)
    decreases |b|
  {
    if b == [] {
      assert a + b == a;
    } else {
      var init, last := b[..|b| - 1], b[|b| - 1];
      var tail := if range.Contains(last.position) then [last] else [];
      assert Within(a + b, range) == Within(a + init, range) + tail by {
        assert a + b == (a + init) + [last];
        WithinSnoc(a + init, last, range);
      }
      assert Within(b, range) == Within(init, range) + tail by {
        assert b == init + [last];
        WithinSnoc(init, last, range);
      }
      WithinConcat(a, init, range);
      var x, y := Within(a, range), Within(init, range);
      assert (x + y) + tail == x + (y + tail);
    }
  }

  /*
   * Traversal order
   */

  /** Every particle stored in `t`, in pre-order: the node's own list, then children 0 to 3. */
  function Elements(t: Tree): seq<Particle>
    decreases t, 1
  {
    t.points + ElementsOf(t.children)
  }

  /** The particles stored in a list of subtrees, subtree by subtree. */
  function ElementsOf(kids: seq<Tree>): seq<Particle>
    decreases kids, 0
  {
    if kids == [] then [] else ElementsOf(kids[..|kids| - 1]) + Elements(kids[|kids| - 1])
  }

  /*
   * The invariant
   */

  /**
    * What every node reached from `QuadTree::build` keeps: its own list holds
    * at most `capacity` particles, each strictly inside its bounds; it has no
    * children or four, which carry the same capacity and whose bounds are the
    * node's quadrants in order; and the same holds of every child.
    */
  ghost predicate Inv(t: Tree)
    decreases t
  {
    |t.points| <= t.capacity
    && (forall q :: q in t.points ==> t.bounds.Contains(q.position))
    && (|t.children| == 0 || |t.children| == 4)
    && forall i :: 0 <= i < |t.children| ==>
         t.children[i].bounds == t.bounds.SplitQuadrants()[i]
         && t.children[i].capacity == t.capacity
         && Inv(t.children[i])
  }

  /*
   * Operations
   */

  /** `QuadTree::build`: an empty node with no children. */
  function Build(capacity: nat, bounds: BoundingBox): (t: Tree)
    ensures t.points == [] && t.children == []
    ensures Inv(t) && Elements(t) == []
    ensures t.capacity == capacity && t.bounds == bounds
  {
    Node([], [], capacity, bounds)
  }

  /** `QuadTree::clear_tree`: drops the node's own list and all children. */
  function Clear(t: Tree): (r: Tree)
    ensures r.points == [] && r.children == []
    ensures Inv(r) && Elements(r) == []
    ensures r.capacity == t.capacity && r.bounds == t.bounds
  {
    t.(points := [], children := [])
  }

  /**
    * `QuadTree::insert`: a particle outside the bounds is ignored; a node with
    * room appends it to its own list; a full node first subdivides if it has
    * no children, then offers the particle to all four children.
    */
  function Insert(t: Tree, p: Particle, fuel: nat): (r: Tree)
    ensures r.bounds == t.bounds && r.capacity == t.capacity
    decreases fuel, 3
  {
    if !t.bounds.Contains(p.position) then t
    else if |t.points| < t.capacity then t.(points := t.points + [p])
    else if fuel == 0 then t
    else
      var s := if t.children == [] then Subdivide(t, fuel) else t;
      s.(children := InsertEach(s.children, p, fuel - 1))
  }

  /**
    * `QuadTree::subdivide`: creates four empty children over the quadrants,
    * offers each of the node's particles to all four, then empties the
    * node's own list.
    */
  function Subdivide(t: Tree, fuel: nat): (r: Tree)
    requires fuel >= 1
    ensures r.points == [] && r.bounds == t.bounds && r.capacity == t.capacity
    ensures |r.children| == 4
    decreases fuel, 2
  {
    t.(points := [], children := Reinsert(EmptyQuadrants(t.capacity, t.bounds), t.points, fuel - 1))
  }

  /** The four childless, empty nodes over the quadrants of `b`, in quadrant order. */
  function EmptyQuadrants(capacity: nat, b: BoundingBox): (r: seq<Tree>)
    ensures |r| == 4
    ensures forall i :: 0 <= i < 4 ==> r[i] == Build(capacity, b.SplitQuadrants()[i])
  {
    var q := b.SplitQuadrants();
    [Build(capacity, q[0]), Build(capacity, q[1]), Build(capacity, q[2]), Build(capacity, q[3])]
  }

  /** Offers the particles `ps`, in order, to every subtree of `kids`. */
  function Reinsert(kids: seq<Tree>, ps: seq<Particle>, fuel: nat): (r: seq<Tree>)
    ensures |r| == |kids|
    decreases fuel + 1, 1, |ps|
  {
    if ps == [] then kids
    else InsertEach(Reinsert(kids, ps[..|ps| - 1], fuel), ps[|ps| - 1], fuel)
  }

  /** Offers `p` to every subtree of `kids`. */
  function InsertEach(kids: seq<Tree>, p: Particle, fuel: nat): (r: seq<Tree>)
    ensures |r| == |kids|
    decreases fuel + 1, 0
  {
    seq(|kids|, i requires 0 <= i < |kids| => Insert(kids[i], p, fuel))
  }

  /** Inserts the particles `ps` one after another. */
  function InsertAll(t: Tree, ps: seq<Particle>, fuel: nat): (r: Tree)
    ensures r.bounds == t.bounds && r.capacity == t.capacity
    decreases |ps|
  {
    if ps == [] then t else Insert(InsertAll(t, ps[..|ps| - 1], fuel), ps[|ps| - 1], fuel)
  }

  /** Inserting one more particle after a sequence inserts it into the tree the sequence built. */
  lemma InsertAllSnoc(t: Tree, ps: seq<Particle>, x: Particle, fuel: nat)
    ensures InsertAll(t, ps + [x], fuel) == Insert(InsertAll(t, ps, fuel), x, fuel)
  {
    assert (ps + [x])[..|ps|] == ps;
  }

  /** `QuadTree::init_tree`: clears the tree, then inserts the particles in slice order. */
  function InitTree(t: Tree, ps: seq<Particle>, fuel: nat): (r: Tree)
    ensures Inv(r) && r.bounds == t.bounds && r.capacity == t.capacity
  {
    InsertAllInv(Clear(t), ps, fuel);
    InsertAll(Clear(t), ps, fuel)
  }

  /**
    * `QuadTree::query_range`: nothing from a node whose bounds miss the range;
    * otherwise the node's own particles strictly inside the range, then the
    * results of children 0 to 3.
    */
  function Query(t: Tree, range: BoundingBox): (r: seq<Particle>)
    ensures forall x :: x in r ==> range.Contains(x.position)
    decreases t, 1
  {
    if !t.bounds.Overlaps(range) then []
    else
      WithinInside(t.points, range);
      Within(t.points, range) + QueryOf(t.children, range)
  }

  /** The query results of a list of subtrees, subtree by subtree. */
  function QueryOf(kids: seq<Tree>, range: BoundingBox): (r: seq<Particle>)
    ensures forall x :: x in r ==> range.Contains(x.position)
    decreases kids, 0
  {
    if kids == [] then [] else QueryOf(kids[..|kids| - 1], range) + Query(kids[|kids| - 1], range)
  }

  /** The query results of the first `i + 1` subtrees extend those of the first `i`. */
  lemma QueryOfStep(kids: seq<Tree>, i: nat, range: BoundingBox)
    requires i < |kids|
    ensures QueryOf(kids[..i + 1], range) == QueryOf(kids[..i], range) + Query(kids[i], range)
  {
    assert kids[..i + 1][..i] == kids[..i];
  }

  /*
   * Subdivision
   */

  /**
    * Four childless nodes over the quadrants `q`, each holding, in order, the
    * particles of `ps` strictly inside its quadrant.
    */
  function Leaves(capacity: nat, q: seq<BoundingBox>, ps: seq<Particle>): seq<Tree>
    requires |q| == 4
  {
    seq(4, i requires 0 <= i < 4 => Node(Within(ps, q[i]), [], capacity, q[i]))
  }

  /** The children a subdivision of `t` ends with. */
  function QuadrantLeaves(t: Tree): seq<Tree>
  {
    Leaves(t.capacity, t.bounds.SplitQuadrants(), t.points)
  }

  /** Offering one more particle to leaves that still have room appends it where it fits. */
  lemma LeavesStep(capacity: nat, q: seq<BoundingBox>, init: seq<Particle>, last: Particle, fuel: nat)
    requires |q| == 4 && |init| < capacity
    ensures InsertEach(Leaves(capacity, q, init), last, fuel) == Leaves(capacity, q, init + [last])
  {
    var a := InsertEach(Leaves(capacity, q, init), last, fuel);
    var b := Leaves(capacity, q, init + [last]);
    forall i | 0 <= i < 4
      ensures a[i] == b[i]
    {
      var leaf := Leaves(capacity, q, init)[i];
      assert leaf == Node(Within(init, q[i]), [], capacity, q[i]);
      assert |leaf.points| < leaf.capacity;
      assert a[i] == Insert(leaf, last, fuel);
      WithinSnoc(init, last, q[i]);
      assert b[i] == Node(Within(init + [last], q[i]), [], capacity, q[i]);
    }
  }

  /**
    * Reinserting at most `capacity` particles into four fresh children never
    * fills one past its room, so each child simply collects the particles
    * inside its quadrant and none subdivides.
    */
  lemma {:induction false} ReinsertCollects(capacity: nat, b: BoundingBox, ps: seq<Particle>, fuel: nat)
    requires |ps| <= capacity
    ensures Reinsert(EmptyQuadrants(capacity, b), ps, fuel) == Leaves(capacity, b.SplitQuadrants(), ps)
    decreases |ps|
  {
    var q := b.SplitQuadrants();
    if ps == [] {
      var l := Leaves(capacity, q, ps);
      assert forall i :: 0 <= i < 4 ==> EmptyQuadrants(capacity, b)[i] == l[i];
    } else {
      var init, last := ps[..|ps| - 1], ps[|ps| - 1];
      ReinsertCollects(capacity, b, init, fuel);
      LeavesStep(capacity, q, init, last, fuel);
      assert init + [last] == ps;
    }
  }

  /**
    * Subdividing a node that holds at most `capacity` particles leaves its
    * own list empty and gives it exactly the quadrant leaves; the fuel is
    * never used.
    */
  lemma {:induction false} SubdivideExact(t: Tree, fuel: nat)
    requires fuel >= 1 && |t.points| <= t.capacity
    ensures Subdivide(t, fuel) == t.(points := [], children := QuadrantLeaves(t))
  {
    ReinsertCollects(t.capacity, t.bounds, t.points, fuel - 1);
  }

  /** The particles of the four quadrant leaves, quadrant by quadrant. */
  lemma QuadrantLeavesElements(t: Tree)
    ensures ElementsOf(QuadrantLeaves(t))
         == Within(t.points, t.bounds.SplitQuadrants()[0]) + Within(t.points, t.bounds.SplitQuadrants()[1])
          + Within(t.points, t.bounds.SplitQuadrants()[2]) + Within(t.points, t.bounds.SplitQuadrants()[3])
  {
    var k := QuadrantLeaves(t);
    var q := t.bounds.SplitQuadrants();
    assert forall i :: 0 <= i < 4 ==> Elements(k[i]) == Within(t.points, q[i]);
    assert ElementsOf(k[..1]) == Elements(k[0]) by {
      assert k[..1][..0] == [];
    }
    assert ElementsOf(k[..2]) == ElementsOf(k[..1]) + Elements(k[1]) by {
      assert k[..2][..1] == k[..1];
    }
    assert ElementsOf(k[..3]) == ElementsOf(k[..2]) + Elements(k[2]) by {
      assert k[..3][..2] == k[..2];
    }
    assert ElementsOf(k) == ElementsOf(k[..3]) + Elements(k[3]);
  }

  /** The particles of `ps` inside each quadrant of `b`, counted quadrant by quadrant. */
  ghost function QuadrantParts(ps: seq<Particle>, b: BoundingBox): multiset<Particle>
  {
    var q := b.SplitQuadrants();
    multiset(Within(ps, q[0])) + multiset(Within(ps, q[1])) + multiset(Within(ps, q[2])) + multiset(Within(ps, q[3]))
  }

  /** One more particle of `b` is counted once if it is off both center lines, and not at all otherwise. */
  lemma QuadrantPartsStep(init: seq<Particle>, last: Particle, b: BoundingBox)
    requires b.Contains(last.position)
    ensures QuadrantParts(init + [last], b)
         == if last.position.x != b.Center().x && last.position.y != b.Center().y
            then QuadrantParts(init, b) + multiset{last} else QuadrantParts(init, b)
  {
    var q := b.SplitQuadrants();
    WithinSnoc(init, last, q[0]);
    WithinSnoc(init, last, q[1]);
    WithinSnoc(init, last, q[2]);
    WithinSnoc(init, last, q[3]);
    QuadrantSides(b, last.position);
  }

  /**
    * Each particle strictly inside `b` lands in exactly one quadrant unless it
    * lies on a center line, where it lands in none.
    */
  lemma {:induction false} QuadrantsPartition(ps: seq<Particle>, b: BoundingBox)
    requires forall q :: q in ps ==> b.Contains(q.position)
    ensures QuadrantParts(ps, b) == multiset(OffCenterLines(ps, b))
    decreases |ps|
  {
    if ps != [] {
      var init, last := ps[..|ps| - 1], ps[|ps| - 1];
      assert ps == init + [last];
      assert forall x :: x in init ==> x in ps;
      QuadrantsPartition(init, b);
      QuadrantPartsStep(init, last, b);
      OffCenterLinesSnoc(init, last, b);
    }
  }

  /**
    * `subdivide` never duplicates a particle: it keeps exactly the old
    * particles that are off the new center lines, and the node's own list
    * ends empty.
    */
  lemma SubdivideKeepsOffCenter(t: Tree, fuel: nat)
    requires fuel >= 1 && Inv(t) && t.children == []
    ensures Subdivide(t, fuel).points == []
    ensures multiset(Elements(Subdivide(t, fuel))) == multiset(OffCenterLines(t.points, t.bounds))
  {
    SubdivideExact(t, fuel);
    QuadrantLeavesOffCenter(t);
  }

  /** The quadrant leaves of a node hold, together, exactly its particles off the center lines. */
  lemma QuadrantLeavesOffCenter(t: Tree)
    requires forall q :: q in t.points ==> t.bounds.Contains(q.position)
    ensures multiset(ElementsOf(QuadrantLeaves(t))) == multiset(OffCenterLines(t.points, t.bounds))
  {
    QuadrantLeavesElements(t);
    QuadrantsPartition(t.points, t.bounds);
  }

  /*
   * Insertion keeps the invariant
   */

  /** A particle outside the node's bounds leaves the whole tree unchanged. */
  lemma InsertOutside(t: Tree, p: Particle, fuel: nat)
    requires !t.bounds.Contains(p.position)
    ensures Insert(t, p, fuel) == t
  {
  }

  /** The subdivided node keeps the invariant. */
  lemma SubdivideInv(t: Tree, fuel: nat)
    requires fuel >= 1 && Inv(t)
    ensures Inv(Subdivide(t, fuel))
    ensures |Subdivide(t, fuel).children| == 4
  {
    SubdivideExact(t, fuel);
    var s := Subdivide(t, fuel);
    var q := t.bounds.SplitQuadrants();
    forall i | 0 <= i < 4
      ensures Inv(s.children[i])
    {
      WithinInside(t.points, q[i]);
    }
  }

  /**
    * `insert` keeps the invariant (capacity per node, particles inside their
    * node, children are the quadrants), keeps bounds and capacity, and never
    * removes children.
    */
  lemma {:induction false} InsertInv(t: Tree, p: Particle, fuel: nat)
    requires Inv(t)
    ensures Inv(Insert(t, p, fuel))
    ensures Insert(t, p, fuel).bounds == t.bounds && Insert(t, p, fuel).capacity == t.capacity
    ensures |t.children| <= |Insert(t, p, fuel).children|
    decreases fuel
  {
    if t.bounds.Contains(p.position) && |t.points| >= t.capacity && fuel > 0 {
      var s := if t.children == [] then Subdivide(t, fuel) else t;
      if t.children == [] {
        SubdivideInv(t, fuel);
      }
      var kids := InsertEach(s.children, p, fuel - 1);
      forall i | 0 <= i < |kids|
        ensures Inv(kids[i]) && kids[i].bounds == s.children[i].bounds && kids[i].capacity == s.children[i].capacity
      {
        InsertInv(s.children[i], p, fuel - 1);
      }
    }
  }

  /** Inserting a sequence of particles keeps the invariant, the bounds and the capacity. */
  lemma {:induction false} InsertAllInv(t: Tree, ps: seq<Particle>, fuel: nat)
    requires Inv(t)
    ensures Inv(InsertAll(t, ps, fuel))
    ensures InsertAll(t, ps, fuel).bounds == t.bounds && InsertAll(t, ps, fuel).capacity == t.capacity
    decreases |ps|
  {
    if ps != [] {
      InsertAllInv(t, ps[..|ps| - 1], fuel);
      InsertInv(InsertAll(t, ps[..|ps| - 1], fuel), ps[|ps| - 1], fuel);
    }
  }

  /*
   * Insertion never duplicates a particle
   */

  /** A particle of a list of subtrees is a particle of one of them. */
  lemma {:induction false} ElementsOfMember(kids: seq<Tree>, x: Particle)
    requires x in ElementsOf(kids)
    ensures exists i :: 0 <= i < |kids| && x in Elements(kids[i])
    decreases |kids|
  {
    var init := kids[..|kids| - 1];
    if x !in Elements(kids[|kids| - 1]) {
      ElementsOfMember(init, x);
      var i :| 0 <= i < |init| && x in Elements(init[i]);
      assert kids[i] == init[i];
    }
  }

  /** No point lies strictly inside two children of a node. */
  lemma ChildrenExclusive(t: Tree, x: Vec2)
    requires Inv(t)
    ensures forall i, j :: 0 <= i < |t.children| && 0 <= j < |t.children| && i != j ==>
      !(t.children[i].bounds.Contains(x) && t.children[j].bounds.Contains(x))
  {
    QuadrantsDisjoint(t.bounds);
    forall i, j | 0 <= i < |t.children| && 0 <= j < |t.children| && i != j
      ensures !(t.children[i].bounds.Contains(x) && t.children[j].bounds.Contains(x))
    {
      if t.children[i].bounds.Contains(x) && t.children[j].bounds.Contains(x) {
        CommonPointOverlap(t.children[i].bounds, t.children[j].bounds, x);
      }
    }
  }

  /** Subdividing a leaf keeps the invariant and adds no particle. */
  lemma SubdivideElements(t: Tree, fuel: nat)
    requires fuel >= 1 && Inv(t) && t.children == []
    ensures Inv(Subdivide(t, fuel))
    ensures multiset(Elements(Subdivide(t, fuel))) <= multiset(Elements(t))
  {
    SubdivideInv(t, fuel);
    SubdivideKeepsOffCenter(t, fuel);
    OffCenterLinesSubMultiset(t.points, t.bounds);
    assert Elements(t) == t.points;
  }

  /** `insert` adds at most the one particle it is given. */
  lemma {:induction false} InsertElements(t: Tree, p: Particle, fuel: nat)
    requires Inv(t)
    ensures multiset(Elements(Insert(t, p, fuel))) <= multiset(Elements(t)) + multiset{p}
    decreases fuel, 1
  {
    if t.bounds.Contains(p.position) && |t.points| >= t.capacity && fuel > 0 {
      var s := if t.children == [] then Subdivide(t, fuel) else t;
      if t.children == [] {
        SubdivideElements(t, fuel);
      }
      assert Inv(s) && multiset(Elements(s)) <= multiset(Elements(t));
      assert Insert(t, p, fuel) == s.(children := InsertEach(s.children, p, fuel - 1));
      OfferToChildrenElements(s, p, fuel - 1);
    }
  }

  /** Offering `p` to all children of a node that keeps the invariant adds at most `p`. */
  lemma OfferToChildrenElements(s: Tree, p: Particle, fuel: nat)
    requires Inv(s)
    ensures multiset(Elements(s.(children := InsertEach(s.children, p, fuel)))) <= multiset(Elements(s)) + multiset{p}
    decreases fuel + 1, 0, |s.children| + 1
  {
    ChildrenExclusive(s, p.position);
    InsertEachElements(s.children, p, fuel);
    assert Elements(s.(children := InsertEach(s.children, p, fuel))) == s.points + ElementsOf(InsertEach(s.children, p, fuel));
  }

  /** Offering `p` to subtrees none of which contains it changes nothing. */
  lemma InsertEachMissed(kids: seq<Tree>, p: Particle, fuel: nat)
    requires forall i :: 0 <= i < |kids| ==> !kids[i].bounds.Contains(p.position)
    ensures InsertEach(kids, p, fuel) == kids
  {
  }

  /** Offering `p` to subtrees at most one of which contains it adds at most `p`. */
  lemma {:induction false} InsertEachElements(kids: seq<Tree>, p: Particle, fuel: nat)
    requires forall i :: 0 <= i < |kids| ==> Inv(kids[i])
    requires forall i, j :: 0 <= i < |kids| && 0 <= j < |kids| && i != j ==>
      !(kids[i].bounds.Contains(p.position) && kids[j].bounds.Contains(p.position))
    ensures multiset(ElementsOf(InsertEach(kids, p, fuel))) <= multiset(ElementsOf(kids)) + multiset{p}
    decreases fuel + 1, 0, |kids|
  {
    if kids != [] {
      var r := InsertEach(kids, p, fuel);
      var n := |kids|;
      var init, last := kids[..n - 1], kids[n - 1];
      var before, after := ElementsOf(init), Elements(Insert(last, p, fuel));
      assert ElementsOf(r) == ElementsOf(InsertEach(init, p, fuel)) + after by {
        assert r[..n - 1] == InsertEach(init, p, fuel);
      }
      assert ElementsOf(kids) == before + Elements(last);
      if last.bounds.Contains(p.position) {
        assert InsertEach(init, p, fuel) == init by {
          forall i | 0 <= i < |init|
            ensures !init[i].bounds.Contains(p.position)
          {
            assert init[i] == kids[i];
          }
          InsertEachMissed(init, p, fuel);
        }
        InsertElements(last, p, fuel);
      } else {
        assert after == Elements(last);
        InsertEachElements(init, p, fuel);
      }
    }
  }

  /** Inserting a sequence of particles adds at most those particles. */
  lemma {:induction false} InsertAllElements(t: Tree, ps: seq<Particle>, fuel: nat)
    requires Inv(t)
    ensures multiset(Elements(InsertAll(t, ps, fuel))) <= multiset(Elements(t)) + multiset(ps)
    decreases |ps|
  {
    if ps != [] {
      var init := ps[..|ps| - 1];
      assert ps == init + [ps[|ps| - 1]];
      InsertAllElements(t, init, fuel);
      InsertAllInv(t, init, fuel);
      InsertElements(InsertAll(t, init, fuel), ps[|ps| - 1], fuel);
    }
  }

  /*
   * Range queries
   */

  /** Every particle stored in a tree lies strictly inside the root's bounds. */
  lemma {:induction false} ElementsInBounds(t: Tree)
    requires Inv(t)
    ensures forall x :: x in Elements(t) ==> t.bounds.Contains(x.position)
    decreases t
  {
    forall x | x in Elements(t)
      ensures t.bounds.Contains(x.position)
    {
      if x !in t.points {
        ElementsOfMember(t.children, x);
        var i :| 0 <= i < |t.children| && x in Elements(t.children[i]);
        ElementsInBounds(t.children[i]);
        QuadrantInParent(t.bounds, i, x.position);
      }
    }
  }

  /**
    * Soundness and completeness of `query_range`: it returns exactly the
    * stored particles strictly inside the range, in pre-order; pruning the
    * subtrees whose bounds miss the range loses nothing.
    */
  lemma {:induction false} QueryExact(t: Tree, range: BoundingBox)
    requires Inv(t)
    ensures Query(t, range) == Within(Elements(t), range)
    decreases t, 1
  {
    if !t.bounds.Overlaps(range) {
      ElementsInBounds(t);
      forall x | x in Elements(t)
        ensures !range.Contains(x.position)
      {
        if range.Contains(x.position) {
          CommonPointOverlap(t.bounds, range, x.position);
        }
      }
      WithinNone(Elements(t), range);
    } else {
      QueryOfExact(t.children, range);
      WithinConcat(t.points, ElementsOf(t.children), range);
    }
  }

  /** `QueryExact` for a list of subtrees. */
  lemma {:induction false} QueryOfExact(kids: seq<Tree>, range: BoundingBox)
    requires forall i :: 0 <= i < |kids| ==> Inv(kids[i])
    ensures QueryOf(kids, range) == Within(ElementsOf(kids), range)
    decreases kids, 0
  {
    if kids != [] {
      var init := kids[..|kids| - 1];
      QueryOfExact(init, range);
      QueryExact(kids[|kids| - 1], range);
      WithinConcat(ElementsOf(init), Elements(kids[|kids| - 1]), range);
    }
  }

  /** A query over the root's own bounds returns every stored particle. */
  lemma QueryWholeTree(t: Tree)
    requires Inv(t)
    ensures Query(t, t.bounds) == Elements(t)
  {
    QueryExact(t, t.bounds);
    ElementsInBounds(t);
    WithinAll(Elements(t), t.bounds);
  }

  /**
    * A particle is reported by a query exactly when it is stored in the tree
    * and lies strictly inside the range.
    */
  lemma QuerySoundComplete(t: Tree, range: BoundingBox, x: Particle)
    requires Inv(t)
    ensures x in Query(t, range) <==> x in Elements(t) && range.Contains(x.position)
  {
    QueryExact(t, range);
    WithinInside(Elements(t), range);
    WithinComplete(Elements(t), range);
    if x in Within(Elements(t), range) {
      WithinSubMultiset(Elements(t), range);
      assert x in multiset(Within(Elements(t), range));
    }
  }

  /*
   * Rebuilding
   */

  /**
    * `init_tree` always yields a tree that keeps the invariant over the same
    * bounds and capacity, storing only particles it was given.
    */
  lemma InitTreeSound(t: Tree, ps: seq<Particle>, fuel: nat)
    ensures Inv(InitTree(t, ps, fuel))
    ensures InitTree(t, ps, fuel).bounds == t.bounds && InitTree(t, ps, fuel).capacity == t.capacity
    ensures multiset(Elements(InitTree(t, ps, fuel))) <= multiset(ps)
  {
    InsertAllInv(Clear(t), ps, fuel);
    InsertAllElements(Clear(t), ps, fuel);
  }

  /** Rebuilding twice from the same particles gives the same tree as rebuilding once. */
  lemma RebuildIdempotent(t: Tree, ps: seq<Particle>, fuel: nat)
    ensures InitTree(InitTree(t, ps, fuel), ps, fuel) == InitTree(t, ps, fuel)
  {
    InitTreeSound(t, ps, fuel);
  }

  /**
    * After a rebuild, a query returns exactly the stored particles inside the
    * range, each one a particle the rebuild was given.
    */
  lemma QueryAfterInit(t: Tree, ps: seq<Particle>, fuel: nat, range: BoundingBox)
    ensures Query(InitTree(t, ps, fuel), range) == Within(Elements(InitTree(t, ps, fuel)), range)
    ensures forall x :: x in Query(InitTree(t, ps, fuel), range) ==> x in ps && range.Contains(x.position)
  {
    var r := InitTree(t, ps, fuel);
    InitTreeSound(t, ps, fuel);
    QueryExact(r, range);
    WithinInside(Elements(r), range);
    WithinSubMultiset(Elements(r), range);
    forall x | x in Query(r, range)
      ensures x in ps
    {
      assert x in multiset(Within(Elements(r), range));
      assert x in multiset(Elements(r));
    }
  }

  /*
   * What is stored
   */

  /** A particle inside the bounds of a node with room is appended to the node's own list, so it is stored. */
  lemma InsertIntoRoom(t: Tree, p: Particle, fuel: nat)
    requires t.bounds.Contains(p.position) && |t.points| < t.capacity
    ensures Insert(t, p, fuel) == t.(points := t.points + [p])
    ensures multiset(Elements(Insert(t, p, fuel))) == multiset(Elements(t)) + multiset{p}
  {
  }

  /** Replacing subtree `i` of a list replaces its particles in the list's stored multiset. */
  lemma {:induction false} ElementsOfUpdate(kids: seq<Tree>, i: nat, k: Tree)
    requires i < |kids|
    ensures multiset(ElementsOf(kids[i := k])) + multiset(Elements(kids[i]))
         == multiset(ElementsOf(kids)) + multiset(Elements(k))
    decreases |kids|
  {
    var n := |kids|;
    var u := kids[i := k];
    assert ElementsOf(kids) == ElementsOf(kids[..n - 1]) + Elements(kids[n - 1]);
    assert ElementsOf(u) == ElementsOf(u[..n - 1]) + Elements(u[n - 1]);
    if i == n - 1 {
      assert u[..n - 1] == kids[..n - 1];
    } else {
      assert u[..n - 1] == kids[..n - 1][i := k];
      assert u[n - 1] == kids[n - 1] && kids[..n - 1][i] == kids[i];
      ElementsOfUpdate(kids[..n - 1], i, k);
      var a, c := multiset(ElementsOf(u[..n - 1])), multiset(ElementsOf(kids[..n - 1]));
      var l := multiset(Elements(kids[n - 1]));
      assert multiset(ElementsOf(u)) == a + l;
      assert multiset(ElementsOf(kids)) == c + l;
      Regroup(a, multiset(Elements(kids[i])), c, multiset(Elements(k)), l);
    }
  }

  /** Adding `l` to both sides of `a + b == c + d`. */
  lemma Regroup(a: multiset<Particle>, b: multiset<Particle>, c: multiset<Particle>, d: multiset<Particle>, l: multiset<Particle>)
    requires a + b == c + d
    ensures a + l + b == c + l + d
  {
    forall e
      ensures (a + l + b)[e] == (c + l + d)[e]
    {
      assert (a + b)[e] == (c + d)[e];
    }
  }

  /** Offering `p` to subtrees of which only number `i` contains it, and has room, appends it to that subtree's list. */
  lemma InsertEachRoom(kids: seq<Tree>, p: Particle, fuel: nat, i: nat)
    requires i < |kids| && kids[i].bounds.Contains(p.position) && |kids[i].points| < kids[i].capacity
    requires forall j :: 0 <= j < |kids| && j != i ==> !kids[j].bounds.Contains(p.position)
    ensures InsertEach(kids, p, fuel) == kids[i := kids[i].(points := kids[i].points + [p])]
  {
    InsertIntoRoom(kids[i], p, fuel);
  }

  /** Adding the same multiset on both sides can be undone. */
  lemma Cancel(x: multiset<Particle>, y: multiset<Particle>, b: multiset<Particle>, m: multiset<Particle>)
    requires x + b == y + b + m
    ensures x == y + m
  {
    forall e
      ensures x[e] == (y + m)[e]
    {
      assert (x + b)[e] == (y + b + m)[e];
    }
  }

  /**
    * Offering a particle to subtrees of which exactly one, number `i`,
    * contains it and has room in its own list stores it exactly once.
    */
  lemma InsertEachStores(kids: seq<Tree>, p: Particle, fuel: nat, i: nat)
    requires i < |kids| && kids[i].bounds.Contains(p.position) && |kids[i].points| < kids[i].capacity
    requires forall j :: 0 <= j < |kids| && j != i ==> !kids[j].bounds.Contains(p.position)
    ensures multiset(ElementsOf(InsertEach(kids, p, fuel))) == multiset(ElementsOf(kids)) + multiset{p}
  {
    var k := kids[i].(points := kids[i].points + [p]);
    InsertEachRoom(kids, p, fuel, i);
    assert Elements(k) == kids[i].points + [p] + ElementsOf(kids[i].children);
    ElementsOfUpdate(kids, i, k);
    Cancel(multiset(ElementsOf(kids[i := k])), multiset(ElementsOf(kids)), multiset(Elements(kids[i])), multiset{p});
  }

  /**
    * The case where inserting `p` stores it although the leaf `t` is full:
    * `p` lies off both center lines, so exactly one quadrant, number `i`,
    * contains it, and fewer than `capacity` of the old particles fall in that
    * quadrant.
    */
  ghost predicate SplitWithRoom(t: Tree, p: Particle, i: nat)
  {
    (forall q :: q in t.points ==> t.bounds.Contains(q.position))
    && t.bounds.Contains(p.position) && p.position.x != t.bounds.Center().x && p.position.y != t.bounds.Center().y
    && i < 4 && t.bounds.SplitQuadrants()[i].Contains(p.position)
    && |Within(t.points, t.bounds.SplitQuadrants()[i])| < t.capacity
  }

  /**
    * When a full leaf subdivides to take `p` and `p`'s quadrant has room, the
    * tree ends holding exactly the old particles off the center lines and `p`.
    */
  lemma SplitStores(t: Tree, p: Particle, fuel: nat, i: nat)
    requires t.children == [] && |t.points| == t.capacity
    requires SplitWithRoom(t, p, i)
    ensures multiset(Elements(Insert(t, p, fuel + 1))) == multiset(OffCenterLines(t.points, t.bounds)) + multiset{p}
  {
    InsertFullLeaf(t, p, fuel);
    SplitLeavesStore(t, p, fuel, i);
  }

  /** The stored particles once `p` has been offered to the quadrant leaves of `t` and the node's list emptied. */
  lemma SplitLeavesStore(t: Tree, p: Particle, fuel: nat, i: nat)
    requires SplitWithRoom(t, p, i)
    ensures multiset(Elements(t.(points := [], children := InsertEach(QuadrantLeaves(t), p, fuel))))
         == multiset(OffCenterLines(t.points, t.bounds)) + multiset{p}
  {
    var kids := InsertEach(QuadrantLeaves(t), p, fuel);
    assert Elements(t.(points := [], children := kids)) == [] + ElementsOf(kids);
    QuadrantLeavesStore(t, p, fuel, i);
    QuadrantLeavesOffCenter(t);
  }

  /**
    * A full leaf that takes a particle inside its bounds subdivides and
    * offers the particle to its new quadrant leaves.
    */
  lemma InsertFullLeaf(t: Tree, p: Particle, fuel: nat)
    requires t.bounds.Contains(p.position) && |t.points| == t.capacity && t.children == []
    ensures Insert(t, p, fuel + 1) == t.(points := [], children := InsertEach(QuadrantLeaves(t), p, fuel))
  {
    SubdivideExact(t, fuel + 1);
  }

  /** Of the quadrant leaves of `t`, only number `i` contains `p`, and it has room. */
  lemma QuadrantLeavesRoom(t: Tree, p: Particle, i: nat)
    requires t.bounds.Contains(p.position) && p.position.x != t.bounds.Center().x && p.position.y != t.bounds.Center().y
    requires i < 4 && t.bounds.SplitQuadrants()[i].Contains(p.position)
    requires |Within(t.points, t.bounds.SplitQuadrants()[i])| < t.capacity
    ensures QuadrantLeaves(t)[i].bounds.Contains(p.position) && |QuadrantLeaves(t)[i].points| < QuadrantLeaves(t)[i].capacity
    ensures forall j :: 0 <= j < 4 && j != i ==> !QuadrantLeaves(t)[j].bounds.Contains(p.position)
  {
    ExactlyOneQuadrant(t.bounds, p.position);
  }

  /** Offering `p` to the quadrant leaves of `t` stores it once when its quadrant has room. */
  lemma QuadrantLeavesStore(t: Tree, p: Particle, fuel: nat, i: nat)
    requires t.bounds.Contains(p.position) && p.position.x != t.bounds.Center().x && p.position.y != t.bounds.Center().y
    requires i < 4 && t.bounds.SplitQuadrants()[i].Contains(p.position)
    requires |Within(t.points, t.bounds.SplitQuadrants()[i])| < t.capacity
    ensures multiset(ElementsOf(InsertEach(QuadrantLeaves(t), p, fuel)))
         == multiset(ElementsOf(QuadrantLeaves(t))) + multiset{p}
  {
    QuadrantLeavesRoom(t, p, i);
    InsertEachStores(QuadrantLeaves(t), p, fuel, i);
  }

  /** Inserting at most `capacity` particles into an empty leaf stores, in order, exactly those inside its bounds. */
  lemma {:induction false} FillLeaf(t: Tree, ps: seq<Particle>, fuel: nat)
    requires t.points == [] && t.children == [] && |ps| <= t.capacity
    ensures InsertAll(t, ps, fuel) == t.(points := Within(ps, t.bounds))
    decreases |ps|
  {
    if ps != [] {
      var init, last := ps[..|ps| - 1], ps[|ps| - 1];
      assert ps == init + [last];
      FillLeaf(t, init, fuel);
      InsertAllSnoc(t, init, last, fuel);
      WithinSnoc(init, last, t.bounds);
    }
  }

  /**
    * A rebuild from at most `capacity` particles never subdivides: the root
    * holds, in order, exactly the given particles inside its bounds, so each
    * of them is stored.
    */
  lemma SmallRebuildExact(t: Tree, ps: seq<Particle>, fuel: nat)
    requires |ps| <= t.capacity
    ensures InitTree(t, ps, fuel) == Node(Within(ps, t.bounds), [], t.capacity, t.bounds)
    ensures forall x :: x in ps && t.bounds.Contains(x.position) ==> x in Elements(InitTree(t, ps, fuel))
  {
    FillLeaf(Clear(t), ps, fuel);
    WithinComplete(ps, t.bounds);
    assert Elements(InitTree(t, ps, fuel)) == Within(ps, t.bounds);
  }

  /*
   * A worked example of the quirks
   */

  /** The box of the examples below. */
  function ExampleBox(): BoundingBox
  {
    BoundingBox(Vec2(0.0, 0.0), Vec2(100.0, 100.0))
  }

  /** In the example, the first particle lies on the vertical center line and is lost by the subdivision. */
  lemma {:induction false} ExampleSubdivide(a: Particle)
    requires a.position == Vec2(50.0, 20.0)
    ensures Subdivide(Node([a], [], 1, ExampleBox()), 1) == Node([], EmptyQuadrants(1, ExampleBox()), 1, ExampleBox())
  {
    var e := EmptyQuadrants(1, ExampleBox());
    CenterLineInNoQuadrant(ExampleBox(), a.position);
    assert InsertEach(e, a, 0) == e;
    assert [a][..0] == [];
  }

  /** In the example, the second particle goes to quadrant 0 only. */
  lemma {:induction false} ExampleOffer(b: Particle)
    requires b.position == Vec2(70.0, 30.0)
    ensures ElementsOf(InsertEach(EmptyQuadrants(1, ExampleBox()), b, 0)) == [b]
  {
    var q := ExampleBox().SplitQuadrants();
    var e := EmptyQuadrants(1, ExampleBox());
    var kids := InsertEach(e, b, 0);
    assert q[0].Contains(b.position);
    assert !q[1].Contains(b.position) && !q[2].Contains(b.position) && !q[3].Contains(b.position);
    assert kids[0] == Node([b], [], 1, q[0]);
    assert kids[1] == e[1] && kids[2] == e[2] && kids[3] == e[3];
    assert kids[..1][..0] == [] && kids[..2][..1] == kids[..1] && kids[..3][..2] == kids[..2] && kids[..4] == kids;
    assert ElementsOf(kids[..1]) == [b];
    assert ElementsOf(kids[..2]) == [b];
    assert ElementsOf(kids[..3]) == [b];
  }

  /** In the example, the second particle makes the full root subdivide and lands in quadrant 0. */
  lemma {:induction false} ExampleSecond(a: Particle, b: Particle)
    requires a.position == Vec2(50.0, 20.0) && b.position == Vec2(70.0, 30.0)
    ensures Insert(Node([a], [], 1, ExampleBox()), b, 1)
         == Node([], InsertEach(EmptyQuadrants(1, ExampleBox()), b, 0), 1, ExampleBox())
  {
    ExampleSubdivide(a);
  }

  /** In the example, the third particle refills the emptied root list beside the children. */
  lemma {:induction false} ExampleThird(kids: seq<Tree>, c: Particle)
    requires c.position == Vec2(10.0, 80.0)
    ensures Insert(Node([], kids, 1, ExampleBox()), c, 1) == Node([c], kids, 1, ExampleBox())
  {
  }

  /** The example's tree after all three insertions. */
  lemma {:induction false} ExampleRun(a: Particle, b: Particle, c: Particle)
    requires a.position == Vec2(50.0, 20.0) && b.position == Vec2(70.0, 30.0) && c.position == Vec2(10.0, 80.0)
    ensures InsertAll(Build(1, ExampleBox()), [a, b, c], 1)
         == Node([c], InsertEach(EmptyQuadrants(1, ExampleBox()), b, 0), 1, ExampleBox())
  {
    var t0 := Build(1, ExampleBox());
    var kids := InsertEach(EmptyQuadrants(1, ExampleBox()), b, 0);
    ExampleSecond(a, b);
    ExampleThird(kids, c);
    assert InsertAll(t0, [a], 1) == Node([a], [], 1, ExampleBox()) by {
      assert [a][..0] == [];
    }
    assert InsertAll(t0, [a, b], 1) == Node([], kids, 1, ExampleBox()) by {
      assert [a, b][..1] == [a];
    }
    assert [a, b, c][..2] == [a, b];
  }

  /**
    * With capacity 0 a node is always full, yet insertion stops: a particle
    * at the center (50,50) of the box makes the root subdivide once, lies in
    * none of the quadrants, and is dropped.
    */
  lemma {:induction false} ZeroCapacityStops(p: Particle, fuel: nat)
    requires p.position == Vec2(50.0, 50.0) && fuel >= 1
    ensures Insert(Build(0, ExampleBox()), p, fuel) == Node([], EmptyQuadrants(0, ExampleBox()), 0, ExampleBox())
  {
    var t := Build(0, ExampleBox());
    var e := EmptyQuadrants(0, ExampleBox());
    assert Subdivide(t, fuel) == Node([], e, 0, ExampleBox()) by {
      assert Reinsert(e, [], fuel - 1) == e;
    }
    assert InsertEach(e, p, fuel - 1) == e by {
      CenterLineInNoQuadrant(ExampleBox(), p.position);
      InsertOutside(e[0], p, fuel - 1);
      InsertOutside(e[1], p, fuel - 1);
      InsertOutside(e[2], p, fuel - 1);
      InsertOutside(e[3], p, fuel - 1);
    }
  }

  /** Subtrees that each store nothing store nothing together. */
  lemma {:induction false} NothingStored(kids: seq<Tree>)
    requires forall i :: 0 <= i < |kids| ==> Elements(kids[i]) == []
    ensures ElementsOf(kids) == []
    decreases |kids|
  {
    if kids != [] {
      NothingStored(kids[..|kids| - 1]);
    }
  }

  /** In the second example, the leaf over quadrant 1 holding `a` is offered `a` again: it splits at `a`'s position and keeps nothing. */
  lemma {:induction false} CoincidentSplit(a: Particle, fuel: nat)
    requires a.position == Vec2(25.0, 25.0) && fuel >= 1
    ensures Insert(Node([a], [], 1, ExampleBox().SplitQuadrants()[1]), a, fuel)
         == Node([], EmptyQuadrants(1, ExampleBox().SplitQuadrants()[1]), 1, ExampleBox().SplitQuadrants()[1])
  {
    var q1 := ExampleBox().SplitQuadrants()[1];
    assert q1 == BoundingBox(Vec2(0.0, 0.0), Vec2(50.0, 50.0));
    var leaf := Node([a], [], 1, q1);
    var sub := EmptyQuadrants(1, q1);
    CenterLineInNoQuadrant(q1, a.position);
    assert InsertEach(sub, a, fuel - 1) == sub;
    assert Reinsert(sub, [a], fuel - 1) == sub by {
      assert [a][..0] == [];
    }
    assert Subdivide(leaf, fuel) == Node([], sub, 1, q1);
  }

  /** In the second example, the first subdivision moves `a` into the leaf over quadrant 1. */
  lemma {:induction false} CoincidentFirstSplit(a: Particle, fuel: nat)
    requires a.position == Vec2(25.0, 25.0) && fuel >= 1
    ensures Subdivide(Node([a], [], 1, ExampleBox()), fuel)
         == Node([], EmptyQuadrants(1, ExampleBox())[1 := Node([a], [], 1, ExampleBox().SplitQuadrants()[1])], 1, ExampleBox())
  {
    var q := ExampleBox().SplitQuadrants();
    var e := EmptyQuadrants(1, ExampleBox());
    assert q[1].Contains(a.position);
    assert !q[0].Contains(a.position) && !q[2].Contains(a.position) && !q[3].Contains(a.position);
    var kids := InsertEach(e, a, fuel - 1);
    InsertOutside(e[0], a, fuel - 1);
    InsertIntoRoom(e[1], a, fuel - 1);
    InsertOutside(e[2], a, fuel - 1);
    InsertOutside(e[3], a, fuel - 1);
    assert kids[0] == e[0] && kids[2] == e[2] && kids[3] == e[3];
    assert kids[1] == Node([a], [], 1, q[1]);
    assert kids == e[1 := Node([a], [], 1, q[1])];
    assert Reinsert(e, [a], fuel - 1) == InsertEach(e, a, fuel - 1) by {
      assert [a][..0] == [];
    }
  }

  /** In the second example, the copy offered to the children after the first split leaves all four empty. */
  lemma {:induction false} CoincidentOffer(a: Particle, fuel: nat)
    requires a.position == Vec2(25.0, 25.0) && fuel >= 1
    ensures ElementsOf(InsertEach(EmptyQuadrants(1, ExampleBox())[1 := Node([a], [], 1, ExampleBox().SplitQuadrants()[1])], a, fuel)) == []
  {
    var q := ExampleBox().SplitQuadrants();
    var e := EmptyQuadrants(1, ExampleBox());
    var inner := Node([], EmptyQuadrants(1, q[1]), 1, q[1]);
    var kids := InsertEach(e[1 := Node([a], [], 1, q[1])], a, fuel);
    assert kids[1] == inner by {
      CoincidentSplit(a, fuel);
    }
    assert kids[0] == e[0] && kids[2] == e[2] && kids[3] == e[3] by {
      assert !q[0].Contains(a.position) && !q[2].Contains(a.position) && !q[3].Contains(a.position);
      InsertOutside(e[0], a, fuel);
      InsertOutside(e[2], a, fuel);
      InsertOutside(e[3], a, fuel);
    }
    assert Elements(inner) == [] by {
      NothingStored(EmptyQuadrants(1, q[1]));
    }
    NothingStored(kids);
  }

  /**
    * With capacity 1 over the box (0,0)-(100,100), a particle `a` at
    * (25,25) fills the root, and a second copy of it is inserted. The root
    * subdivides and `a` moves to quadrant 1, (0,0)-(50,50). The copy finds
    * that leaf full, so it subdivides too. But (25,25) is its center, in
    * none of its quadrants, so both copies are lost and the recursion stops.
    */
  lemma {:induction false} CoincidentLost(a: Particle, fuel: nat)
    requires a.position == Vec2(25.0, 25.0) && fuel >= 2
    ensures Elements(Insert(Node([a], [], 1, ExampleBox()), a, fuel)) == []
  {
    var kids := EmptyQuadrants(1, ExampleBox())[1 := Node([a], [], 1, ExampleBox().SplitQuadrants()[1])];
    CoincidentFirstSplit(a, fuel);
    CoincidentOffer(a, fuel - 1);
    assert Insert(Node([a], [], 1, ExampleBox()), a, fuel) == Node([], InsertEach(kids, a, fuel - 1), 1, ExampleBox());
  }

  /** The particles of four subtrees, subtree by subtree. */
  lemma ElementsOfFour(kids: seq<Tree>)
    requires |kids| == 4
    ensures ElementsOf(kids) == Elements(kids[0]) + Elements(kids[1]) + Elements(kids[2]) + Elements(kids[3])
  {
    assert ElementsOf(kids[..1]) == Elements(kids[0]) by {
      assert kids[..1][..0] == [];
    }
    assert ElementsOf(kids[..2]) == ElementsOf(kids[..1]) + Elements(kids[1]) by {
      assert kids[..2][..1] == kids[..1];
    }
    assert ElementsOf(kids[..3]) == ElementsOf(kids[..2]) + Elements(kids[2]) by {
      assert kids[..3][..2] == kids[..2];
    }
    assert ElementsOf(kids) == ElementsOf(kids[..3]) + Elements(kids[3]) by {
      assert kids[..4][..3] == kids[..3] && kids[..4] == kids;
    }
  }

  /** `p` lies in quadrant `i` of `b` and in no other. */
  ghost predicate OnlyIn(b: BoundingBox, p: Particle, i: nat)
  {
    i < 4 && b.SplitQuadrants()[i].Contains(p.position)
    && forall k :: 0 <= k < 4 && k != i ==> !b.SplitQuadrants()[k].Contains(p.position)
  }

  /** `p` and `q` lie inside `b`, each in one quadrant, and not in the same one. */
  ghost predicate Apart(b: BoundingBox, p: Particle, q: Particle, i: nat, j: nat)
  {
    b.Contains(p.position) && b.Contains(q.position) && OnlyIn(b, p, i) && OnlyIn(b, q, j) && i != j
  }

  /** Four empty capacity-1 quadrant leaves of `b`, with `p` stored in leaf `i`. */
  function OneLeaf(b: BoundingBox, p: Particle, i: nat): (r: seq<Tree>)
    requires i < 4
    ensures |r| == 4
  {
    EmptyQuadrants(1, b)[i := Node([p], [], 1, b.SplitQuadrants()[i])]
  }

  /** The same, with `q` stored in leaf `j` as well. */
  function TwoLeaves(b: BoundingBox, p: Particle, q: Particle, i: nat, j: nat): (r: seq<Tree>)
    requires i < 4 && j < 4
    ensures |r| == 4
  {
    OneLeaf(b, p, i)[j := Node([q], [], 1, b.SplitQuadrants()[j])]
  }

  /** Offering `p` to the four empty leaves stores it in its quadrant's leaf only. */
  lemma FirstLeaf(b: BoundingBox, p: Particle, i: nat, fuel: nat)
    requires OnlyIn(b, p, i)
    ensures InsertEach(EmptyQuadrants(1, b), p, fuel) == OneLeaf(b, p, i)
  {
    var e := EmptyQuadrants(1, b);
    InsertEachRoom(e, p, fuel, i);
    assert e[i].(points := e[i].points + [p]) == Node([p], [], 1, b.SplitQuadrants()[i]);
  }

  /** Offering `q` from another quadrant to those leaves stores it in its own quadrant's leaf. */
  lemma SecondLeaf(b: BoundingBox, p: Particle, q: Particle, i: nat, j: nat, fuel: nat)
    requires i < 4 && OnlyIn(b, q, j) && i != j
    ensures InsertEach(OneLeaf(b, p, i), q, fuel) == TwoLeaves(b, p, q, i, j)
  {
    var m := OneLeaf(b, p, i);
    assert forall k :: 0 <= k < 4 ==> m[k].bounds == b.SplitQuadrants()[k];
    InsertEachRoom(m, q, fuel, j);
    assert m[j].(points := m[j].points + [q]) == Node([q], [], 1, b.SplitQuadrants()[j]);
  }

  /** Subdividing a capacity-1 leaf holding `p` moves `p` into its quadrant's leaf. */
  lemma SplitFirst(b: BoundingBox, p: Particle, i: nat, fuel: nat)
    requires OnlyIn(b, p, i)
    ensures Subdivide(Node([p], [], 1, b), fuel + 1) == Node([], OneLeaf(b, p, i), 1, b)
  {
    FirstLeaf(b, p, i, fuel);
    var e := EmptyQuadrants(1, b);
    assert Reinsert(e, [p], fuel) == InsertEach(e, p, fuel) by {
      assert [p][..0] == [];
    }
  }

  /** A capacity-1 leaf holding `p` is offered `q` from another quadrant: it splits into two one-particle leaves. */
  lemma SplitTwoLeaves(b: BoundingBox, p: Particle, q: Particle, i: nat, j: nat, fuel: nat)
    requires b.Contains(q.position) && OnlyIn(b, p, i) && OnlyIn(b, q, j) && i != j
    ensures Insert(Node([p], [], 1, b), q, fuel + 1) == Node([], TwoLeaves(b, p, q, i, j), 1, b)
  {
    SplitFirst(b, p, i, fuel);
    SecondLeaf(b, p, q, i, j, fuel);
  }

  /** The one leaf stores `p` and nothing else. */
  lemma OneLeafElements(b: BoundingBox, p: Particle, i: nat)
    requires i < 4
    ensures multiset(ElementsOf(OneLeaf(b, p, i))) == multiset{p}
  {
    var e := EmptyQuadrants(1, b);
    var k := Node([p], [], 1, b.SplitQuadrants()[i]);
    assert forall n :: 0 <= n < 4 ==> Elements(e[n]) == [];
    NothingStored(e);
    ElementsOfUpdate(e, i, k);
    assert multiset(Elements(e[i])) == multiset{} && multiset(ElementsOf(e)) == multiset{};
    assert multiset(Elements(k)) == multiset{p};
    Cancel(multiset(ElementsOf(e[i := k])), multiset{}, multiset{}, multiset{p});
    assert OneLeaf(b, p, i) == e[i := k];
  }

  /** The two leaves store `p` and `q` and nothing else. */
  lemma TwoLeavesElements(b: BoundingBox, p: Particle, q: Particle, i: nat, j: nat)
    requires i < 4 && j < 4 && i != j
    ensures multiset(ElementsOf(TwoLeaves(b, p, q, i, j))) == multiset{p, q}
  {
    var m := OneLeaf(b, p, i);
    var k := Node([q], [], 1, b.SplitQuadrants()[j]);
    OneLeafElements(b, p, i);
    ElementsOfUpdate(m, j, k);
    assert multiset(Elements(m[j])) == multiset{};
    assert multiset(Elements(k)) == multiset{q};
    assert multiset{p} + multiset{} + multiset{q} == multiset{p} + multiset{q};
    Cancel(multiset(ElementsOf(m[j := k])), multiset{p}, multiset{}, multiset{q});
    assert TwoLeaves(b, p, q, i, j) == m[j := k];
  }

  /** Inserting `p` then `q` into an empty capacity-1 leaf splits it into two one-particle leaves. */
  lemma {:induction false} RefillFirstTwo(b: BoundingBox, p: Particle, q: Particle, i: nat, j: nat, fuel: nat)
    requires Apart(b, p, q, i, j)
    ensures InsertAll(Build(1, b), [p, q], fuel + 1) == Node([], TwoLeaves(b, p, q, i, j), 1, b)
  {
    var t0 := Build(1, b);
    assert InsertAll(t0, [p], fuel + 1) == Node([p], [], 1, b) by {
      InsertAllSnoc(t0, [], p, fuel + 1);
      assert [] + [p] == [p];
      InsertIntoRoom(t0, p, fuel + 1);
    }
    assert InsertAll(t0, [p, q], fuel + 1) == Insert(Node([p], [], 1, b), q, fuel + 1) by {
      InsertAllSnoc(t0, [p], q, fuel + 1);
      assert [p] + [q] == [p, q];
    }
    SplitTwoLeaves(b, p, q, i, j, fuel);
  }

  /** Inserting `p`, `q`, then `p` again: the second `p` goes into the root's emptied list. */
  lemma {:induction false} RefillRun(b: BoundingBox, p: Particle, q: Particle, i: nat, j: nat, fuel: nat)
    requires Apart(b, p, q, i, j)
    ensures InsertAll(Build(1, b), [p, q, p], fuel + 1) == Node([p], TwoLeaves(b, p, q, i, j), 1, b)
  {
    var t0, t2 := Build(1, b), Node([], TwoLeaves(b, p, q, i, j), 1, b);
    assert InsertAll(t0, [p, q, p], fuel + 1) == Insert(t2, p, fuel + 1) by {
      RefillFirstTwo(b, p, q, i, j, fuel);
      InsertAllSnoc(t0, [p, q], p, fuel + 1);
      assert [p, q] + [p] == [p, q, p];
    }
    InsertIntoRoom(t2, p, fuel + 1);
  }

  /**
    * With capacity 1 over the box (0,0)-(100,100), insert `p` at (20,20),
    * `q` at (80,80), then `p` again. `q` makes the root subdivide, which
    * moves `p` to quadrant 1 and empties the root's list; the second `p`
    * then goes into that emptied list and descends no further. Particles
    * sharing a position do not by themselves make an insertion descend.
    */
  lemma {:induction false} CoincidentRefill(p: Particle, q: Particle, fuel: nat)
    requires p.position == Vec2(20.0, 20.0) && q.position == Vec2(80.0, 80.0)
    ensures InsertAll(Build(1, ExampleBox()), [p, q, p], fuel + 1).points == [p]
    ensures multiset(Elements(InsertAll(Build(1, ExampleBox()), [p, q, p], fuel + 1)))[p] == 2
  {
    var b := ExampleBox();
    assert Apart(b, p, q, 1, 3) by {
      QuadrantSides(b, p.position);
      QuadrantSides(b, q.position);
    }
    RefillRun(b, p, q, 1, 3, fuel);
    TwoLeavesElements(b, p, q, 1, 3);
    assert multiset(Elements(Node([p], TwoLeaves(b, p, q, 1, 3), 1, b))) == multiset{p} + multiset{p, q};
    assert p != q;
  }


  /**
    * With capacity 1 over the box (0,0)-(100,100): `a` at (50,20) fills the
    * root; `b` at (70,30) makes it subdivide, and `a`, lying on the vertical
    * center line, is in no quadrant and is lost while `b` goes to quadrant 0;
    * `c` at (10,80) then refills the emptied root list although the root has
    * children. The tree ends holding `c` and `b`, not `a`.
    */
  lemma {:induction false} CenterLineExample(a: Particle, b: Particle, c: Particle)
    requires a.position == Vec2(50.0, 20.0) && b.position == Vec2(70.0, 30.0) && c.position == Vec2(10.0, 80.0)
    ensures InsertAll(Build(1, ExampleBox()), [a, b, c], 1).points == [c]
    ensures |InsertAll(Build(1, ExampleBox()), [a, b, c], 1).children| == 4
    ensures Elements(InsertAll(Build(1, ExampleBox()), [a, b, c], 1)) == [c, b]
  {
    var kids := InsertEach(EmptyQuadrants(1, ExampleBox()), b, 0);
    ExampleRun(a, b, c);
    ExampleOffer(b);
    assert Elements(Node([c], kids, 1, ExampleBox())) == [c] + ElementsOf(kids);
  }
}
