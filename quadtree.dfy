/**
  * The point quadtree of quadtree/src/quadtree.rs as a mutable object. Each
  * node owns its particle list and, once subdivided, four child nodes; the
  * methods update them in place. The ghost field `model` is the node's value
  * as a `TreeModel.Tree`, and every method is proved to change it exactly as
  * the matching function of `TreeModel` does, so the lemmas there (the
  * invariant, no duplication, exact range queries) carry over to the object.
  */
module Quadtree {
  import opened Geometry
  import opened TreeModel

  class QuadTree {
    var points: seq<Particle>
    /** `[]` stands for `None`; otherwise the four children in quadrant order. */
    var children: seq<QuadTree>
    var capacity: nat
    var bounds: BoundingBox

    /** The value of this node and everything below it. */
    ghost var model: Tree
    /** This node and every node below it. */
    ghost var Repr: set<object>

    /**
      * The object structure mirrors `model`: the fields match, and each child
      * is a valid node of its own, owned by no other child and not by itself
      * reaching back to this node.
      */
    ghost predicate Valid()
      reads this, Repr
      decreases Repr
    {
      this in Repr
      && model.points == points && model.capacity == capacity && model.bounds == bounds
      && (|children| == 0 || |children| == 4)
      && |model.children| == |children|
      && (forall i :: 0 <= i < |children| ==>
            children[i] in Repr && children[i].Repr <= Repr && this !in children[i].Repr
            && children[i].model == model.children[i] && children[i].Valid())
      && (forall i, j :: 0 <= i < |children| && 0 <= j < |children| && i != j ==>
            children[i].Repr !! children[j].Repr)
    }

    /** Each child of a valid node is a valid node, owned by it and owned by no other child, whose value is the matching child of `model`. */
    lemma ChildrenValid()
      requires Valid()
      ensures |model.children| == |children|
      ensures forall j :: 0 <= j < |children| ==>
        children[j].Valid() && children[j].Repr < Repr && this !in children[j].Repr && children[j].model == model.children[j]
      ensures forall j, k :: 0 <= j < |children| && 0 <= k < |children| && j != k ==>
        children[j].Repr !! children[k].Repr
    {
    }

    /** A single node with no particles and no children, as `QuadTree::build` makes it. */
    ghost predicate EmptyLeaf()
      reads this
    {
      Repr == {this} && points == [] && children == [] && model == TreeModel.Build(capacity, bounds)
    }

    /** An empty leaf is a valid node. */
    lemma EmptyLeafValid()
      requires EmptyLeaf()
      ensures Valid()
    {
    }

    /** A node whose fields match its model and whose four children are distinct empty leaves is valid. */
    lemma FourLeavesValid()
      requires this in Repr
      requires model.points == points && model.capacity == capacity && model.bounds == bounds
      requires |children| == 4 && |model.children| == 4
      requires forall i :: 0 <= i < 4 ==>
        children[i] != this && children[i] in Repr && children[i].EmptyLeaf() && children[i].model == model.children[i]
      requires forall i, j :: 0 <= i < j < 4 ==> children[i] != children[j]
      ensures Valid()
    {
      forall i | 0 <= i < 4
        ensures children[i].Valid()
      {
        children[i].EmptyLeafValid();
      }
    }

    /** `QuadTree::build`: an empty node without children. */
    constructor Build(capacity: nat, bounds: BoundingBox)
      ensures Valid() && EmptyLeaf()
      ensures model == TreeModel.Build(capacity, bounds) && Inv(model)
    {
      this.points := [];
      this.children := [];
      this.capacity := capacity;
      this.bounds := bounds;
      model := TreeModel.Build(capacity, bounds);
      Repr := {this};
    }

    /** `QuadTree::clear_tree`: empties the node's list and drops its children. */
    method ClearTree()
      requires Valid()
      modifies this
      ensures Valid() && Repr == {this}
      ensures model == Clear(old(model)) && Inv(model)
    {
      points := [];
      children := [];
      model := Clear(model);
      Repr := {this};
    }

    /**
      * `QuadTree::init_tree`: clears the tree, then inserts the particles in
      * slice order, each with the depth bound `fuel`.
      */
    method InitTree(particles: seq<Particle>, fuel: nat)
      requires Valid()
      modifies Repr
      ensures Valid() && fresh(Repr - {this})
      ensures model == TreeModel.InitTree(old(model), particles, fuel) && Inv(model)
    {
      ClearTree();
      for k := 0 to |particles|
        invariant Valid() && fresh(Repr - {this})
        invariant model == InsertAll(Clear(old(model)), particles[..k], fuel)
      {
        Insert(particles[k], fuel);
        assert particles[..k + 1][..k] == particles[..k];
      }
      assert particles[..|particles|] == particles;
    }

    /**
      * `QuadTree::insert`: ignores a particle outside the bounds, appends it
      * when the node's own list has room, and otherwise subdivides (when
      * there are no children yet) and offers it to all four children, one
      * level deeper. With no depth left, a full node drops the particle.
      */
    method Insert(p: Particle, fuel: nat)
      requires Valid()
      modifies Repr
      ensures Valid() && fresh(Repr - old(Repr))
      ensures model == TreeModel.Insert(old(model), p, fuel)
      ensures Inv(old(model)) ==> Inv(model)
      decreases fuel, 5
    {
      if Inv(model) {
        InsertInv(model, p, fuel);
      }
      if !bounds.Contains(p.position) {
        return;
      }
      if |points| < capacity {
        points := points + [p];
        model := model.(points := points);
        return;
      }
      if fuel == 0 {
        return;
      }
      if children == [] {
        Subdivide(fuel);
      }
      InsertIntoChildren(p, fuel - 1);
    }

    /**
      * The loop of `insert` and `subdivide` that offers `p` to every child in
      * order; the node then owns whatever the children allocated.
      */
    method InsertIntoChildren(p: Particle, fuel: nat)
      requires Valid()
      modifies Repr
      ensures Valid() && fresh(Repr - old(Repr))
      ensures model == old(model).(children := InsertEach(old(model).children, p, fuel))
      decreases fuel + 1, 2
    {
      ghost var kids := InsertEach(model.children, p, fuel);
      ChildrenValid();
      OfferToChildren(p, fuel);
      TakeChildren(kids);
    }

    /**
      * After the children changed on their own: the node owns everything they
      * own again and its model records their new values `kids`.
      */
    ghost method TakeChildren(kids: seq<Tree>)
      requires this in Repr
      requires model.points == points && model.capacity == capacity && model.bounds == bounds
      requires (|children| == 0 || |children| == 4) && |kids| == |children|
      requires forall j :: 0 <= j < |children| ==>
        children[j].Valid() && this !in children[j].Repr && children[j].model == kids[j]
      requires forall j, k :: 0 <= j < |children| && 0 <= k < |children| && j != k ==>
        children[j].Repr !! children[k].Repr
      modifies this
      ensures Valid() && model == old(model).(children := kids)
      ensures forall o :: o in Repr ==> o in old(Repr) || exists j :: 0 <= j < |children| && o in children[j].Repr
    {
      if |children| == 4 {
        Repr := Repr + children[0].Repr + children[1].Repr + children[2].Repr + children[3].Repr;
      }
      model := model.(children := kids);
    }

    /** The loop itself: each child inserts `p`; the node's own fields stay as they are. */
    method OfferToChildren(p: Particle, fuel: nat)
      requires |model.children| == |children|
      requires forall j :: 0 <= j < |children| ==>
        children[j].Valid() && children[j].Repr <= Repr && this !in children[j].Repr && children[j].model == model.children[j]
      requires forall j, k :: 0 <= j < |children| && 0 <= k < |children| && j != k ==>
        children[j].Repr !! children[k].Repr
      modifies Repr - {this}
      ensures forall j :: 0 <= j < |children| ==>
        children[j].Valid() && this !in children[j].Repr && fresh(children[j].Repr - old(Repr))
        && children[j].model == TreeModel.Insert(old(model).children[j], p, fuel)
      ensures forall j, k :: 0 <= j < |children| && 0 <= k < |children| && j != k ==>
        children[j].Repr !! children[k].Repr
      decreases fuel + 1, 1
    {
      var cs := children;
      ghost var kids := model.children;
      for i := 0 to |cs|
        invariant forall j :: 0 <= j < |cs| ==>
          cs[j].Valid() && this !in cs[j].Repr && fresh(cs[j].Repr - old(Repr))
          && cs[j].model == if j < i then TreeModel.Insert(kids[j], p, fuel) else kids[j]
        invariant forall j, k :: 0 <= j < |cs| && 0 <= k < |cs| && j != k ==> cs[j].Repr !! cs[k].Repr
      {
        cs[i].Insert(p, fuel);
      }
    }

    /**
      * `QuadTree::subdivide`, called by `insert` on a full node without
      * children: creates the four children over the quadrants, offers each of
      * the node's particles to all of them, then empties the node's list.
      */
    method Subdivide(fuel: nat)
      requires Valid() && children == [] && fuel >= 1
      modifies Repr
      ensures Valid() && fresh(Repr - old(Repr))
      ensures model == TreeModel.Subdivide(old(model), fuel)
      decreases fuel, 4
    {
      MakeChildren();
      ghost var made := Repr;
      ReinsertPoints(points, fuel - 1);
      assert fresh(Repr - old(Repr)) by {
        assert Repr - old(Repr) <= (Repr - made) + (made - old(Repr));
      }
      ClearPoints();
    }

    /** The first step of `subdivide`: four new empty children over the quadrants, in quadrant order. */
    method MakeChildren()
      requires Valid() && children == []
      modifies this
      ensures Valid() && fresh(Repr - old(Repr))
      ensures model == old(model).(children := EmptyQuadrants(old(model).capacity, old(model).bounds))
    {
      var cs := NewLeaves(capacity, bounds);
      children, Repr, model := cs, Repr + {cs[0], cs[1], cs[2], cs[3]}, model.(children := EmptyQuadrants(capacity, bounds));
      FourLeavesValid();
      assert Repr - old(Repr) <= {cs[0], cs[1], cs[2], cs[3]};
    }

    /** The four `QuadTree::build` calls of `subdivide`: new empty nodes over the quadrants of `b`. */
    static method NewLeaves(capacity: nat, b: BoundingBox) returns (cs: seq<QuadTree>)
      ensures |cs| == 4
      ensures forall i :: 0 <= i < 4 ==>
        fresh(cs[i]) && cs[i].EmptyLeaf() && cs[i].model == EmptyQuadrants(capacity, b)[i]
      ensures forall i, j :: 0 <= i < j < 4 ==> cs[i] != cs[j]
    {
      var quads := b.SplitQuadrants();
      var c0 := new QuadTree.Build(capacity, quads[0]);
      var c1 := new QuadTree.Build(capacity, quads[1]);
      var c2 := new QuadTree.Build(capacity, quads[2]);
      var c3 := new QuadTree.Build(capacity, quads[3]);
      cs := [c0, c1, c2, c3];
    }

    /** The final step of `subdivide`: empties the node's own list, keeping its children. */
    method ClearPoints()
      requires Valid()
      modifies this
      ensures Valid() && Repr == old(Repr)
      ensures model == old(model).(points := [])
    {
      points := [];
      model := model.(points := []);
    }

    /** The outer loop of `subdivide`: offers each of `ps`, in order, to all four children. */
    method ReinsertPoints(ps: seq<Particle>, fuel: nat)
      requires Valid()
      modifies Repr
      ensures Valid() && fresh(Repr - old(Repr))
      ensures model == old(model).(children := Reinsert(old(model).children, ps, fuel))
      decreases fuel + 1, 3
    {
      for k := 0 to |ps|
        invariant Valid() && fresh(Repr - old(Repr))
        invariant model == old(model).(children := Reinsert(old(model).children, ps[..k], fuel))
      {
        InsertIntoChildren(ps[k], fuel);
        assert ps[..k + 1][..k] == ps[..k];
      }
      assert ps[..|ps|] == ps;
    }

    /**
      * `QuadTree::query_range`: the stored particles strictly inside `range`,
      * in pre-order; when the tree keeps its invariant, exactly those.
      */
    method QueryRange(range: BoundingBox) returns (output: seq<Particle>)
      requires Valid()
      ensures output == Query(model, range)
      ensures Inv(model) ==> output == Within(Elements(model), range)
    {
      output := RecursiveSearch(range, []);
      if Inv(model) {
        QueryExact(model, range);
      }
    }

    /**
      * `QuadTree::recursive_search`: appends to `outputs` the results of this
      * subtree, skipping it entirely when its bounds miss the range.
      */
    method RecursiveSearch(range: BoundingBox, outputs: seq<Particle>) returns (result: seq<Particle>)
      requires Valid()
      ensures result == outputs + Query(model, range)
      decreases Repr, 1
    {
      result := outputs;
      if !bounds.Overlaps(range) {
        return;
      }
      result := PushInside(points, range, result);
      ChildrenValid();
      result := SearchChildren(range, result);
    }

    /** The second loop of `recursive_search`: each child, in order, appends its own results. */
    method SearchChildren(range: BoundingBox, outputs: seq<Particle>) returns (result: seq<Particle>)
      requires |model.children| == |children|
      requires forall j :: 0 <= j < |children| ==>
        children[j].Valid() && children[j].Repr < Repr && children[j].model == model.children[j]
      ensures result == outputs + QueryOf(model.children, range)
      decreases Repr, 0
    {
      result := outputs;
      var cs := children;
      ghost var kids := model.children;
      for i := 0 to |cs|
        invariant result == outputs + QueryOf(kids[..i], range)
      {
        QueryOfStep(kids, i, range);
        result := cs[i].RecursiveSearch(range, result);
      }
      assert kids[..|cs|] == kids;
    }

    /** The first loop of `recursive_search`: appends to `outputs`, in order, the particles of `ps` strictly inside `range`. */
    static method PushInside(ps: seq<Particle>, range: BoundingBox, outputs: seq<Particle>) returns (result: seq<Particle>)
      ensures result == outputs + Within(ps, range)
    {
      result := outputs;
      for k := 0 to |ps|
        invariant result == outputs + Within(ps[..k], range)
      {
        WithinStep(ps, k, range);
        if range.Contains(ps[k].position) {
          result := result + [ps[k]];
        }
      }
      assert ps[..|ps|] == ps;
    }
  }
}
