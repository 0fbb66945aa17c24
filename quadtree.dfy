/** The quadtree node as the mutable object the program uses: a node owns
    its four children (its footprint `Repr`), `add`, `split` and `clear`
    update it in place, and the ghost field `Model` is the value in module
    SpatialTree that each operation is proved to follow. */
module Index {
  import opened Quadrants
  import opened SpatialTree

  class QuadTree<E> {
    const x: int
    const y: int
    const width: int
    const height: int
    const level: int
    var sprites: seq<Sprite<E>>
    var nodes: Option<Quad<QuadTree<E>>>
    ghost var Model: Tree<E>
    ghost var Repr: set<object>

    function Bounds(): Rect { Rect(x, y, width, height) }

    /** The object invariant: `Model` is a well-formed tree that mirrors this
        node's region, level and list and its children's models; a node owns
        its children, which own disjoint parts of the tree and sit one level
        down. */
    ghost predicate Valid()
      reads this, Repr
      ensures Valid() ==> this in Repr && WellFormed(Model)
      decreases Repr
    {
      this in Repr && WellFormed(Model) &&
      Model.bounds == Bounds() && Model.level == level && Model.sprites == sprites &&
      match nodes
      case None => Model.nodes == None
      case Some(c) =>
        Model.nodes.Some? &&
        (forall q :: Owns(c.Get(q))) &&
        (forall p, q :: p != q ==> c.Get(p).Repr !! c.Get(q).Repr) &&
        (forall q :: c.Get(q).Valid()) &&
        (forall q :: Model.nodes.value.Get(q) == c.Get(q).Model)
    }

    /** k is owned by this node as a child: inside the footprint, not
        containing this node, one level down. */
    ghost predicate Owns(k: QuadTree<E>)
      reads this, Repr
    {
      this in Repr && k in Repr && k.Repr <= Repr && this !in k.Repr && k.level == level + 1
    }

    /** new QuadTree(x, y, width, height, level): an empty leaf. */
    constructor (x: int, y: int, width: int, height: int, level: int)
      ensures Valid() && Repr == {this}
      ensures this.x == x && this.y == y && this.width == width && this.height == height && this.level == level
      ensures sprites == [] && nodes == None
      ensures Model == EmptyLeaf(Rect(x, y, width, height), level)
    {
      this.x, this.y, this.width, this.height, this.level := x, y, width, height, level;
      sprites := [];
      nodes := None;
      Model := EmptyLeaf(Rect(x, y, width, height), level);
      Repr := {this};
    }

    /** getQuarter: the child a rectangle belongs to; always None on a
        leaf. */
    function GetQuarter(x: int, y: int, width: int, height: int): (q: Option<Quarter>)
      reads this
      ensures nodes.None? ==> q.None?
      ensures nodes.Some? ==> (q.None? <==> CrossesMidY(Bounds(), Rect(x, y, width, height)) ||
                                            CrossesMidX(Bounds(), Rect(x, y, width, height)))
      ensures q.Some? ==> (q.value.IsTop() <==> y <= MidY(Bounds())) && (q.value.IsLeft() <==> x <= MidX(Bounds()))
    {
      if nodes.None? then None else Classify(Bounds(), Rect(x, y, width, height))
    }

    /** count: the number of entries stored in the subtree, its own list
        first, then the children in the order top-left, top-right,
        bottom-right, bottom-left. */
    function Count(): (n: nat)
      reads this, Repr
      requires Valid()
      ensures |sprites| <= n
      ensures nodes.None? ==> n == |sprites|
      decreases Repr
    {
      |sprites| +
      match nodes
      case None => 0
      case Some(c) =>
        c.Get(TopLeft).Count() + c.Get(TopRight).Count() + c.Get(BottomRight).Count() + c.Get(BottomLeft).Count()
    }

    /** What count returns is the number of entries in the model, counted
        with multiplicity. */
    lemma CountIsSize()
      requires Valid()
      ensures Count() == |Contents(Model)|
      decreases Repr
    {
      if nodes.Some? {
        var c := nodes.value;
        c.Get(TopLeft).CountIsSize();
        c.Get(TopRight).CountIsSize();
        c.Get(BottomLeft).CountIsSize();
        c.Get(BottomRight).CountIsSize();
        assert Model.nodes.value == Quad(c.Get(TopLeft).Model, c.Get(TopRight).Model,
                                         c.Get(BottomLeft).Model, c.Get(BottomRight).Model);
      }
    }

    /** add: store an entry in the child it classifies into, or else here;
        a full node whose level is below MAX_LEVELS_NUM is split and its
        entries handed down. */
    method Add(elem: E, x: int, y: int, width: int, height: int)
      requires Valid()
      modifies Repr
      ensures Valid() && fresh(Repr - old(Repr))
      ensures Model == SpatialTree.Add(old(Model), Sprite(elem, Rect(x, y, width, height)))
      decreases Rank(level), 1, Repr, 1
    {
      var s := Sprite(elem, Rect(x, y, width, height));
      var quarter := GetQuarter(x, y, width, height);
      if nodes.Some? && quarter.Some? {
        AddToChild(quarter.value, elem, x, y, width, height);
      } else if |sprites| >= MaxSprites && level < MaxLevels {
        Append(s);
        Split();
        Redistribute();
      } else {
        Append(s);
      }
    }

    /** The loop of add after a split: every entry of the list that
        classifies into a child is added to it and spliced out; the index
        advances only past entries that stay. */
    method Redistribute()
      requires Valid() && nodes.Some? && level < MaxLevels
      modifies Repr
      ensures Valid() && fresh(Repr - old(Repr))
      ensures Model == SpatialTree.Redistribute(old(Model), 0)
      decreases Rank(level), 0
    {
      ghost var goal := SpatialTree.Redistribute(Model, 0);
      var i := 0;
      while i < |sprites|
        invariant Valid() && nodes.Some? && fresh(Repr - old(Repr))
        invariant i <= |sprites|
        invariant SpatialTree.Redistribute(Model, i) == goal
        decreases |sprites| - i
      {
        var sprite := sprites[i];
        var q := GetQuarter(sprite.rect.x, sprite.rect.y, sprite.rect.width, sprite.rect.height);
        if q.Some? {
          AddToChild(q.value, sprite.elem, sprite.rect.x, sprite.rect.y, sprite.rect.width, sprite.rect.height);
          Splice(i);
        } else {
          i := i + 1;
        }
      }
    }

    /** A caller's view of add: count() rises by exactly one. */
    static method AddRaisesCount(t: QuadTree<E>, elem: E, x: int, y: int, width: int, height: int)
      requires t.Valid()
      modifies t.Repr
      ensures t.Valid() && t.Count() == old(t.Count()) + 1
    {
      t.CountIsSize();
      ghost var m := t.Model;
      t.Add(elem, x, y, width, height);
      t.CountIsSize();
      AddCount(m, Sprite(elem, Rect(x, y, width, height)));
    }

    /** The delegation of add to the child in quarter q. */
    method AddToChild(q: Quarter, elem: E, x: int, y: int, width: int, height: int)
      requires Valid() && nodes.Some?
      modifies Repr
      ensures Valid() && fresh(Repr - old(Repr)) && sprites == old(sprites) && nodes == old(nodes)
      ensures Model == WithChild(old(Model), q, SpatialTree.Add(old(nodes.value.Get(q).Model),
                                                                  Sprite(elem, Rect(x, y, width, height))))
      decreases Rank(level + 1), 1, nodes.value.Get(q).Repr, 2
    {
      var child := nodes.value.Get(q);
      child.Add(elem, x, y, width, height);
      Repr, Model := Repr + child.Repr, WithChild(Model, q, child.Model);
      ghost var c := nodes.value;
      forall p | p != q
        ensures c.Get(p).Valid() && c.Get(p).Repr == old(c.Get(p).Repr) && c.Get(p).Model == old(c.Get(p).Model)
      {
        Untouched(c.Get(p));
      }
    }

    /** A valid node none of whose footprint an operation touched is still
        valid and unchanged. */
    static twostate lemma Untouched(k: QuadTree<E>)
      requires old(k.Valid()) && unchanged(old(k.Repr))
      ensures k.Valid() && k.Repr == old(k.Repr) && k.Model == old(k.Model)
    {
    }

    /** Appending an entry to this node's own list. */
    method Append(s: Sprite<E>)
      requires Valid()
      modifies this
      ensures Valid() && Repr == old(Repr) && nodes == old(nodes) && sprites == old(sprites) + [s]
      ensures Model == old(Model).(sprites := old(sprites) + [s])
    {
      sprites, Model := sprites + [s], Model.(sprites := sprites + [s]);
    }

    /** `sprites.splice(i, 1)`: removing the entry at index i. */
    method Splice(i: nat)
      requires Valid() && i < |sprites|
      modifies this
      ensures Valid() && Repr == old(Repr) && nodes == old(nodes)
      ensures sprites == old(sprites[..i] + sprites[i + 1..])
      ensures Model == old(Model).(sprites := sprites)
    {
      sprites, Model := sprites[..i] + sprites[i + 1..], Model.(sprites := sprites[..i] + sprites[i + 1..]);
    }

    /** split: give a leaf four empty children; a split node is left
        unchanged. */
    method Split()
      requires Valid()
      modifies this
      ensures Valid() && fresh(Repr - old(Repr))
      ensures sprites == old(sprites)
      ensures old(nodes).Some? ==> nodes == old(nodes) && Repr == old(Repr)
      ensures Model == SpatialTree.Split(old(Model))
    {
      if nodes.None? {
        var c := NewLeaves();
        nodes := Some(c);
        Repr := Repr + {c.topLeft, c.topRight, c.bottomLeft, c.bottomRight};
        Model := SpatialTree.Split(Model);
        NewChildren();
      }
    }

    /** The four children split allocates, one per quarter, each an empty
        leaf one level down over `ChildBounds`. */
    method NewLeaves() returns (c: Quad<QuadTree<E>>)
      ensures fresh(c.topLeft) && fresh(c.topRight) && fresh(c.bottomLeft) && fresh(c.bottomRight)
      ensures Leaf(c.topLeft, TopLeft) && Leaf(c.topRight, TopRight)
      ensures Leaf(c.bottomLeft, BottomLeft) && Leaf(c.bottomRight, BottomRight)
      ensures |{this, c.topLeft, c.topRight, c.bottomLeft, c.bottomRight}| == 5
    {
      var w := Half(width);
      var h := Half(height);
      var topLeft := new QuadTree(x, y, w, h, level + 1);
      var topRight := new QuadTree(x + w, y, w, h, level + 1);
      var bottomLeft := new QuadTree(x, y + h, w, h, level + 1);
      var bottomRight := new QuadTree(x + w, y + h, w, h, level + 1);
      c := Quad(topLeft, topRight, bottomLeft, bottomRight);
    }

    /** The state split leaves behind: four distinct fresh leaves. */
    lemma NewChildren()
      requires this in Repr && nodes.Some?
      requires Model == SpatialTree.Split(Tree(Bounds(), level, sprites, None))
      requires var c := nodes.value;
        {c.topLeft, c.topRight, c.bottomLeft, c.bottomRight} <= Repr &&
        Leaf(c.topLeft, TopLeft) && Leaf(c.topRight, TopRight) &&
        Leaf(c.bottomLeft, BottomLeft) && Leaf(c.bottomRight, BottomRight) &&
        |{this, c.topLeft, c.topRight, c.bottomLeft, c.bottomRight}| == 5
      ensures Valid()
    {
      var c := nodes.value;
      forall q ensures Owns(c.Get(q)) && c.Get(q).Valid() && Model.nodes.value.Get(q) == c.Get(q).Model {
        assert Leaf(c.Get(q), q);
      }
    }

    /** k is an empty leaf that split made for quarter q. */
    ghost predicate Leaf(k: QuadTree<E>, q: Quarter)
      reads this, k
    {
      k.Repr == {k} && k.nodes.None? && k.sprites == [] &&
      k.level == level + 1 && k.Bounds() == ChildBounds(Bounds(), q) &&
      k.Model == EmptyLeaf(ChildBounds(Bounds(), q), level + 1)
    }

    /** clear: empty the subtree and turn this node back into a leaf. */
    method Clear()
      requires Valid()
      modifies Repr
      ensures Valid() && Repr == {this} && sprites == [] && nodes == None
      ensures Model == SpatialTree.Clear(old(Model)) && Count() == 0
      ensures old(nodes).Some? ==> var c := old(nodes).value;
        forall q :: Cleared(c.Get(q))
      decreases Repr, 0
    {
      sprites := [];
      if nodes.Some? {
        ClearChildren(nodes.value);
        nodes := None;
      }
      Model := EmptyLeaf(Bounds(), level);
      Repr := {this};
    }

    /** The recursive part of clear: each of the four children is cleared in
        turn, the top-left one first. */
    method ClearChildren(c: Quad<QuadTree<E>>)
      requires forall q :: c.Get(q).Valid()
      requires forall p, q :: p != q ==> c.Get(p).Repr !! c.Get(q).Repr
      modifies c.Get(TopLeft).Repr, c.Get(TopRight).Repr, c.Get(BottomLeft).Repr, c.Get(BottomRight).Repr
      ensures forall q :: Cleared(c.Get(q))
      decreases c.Get(TopLeft).Repr + c.Get(TopRight).Repr + c.Get(BottomLeft).Repr + c.Get(BottomRight).Repr, 1
    {
      c.Get(TopLeft).Clear();
      c.Get(TopRight).Clear();
      c.Get(BottomLeft).Clear();
      c.Get(BottomRight).Clear();
    }

    /** k has been cleared: an empty leaf owning only itself. */
    static ghost predicate Cleared(k: QuadTree<E>)
      reads k
    {
      k.Repr == {k} && k.sprites == [] && k.nodes == None && k.Model == EmptyLeaf(k.Bounds(), k.level)
    }

    /** getElemsNearby: the elems of this node's list, followed by those the
        classified child returns. */
    method GetElemsNearby(x: int, y: int, width: int, height: int) returns (result: seq<E>)
      requires Valid()
      ensures result == ElemsNearby(Model, Rect(x, y, width, height))
      decreases Repr
    {
      result := [];
      for i := 0 to |sprites|
        invariant result == Elems(sprites[..i])
      {
        assert sprites[..i + 1] == sprites[..i] + [sprites[i]];
        result := result + [sprites[i].elem];
      }
      assert sprites[..|sprites|] == sprites;
      var quarter := GetQuarter(x, y, width, height);
      if quarter.Some? {
        var child := nodes.value.Get(quarter.value);
        var subResult := child.GetElemsNearby(x, y, width, height);
        for j := 0 to |subResult|
          invariant result == Elems(sprites) + subResult[..j]
        {
          assert subResult[..j + 1] == subResult[..j] + [subResult[j]];
          result := result + [subResult[j]];
        }
        assert subResult[..|subResult|] == subResult;
      }
      ElemsNearbyStep(Model, Rect(x, y, width, height));
    }
  }
}
