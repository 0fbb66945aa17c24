/** The quadtree as a value: every operation of a node as a function on
    `Tree`, with the properties the structure promises proved about them.
    The class in module Index is proved to follow these functions. */
module SpatialTree {
  import opened Quadrants

  /** MAX_SPRITES_NUM: the list size at which a leaf splits. */
  const MaxSprites: int := 4
  /** MAX_LEVELS_NUM: nodes at this level or deeper never split in add. */
  const MaxLevels: int := 4

  /** A stored entry `{elem, x, y, width, height}`. */
  datatype Sprite<E> = Sprite(elem: E, rect: Rect)

  /** A node: its region, its level, its own entries and either no children
      (`nodes === null`) or exactly four. */
  datatype Tree<E> = Tree(bounds: Rect, level: int, sprites: seq<Sprite<E>>, nodes: Option<Quad<Tree<E>>>)

  /** A freshly constructed node. */
  function EmptyLeaf<E>(b: Rect, level: int): (r: Tree<E>)
    ensures r.bounds == b && r.level == level && r.nodes.None?
    ensures WellFormed(r) && Contents(r) == multiset{}
  {
    Tree(b, level, [], None)
  }

  /** Children sit one level below their parent, in the regions split gave
      them. */
  ghost predicate WellFormed<E>(t: Tree<E>)
    decreases t
  {
    match t.nodes
    case None => true
    case Some(c) =>
      Fits(t, c.topLeft, TopLeft) && Fits(t, c.topRight, TopRight) &&
      Fits(t, c.bottomLeft, BottomLeft) && Fits(t, c.bottomRight, BottomRight) &&
      WellFormed(c.topLeft) && WellFormed(c.topRight) &&
      WellFormed(c.bottomLeft) && WellFormed(c.bottomRight)
  }

  ghost predicate Fits<E>(t: Tree<E>, k: Tree<E>, q: Quarter)
  {
    k.level == t.level + 1 && k.bounds == ChildBounds(t.bounds, q)
  }

  lemma WellFormedChild<E>(t: Tree<E>, q: Quarter)
    requires WellFormed(t) && t.nodes.Some?
    ensures Fits(t, t.nodes.value.Get(q), q) && WellFormed(t.nodes.value.Get(q))
  {
  }

  /** Every entry stored anywhere in the subtree. */
  ghost function Contents<E>(t: Tree<E>): multiset<Sprite<E>>
    decreases t
  {
    multiset(t.sprites) +
    match t.nodes
    case None => multiset{}
    case Some(c) =>
      Contents(c.topLeft) + Contents(c.topRight) +
      Contents(c.bottomLeft) + Contents(c.bottomRight)
  }

  ghost function KidsContents<E>(c: Quad<Tree<E>>): multiset<Sprite<E>>
  {
    Contents(c.topLeft) + Contents(c.topRight) + Contents(c.bottomLeft) + Contents(c.bottomRight)
  }

  /** Replacing one child changes the children's contents by exactly the
      difference between the old and the new child. */
  lemma KidsContentsSet<E>(c: Quad<Tree<E>>, q: Quarter, v: Tree<E>)
    ensures KidsContents(c.Set(q, v)) + Contents(c.Get(q)) == KidsContents(c) + Contents(v)
  {
  }

  /** getQuarter: a leaf classifies nothing; a split node classifies by its
      borders. */
  function GetQuarter<E>(t: Tree<E>, r: Rect): (q: Option<Quarter>)
    ensures t.nodes.None? ==> q.None?
    ensures t.nodes.Some? ==> (q.None? <==> CrossesMidY(t.bounds, r) || CrossesMidX(t.bounds, r))
  {
    if t.nodes.None? then None else Classify(t.bounds, r)
  }

  /** split: a leaf gains four empty children one level down; a split node
      is left as it is. */
  function Split<E>(t: Tree<E>): (r: Tree<E>)
    ensures r.bounds == t.bounds && r.level == t.level && r.sprites == t.sprites
    ensures r.nodes.Some?
    ensures t.nodes.Some? ==> r == t
    ensures t.nodes.None? ==> forall q :: r.nodes.value.Get(q) == EmptyLeaf(ChildBounds(t.bounds, q), t.level + 1)
    ensures WellFormed(t) ==> WellFormed(r)
  {
    if t.nodes.Some? then t
    else
      var b, l := t.bounds, t.level + 1;
      t.(nodes := Some(Quad(EmptyLeaf(ChildBounds(b, TopLeft), l), EmptyLeaf(ChildBounds(b, TopRight), l),
                            EmptyLeaf(ChildBounds(b, BottomLeft), l), EmptyLeaf(ChildBounds(b, BottomRight), l))))
  }

  /** How many more levels a node may still split. */
  function Rank(level: int): nat
  {
    if level < MaxLevels then MaxLevels - level else 0
  }

  /** The node with child q replaced by v. */
  function WithChild<E>(t: Tree<E>, q: Quarter, v: Tree<E>): (r: Tree<E>)
    requires t.nodes.Some?
    ensures r.bounds == t.bounds && r.level == t.level && r.sprites == t.sprites
    ensures r.nodes.Some? && r.nodes.value == t.nodes.value.Set(q, v)
    ensures WellFormed(t) && Fits(t, v, q) && WellFormed(v) ==> WellFormed(r)
  {
    t.(nodes := Some(t.nodes.value.Set(q, v)))
  }

  /** add: delegate to the classified child, or append; a leaf that already
      holds MaxSprites entries below MaxLevels appends, splits and pushes its
      entries down. */
  function Add<E>(t: Tree<E>, s: Sprite<E>): (r: Tree<E>)
    requires WellFormed(t)
    ensures WellFormed(r) && r.bounds == t.bounds && r.level == t.level
    ensures t.nodes.Some? ==> r.nodes.Some?
    decreases Rank(t.level), 1, t
  {
    match GetQuarter(t, s.rect)
    case Some(q) =>
      WellFormedChild(t, q);
      WithChild(t, q, Add(t.nodes.value.Get(q), s))
    case None =>
      if |t.sprites| >= MaxSprites && t.level < MaxLevels then
        Redistribute(Split(t.(sprites := t.sprites + [s])), 0)
      else
        t.(sprites := t.sprites + [s])
  }

  /** The loop of add that, from index i on, moves every entry that
      classifies into its child (add, then splice) and steps over the rest. */
  function Redistribute<E>(t: Tree<E>, i: nat): (r: Tree<E>)
    requires WellFormed(t) && t.nodes.Some? && t.level < MaxLevels && i <= |t.sprites|
    ensures WellFormed(r) && r.bounds == t.bounds && r.level == t.level && r.nodes.Some?
    decreases Rank(t.level), 0, |t.sprites| - i
  {
    if i == |t.sprites| then t
    else
      var e := t.sprites[i];
      match GetQuarter(t, e.rect)
      case None => Redistribute(t, i + 1)
      case Some(q) => Redistribute(Move(t, i, q), i)
  }

  /** One moving step of that loop: entry i is added to child q and spliced
      out of the node's list. */
  function Move<E>(t: Tree<E>, i: nat, q: Quarter): (r: Tree<E>)
    requires WellFormed(t) && t.nodes.Some? && t.level < MaxLevels && i < |t.sprites|
    ensures WellFormed(r) && r.bounds == t.bounds && r.level == t.level && r.nodes.Some?
    ensures r.sprites == t.sprites[..i] + t.sprites[i + 1..]
    ensures r.nodes.value == t.nodes.value.Set(q, Add(t.nodes.value.Get(q), t.sprites[i]))
    decreases Rank(t.level), 0, |t.sprites| - i - 1
  {
    WellFormedChild(t, q);
    WithChild(t, q, Add(t.nodes.value.Get(q), t.sprites[i])).(sprites := t.sprites[..i] + t.sprites[i + 1..])
  }

  /** clear: an empty leaf with the same region and level. */
  function Clear<E>(t: Tree<E>): (r: Tree<E>)
    ensures r.bounds == t.bounds && r.level == t.level
    ensures r.nodes.None? && Contents(r) == multiset{}
  {
    EmptyLeaf(t.bounds, t.level)
  }

  /** The elems of a list of entries, in order. */
  function Elems<E>(s: seq<Sprite<E>>): (r: seq<E>)
    ensures |r| == |s| && forall k :: 0 <= k < |s| ==> r[k] == s[k].elem
  {
    seq(|s|, k requires 0 <= k < |s| => s[k].elem)
  }

  /** The entries getElemsNearby visits for r: this node's list, then the
      entries of the one child r classifies into. */
  function NearbyEntries<E>(t: Tree<E>, r: Rect): (v: seq<Sprite<E>>)
    ensures t.sprites <= v
    ensures GetQuarter(t, r).None? ==> v == t.sprites
    decreases t
  {
    t.sprites +
    match GetQuarter(t, r)
    case None => []
    case Some(q) =>
      match q
      case TopLeft => NearbyEntries(t.nodes.value.topLeft, r)
      case TopRight => NearbyEntries(t.nodes.value.topRight, r)
      case BottomLeft => NearbyEntries(t.nodes.value.bottomLeft, r)
      case BottomRight => NearbyEntries(t.nodes.value.bottomRight, r)
  }

  /** getElemsNearby. */
  function ElemsNearby<E>(t: Tree<E>, r: Rect): (v: seq<E>)
    ensures Elems(t.sprites) <= v
    ensures GetQuarter(t, r).None? ==> v == Elems(t.sprites)
  {
    Elems(NearbyEntries(t, r))
  }

  // ---------------------------------------------------------------------------
  // Conservation

  /** add stores exactly one more entry and loses none. */
  lemma {:induction false} AddContents<E>(t: Tree<E>, s: Sprite<E>)
    requires WellFormed(t)
    ensures Contents(Add(t, s)) == Contents(t) + multiset{s}
    decreases Rank(t.level), 1, t
  {
    match GetQuarter(t, s.rect)
    case Some(q) =>
      WellFormedChild(t, q);
      AddContents(t.nodes.value.Get(q), s);
      ReplaceContents(t, q, Add(t.nodes.value.Get(q), s), s);
    case None =>
      if |t.sprites| >= MaxSprites && t.level < MaxLevels {
        RedistributeContents(Split(t.(sprites := t.sprites + [s])), 0);
      }
  }

  /** Replacing child q by one that holds one more entry adds that entry to
      the node. */
  lemma ReplaceContents<E>(t: Tree<E>, q: Quarter, k: Tree<E>, s: Sprite<E>)
    requires t.nodes.Some?
    requires Contents(k) == Contents(t.nodes.value.Get(q)) + multiset{s}
    ensures Contents(WithChild(t, q, k)) == Contents(t) + multiset{s}
  {
    KidsContentsSet(t.nodes.value, q, k);
  }

  /** Redistribution moves entries between a node and its children and
      neither drops nor duplicates one. */
  lemma {:induction false} RedistributeContents<E>(t: Tree<E>, i: nat)
    requires WellFormed(t) && t.nodes.Some? && t.level < MaxLevels && i <= |t.sprites|
    ensures Contents(Redistribute(t, i)) == Contents(t)
    decreases Rank(t.level), 0, |t.sprites| - i
  {
    if i < |t.sprites| {
      var e := t.sprites[i];
      match GetQuarter(t, e.rect)
      case None => RedistributeContents(t, i + 1);
      case Some(q) =>
        WellFormedChild(t, q);
        var k := Add(t.nodes.value.Get(q), e);
        AddContents(t.nodes.value.Get(q), e);
        MoveContents(t, i, q, k);
        assert Move(t, i, q) == WithChild(t, q, k).(sprites := t.sprites[..i] + t.sprites[i + 1..]);
        RedistributeContents(Move(t, i, q), i);
    }
  }

  /** Moving entry i out of the list into child q, whose contents gain it,
      keeps the contents of the node. */
  lemma MoveContents<E>(t: Tree<E>, i: nat, q: Quarter, k: Tree<E>)
    requires t.nodes.Some? && i < |t.sprites|
    requires Contents(k) == Contents(t.nodes.value.Get(q)) + multiset{t.sprites[i]}
    ensures Contents(WithChild(t, q, k).(sprites := t.sprites[..i] + t.sprites[i + 1..])) == Contents(t)
  {
    var c, e := t.nodes.value, t.sprites[i];
    var r := WithChild(t, q, k).(sprites := t.sprites[..i] + t.sprites[i + 1..]);
    KidsContentsSet(c, q, k);
    assert t.sprites == t.sprites[..i] + [e] + t.sprites[i + 1..];
    SplitContents(r);
    SplitContents(t);
    MoveBalance(multiset(t.sprites), multiset(r.sprites), KidsContents(c), KidsContents(c.Set(q, k)),
                Contents(c.Get(q)), Contents(k), e);
  }

  /** The bookkeeping of a move: the list loses e, the children gain it. */
  lemma MoveBalance<T>(list: multiset<T>, list': multiset<T>, kids: multiset<T>, kids': multiset<T>,
                       child: multiset<T>, child': multiset<T>, e: T)
    requires list == list' + multiset{e}
    requires kids' + child == kids + child'
    requires child' == child + multiset{e}
    ensures list' + kids' == list + kids
  {
    forall x ensures (list' + kids')[x] == (list + kids)[x] {
      assert (kids' + child)[x] == (kids + child')[x];
    }
  }

  /** The contents of a split node: its own list and its children's. */
  lemma SplitContents<E>(t: Tree<E>)
    requires t.nodes.Some?
    ensures Contents(t) == multiset(t.sprites) + KidsContents(t.nodes.value)
  {
  }

  /** Each add raises count() by exactly one. */
  lemma AddCount<E>(t: Tree<E>, s: Sprite<E>)
    requires WellFormed(t)
    ensures |Contents(Add(t, s))| == |Contents(t)| + 1
  {
    AddContents(t, s);
  }

  // ---------------------------------------------------------------------------
  // Placement: where an entry may live

  /** Every entry of child k was classified into quarter q by parent region b. */
  ghost predicate Into<E>(b: Rect, q: Quarter, k: Tree<E>)
  {
    forall e :: e in Contents(k) ==> Classify(b, e.rect) == Some(q)
  }

  /** The first n entries of a split node's own list cross one of its
      borders. */
  ghost predicate StraddleUpTo<E>(t: Tree<E>, n: int)
    requires n <= |t.sprites|
  {
    forall k :: 0 <= k < n ==> Classify(t.bounds, t.sprites[k].rect).None?
  }

  /** The placement invariant: a split node keeps only entries that cross its
      borders, and every entry below child q was classified into q. */
  ghost predicate Placed<E>(t: Tree<E>)
    decreases t
  {
    t.nodes.Some? ==>
      StraddleUpTo(t, |t.sprites|) &&
      forall q :: Into(t.bounds, q, t.nodes.value.Get(q)) && Placed(t.nodes.value.Get(q))
  }

  /** Placement of a split node whose list is checked only before index n:
      the state of the redistribution loop. */
  ghost predicate PlacedUpTo<E>(t: Tree<E>, n: int)
  {
    t.nodes.Some? && n <= |t.sprites| && StraddleUpTo(t, n) &&
    forall q :: Into(t.bounds, q, t.nodes.value.Get(q)) && Placed(t.nodes.value.Get(q))
  }

  /** add keeps the placement invariant. */
  lemma {:induction false} AddPlaced<E>(t: Tree<E>, s: Sprite<E>)
    requires WellFormed(t) && Placed(t)
    ensures Placed(Add(t, s))
    decreases Rank(t.level), 1, t
  {
    match GetQuarter(t, s.rect)
    case Some(q) =>
      var c := t.nodes.value;
      WellFormedChild(t, q);
      AddPlaced(c.Get(q), s);
      AddContents(c.Get(q), s);
      var r := Add(t, s);
      assert r.nodes.value == c.Set(q, Add(c.Get(q), s));
      assert Into(t.bounds, q, Add(c.Get(q), s));
    case None =>
      if |t.sprites| >= MaxSprites && t.level < MaxLevels {
        var t1 := Split(t.(sprites := t.sprites + [s]));
        assert PlacedUpTo(t1, 0);
        RedistributePlaced(t1, 0);
      } else if t.nodes.Some? {
        assert StraddleUpTo(t.(sprites := t.sprites + [s]), |t.sprites| + 1);
      }
  }

  /** The redistribution loop ends with the placement invariant. */
  lemma {:induction false} RedistributePlaced<E>(t: Tree<E>, i: nat)
    requires WellFormed(t) && t.nodes.Some? && t.level < MaxLevels && i <= |t.sprites|
    requires PlacedUpTo(t, i)
    ensures Placed(Redistribute(t, i))
    decreases Rank(t.level), 0, |t.sprites| - i
  {
    if i < |t.sprites| {
      var e := t.sprites[i];
      match GetQuarter(t, e.rect)
      case None => RedistributePlaced(t, i + 1);
      case Some(q) =>
        var c := t.nodes.value;
        WellFormedChild(t, q);
        var k := Add(c.Get(q), e);
        AddPlaced(c.Get(q), e);
        AddContents(c.Get(q), e);
        var moved := Move(t, i, q);
        assert Into(t.bounds, q, k);
        assert PlacedUpTo(moved, i);
        RedistributePlaced(moved, i);
    }
  }

  // ---------------------------------------------------------------------------
  // Split threshold and depth ceiling

  /** A leaf below MaxLevels holds at most MaxSprites entries. */
  ghost predicate Bounded<E>(t: Tree<E>)
    decreases t
  {
    (t.nodes.None? && t.level < MaxLevels ==> |t.sprites| <= MaxSprites) &&
    (t.nodes.Some? ==> forall q :: Bounded(t.nodes.value.Get(q)))
  }

  /** add keeps every leaf below MaxLevels within MaxSprites entries. */
  lemma {:induction false} AddBounded<E>(t: Tree<E>, s: Sprite<E>)
    requires WellFormed(t) && Bounded(t)
    ensures Bounded(Add(t, s))
    decreases Rank(t.level), 1, t
  {
    match GetQuarter(t, s.rect)
    case Some(q) =>
      var c := t.nodes.value;
      WellFormedChild(t, q);
      AddBounded(c.Get(q), s);
      assert Add(t, s).nodes.value == c.Set(q, Add(c.Get(q), s));
    case None =>
      if |t.sprites| >= MaxSprites && t.level < MaxLevels {
        RedistributeBounded(Split(t.(sprites := t.sprites + [s])), 0);
      }
  }

  lemma {:induction false} RedistributeBounded<E>(t: Tree<E>, i: nat)
    requires WellFormed(t) && t.nodes.Some? && t.level < MaxLevels && i <= |t.sprites|
    requires forall q :: Bounded(t.nodes.value.Get(q))
    ensures Bounded(Redistribute(t, i))
    decreases Rank(t.level), 0, |t.sprites| - i
  {
    if i < |t.sprites| {
      var e := t.sprites[i];
      match GetQuarter(t, e.rect)
      case None => RedistributeBounded(t, i + 1);
      case Some(q) =>
        var c := t.nodes.value;
        WellFormedChild(t, q);
        AddBounded(c.Get(q), e);
        RedistributeBounded(Move(t, i, q), i);
    }
  }

  /** Only nodes below MaxLevels have children. */
  ghost predicate DepthOk<E>(t: Tree<E>)
    decreases t
  {
    t.nodes.Some? ==> t.level < MaxLevels && forall q :: DepthOk(t.nodes.value.Get(q))
  }

  /** add never gives children to a node at MaxLevels or deeper. */
  lemma {:induction false} AddDepthOk<E>(t: Tree<E>, s: Sprite<E>)
    requires WellFormed(t) && DepthOk(t)
    ensures DepthOk(Add(t, s))
    decreases Rank(t.level), 1, t
  {
    match GetQuarter(t, s.rect)
    case Some(q) =>
      var c := t.nodes.value;
      WellFormedChild(t, q);
      AddDepthOk(c.Get(q), s);
      assert Add(t, s).nodes.value == c.Set(q, Add(c.Get(q), s));
    case None =>
      if |t.sprites| >= MaxSprites && t.level < MaxLevels {
        RedistributeDepthOk(Split(t.(sprites := t.sprites + [s])), 0);
      }
  }

  lemma {:induction false} RedistributeDepthOk<E>(t: Tree<E>, i: nat)
    requires WellFormed(t) && t.nodes.Some? && t.level < MaxLevels && i <= |t.sprites|
    requires forall q :: DepthOk(t.nodes.value.Get(q))
    ensures DepthOk(Redistribute(t, i))
    decreases Rank(t.level), 0, |t.sprites| - i
  {
    if i < |t.sprites| {
      var e := t.sprites[i];
      match GetQuarter(t, e.rect)
      case None => RedistributeDepthOk(t, i + 1);
      case Some(q) =>
        var c := t.nodes.value;
        WellFormedChild(t, q);
        AddDepthOk(c.Get(q), e);
        RedistributeDepthOk(Move(t, i, q), i);
    }
  }

  /** Every node of the subtree is at level m or less. */
  ghost predicate LevelsAtMost<E>(t: Tree<E>, m: int)
    decreases t
  {
    t.level <= m && (t.nodes.Some? ==> forall q :: LevelsAtMost(t.nodes.value.Get(q), m))
  }

  /** From a root at level at most MaxLevels, no node of a tree that keeps
      the depth ceiling is at a level greater than MaxLevels. */
  lemma {:induction false} DepthCeiling<E>(t: Tree<E>)
    requires WellFormed(t) && DepthOk(t) && t.level <= MaxLevels
    ensures LevelsAtMost(t, MaxLevels)
    decreases t
  {
    if t.nodes.Some? {
      forall q ensures LevelsAtMost(t.nodes.value.Get(q), MaxLevels) {
        WellFormedChild(t, q);
        DepthCeiling(t.nodes.value.Get(q));
      }
    }
  }

  /** Adding to a leaf: it stays a leaf and simply appends exactly when it
      holds fewer than MaxSprites entries or is at MaxLevels or deeper. */
  lemma AddToLeaf<E>(t: Tree<E>, s: Sprite<E>)
    requires WellFormed(t) && t.nodes.None?
    ensures Add(t, s).nodes.None? <==> |t.sprites| < MaxSprites || t.level >= MaxLevels
    ensures Add(t, s).nodes.None? ==> Add(t, s).sprites == t.sprites + [s]
  {
  }

  /** The entries of s that cross a border of b, in order. */
  ghost function Straddlers<E>(b: Rect, s: seq<Sprite<E>>): (r: seq<Sprite<E>>)
    ensures forall k :: 0 <= k < |r| ==> r[k] in s && Classify(b, r[k].rect).None?
    ensures forall k :: 0 <= k < |s| && Classify(b, s[k].rect).None? ==> s[k] in r
  {
    if s == [] then []
    else (if Classify(b, s[0].rect).None? then [s[0]] else []) + Straddlers(b, s[1..])
  }

  /** The entries of s classified into quarter q of b, in order. */
  ghost function InQuarter<E>(b: Rect, q: Quarter, s: seq<Sprite<E>>): (r: seq<Sprite<E>>)
    ensures forall k :: 0 <= k < |r| ==> r[k] in s && Classify(b, r[k].rect) == Some(q)
    ensures forall k :: 0 <= k < |s| && Classify(b, s[k].rect) == Some(q) ==> s[k] in r
  {
    if s == [] then []
    else (if Classify(b, s[0].rect) == Some(q) then [s[0]] else []) + InQuarter(b, q, s[1..])
  }

  /** From index i on, redistribution keeps exactly the straddling entries,
      in order. */
  lemma {:induction false} RedistributeKeeps<E>(t: Tree<E>, i: nat)
    requires WellFormed(t) && t.nodes.Some? && t.level < MaxLevels && i <= |t.sprites|
    ensures Redistribute(t, i).sprites == t.sprites[..i] + Straddlers(t.bounds, t.sprites[i..])
    decreases |t.sprites| - i
  {
    var sp := t.sprites;
    if i < |sp| {
      var e := sp[i];
      assert sp[i..][0] == e && sp[i..][1..] == sp[i + 1..];
      match GetQuarter(t, e.rect)
      case None =>
        RedistributeKeeps(t, i + 1);
        assert sp[..i + 1] == sp[..i] + [e];
      case Some(q) =>
        var moved := Move(t, i, q);
        assert moved.sprites[..i] == sp[..i] && moved.sprites[i..] == sp[i + 1..];
        RedistributeKeeps(moved, i);
    }
  }

  /** From index i on, redistribution hands child p exactly the entries
      classified into p. */
  lemma {:induction false} RedistributeHands<E>(t: Tree<E>, i: nat, p: Quarter)
    requires WellFormed(t) && t.nodes.Some? && t.level < MaxLevels && i <= |t.sprites|
    ensures Contents(Redistribute(t, i).nodes.value.Get(p)) ==
            Contents(t.nodes.value.Get(p)) + multiset(InQuarter(t.bounds, p, t.sprites[i..]))
    decreases |t.sprites| - i
  {
    var sp := t.sprites;
    if i < |sp| {
      var e := sp[i];
      assert sp[i..][0] == e && sp[i..][1..] == sp[i + 1..];
      match GetQuarter(t, e.rect)
      case None =>
        RedistributeHands(t, i + 1, p);
      case Some(q) =>
        var moved := Move(t, i, q);
        assert moved.sprites[i..] == sp[i + 1..];
        RedistributeHands(moved, i, p);
        HandsStep(t, i, p, q);
    }
  }

  /** One move of entry i into child q, seen from child p: p gains the
      entry exactly when it is p that the entry classifies into. */
  lemma HandsStep<E>(t: Tree<E>, i: nat, p: Quarter, q: Quarter)
    requires WellFormed(t) && t.nodes.Some? && t.level < MaxLevels && i < |t.sprites|
    requires GetQuarter(t, t.sprites[i].rect) == Some(q)
    ensures Contents(Move(t, i, q).nodes.value.Get(p)) + multiset(InQuarter(t.bounds, p, t.sprites[i + 1..])) ==
            Contents(t.nodes.value.Get(p)) + multiset(InQuarter(t.bounds, p, t.sprites[i..]))
  {
    var sp, c, e := t.sprites, t.nodes.value, t.sprites[i];
    assert sp[i..][0] == e && sp[i..][1..] == sp[i + 1..];
    WellFormedChild(t, q);
    if p == q {
      AddContents(c.Get(q), e);
      assert InQuarter(t.bounds, p, sp[i..]) == [e] + InQuarter(t.bounds, p, sp[i + 1..]);
    } else {
      assert InQuarter(t.bounds, p, sp[i..]) == InQuarter(t.bounds, p, sp[i + 1..]);
    }
  }

  /** The add that finds MaxSprites entries in a leaf below MaxLevels splits
      it: the node keeps exactly the entries (old ones and the new one) that
      cross its borders, and child q holds exactly those classified into q. */
  lemma SplitOnAdd<E>(t: Tree<E>, s: Sprite<E>)
    requires WellFormed(t) && t.nodes.None?
    requires |t.sprites| >= MaxSprites && t.level < MaxLevels
    ensures Add(t, s).nodes.Some?
    ensures Add(t, s).sprites == Straddlers(t.bounds, t.sprites + [s])
    ensures forall q :: Contents(Add(t, s).nodes.value.Get(q)) == multiset(InQuarter(t.bounds, q, t.sprites + [s]))
  {
    var t1 := Split(t.(sprites := t.sprites + [s]));
    RedistributeKeeps(t1, 0);
    assert t1.sprites[0..] == t1.sprites;
    forall q ensures Contents(Add(t, s).nodes.value.Get(q)) == multiset(InQuarter(t.bounds, q, t.sprites + [s])) {
      RedistributeHands(t1, 0, q);
    }
  }

  // ---------------------------------------------------------------------------
  // Query

  /** A query returns this node's elems in list order, followed by what the
      one classified child returns. */
  lemma ElemsNearbyStep<E>(t: Tree<E>, r: Rect)
    ensures ElemsNearby(t, r) ==
            Elems(t.sprites) + match GetQuarter(t, r)
                               case None => []
                               case Some(q) => ElemsNearby(t.nodes.value.Get(q), r)
  {
    match GetQuarter(t, r)
    case None =>
    case Some(q) =>
      var sub := NearbyEntries(t.nodes.value.Get(q), r);
      assert NearbyEntries(t, r) == t.sprites + sub;
      assert Elems(t.sprites + sub) == Elems(t.sprites) + Elems(sub);
  }

  /** Every entry a query visits is a distinct stored entry: the result is a
      sub-multiset of the tree's contents. */
  lemma {:induction false} NearbyStored<E>(t: Tree<E>, r: Rect)
    ensures multiset(NearbyEntries(t, r)) <= Contents(t)
    decreases t
  {
    match GetQuarter(t, r)
    case None =>
    case Some(q) =>
      var c := t.nodes.value;
      match q
      case TopLeft => NearbyStored(c.topLeft, r);
      case TopRight => NearbyStored(c.topRight, r);
      case BottomLeft => NearbyStored(c.bottomLeft, r);
      case BottomRight => NearbyStored(c.bottomRight, r);
  }

  /** In a tree that keeps the placement invariant, querying with a stored
      entry's own rectangle visits that entry. */
  lemma {:induction false} NearbyFindsEntry<E>(t: Tree<E>, e: Sprite<E>)
    requires Placed(t) && e in Contents(t)
    ensures e in NearbyEntries(t, e.rect)
    decreases t
  {
    if e !in t.sprites {
      var c := t.nodes.value;
      var q :| q in {TopLeft, TopRight, BottomLeft, BottomRight} && e in Contents(c.Get(q));
      assert Into(t.bounds, q, c.Get(q));
      match q
      case TopLeft => NearbyFindsEntry(c.topLeft, e);
      case TopRight => NearbyFindsEntry(c.topRight, e);
      case BottomLeft => NearbyFindsEntry(c.bottomLeft, e);
      case BottomRight => NearbyFindsEntry(c.bottomRight, e);
    }
  }

  /** Hence getElemsNearby with an entry's own rectangle returns its elem. */
  lemma NearbyFindsElem<E>(t: Tree<E>, e: Sprite<E>)
    requires Placed(t) && e in Contents(t)
    ensures e.elem in ElemsNearby(t, e.rect)
  {
    NearbyFindsEntry(t, e);
    var k :| 0 <= k < |NearbyEntries(t, e.rect)| && NearbyEntries(t, e.rect)[k] == e;
    assert ElemsNearby(t, e.rect)[k] == e.elem;
  }

  /** The nodes a query for r visits: this node, then the descent path of the
      one child r classifies into. */
  function DescentPath<E>(t: Tree<E>, r: Rect): (p: seq<Tree<E>>)
    ensures |p| >= 1 && p[0] == t
    decreases t
  {
    [t] +
    match GetQuarter(t, r)
    case None => []
    case Some(q) =>
      match q
      case TopLeft => DescentPath(t.nodes.value.topLeft, r)
      case TopRight => DescentPath(t.nodes.value.topRight, r)
      case BottomLeft => DescentPath(t.nodes.value.bottomLeft, r)
      case BottomRight => DescentPath(t.nodes.value.bottomRight, r)
  }

  /** The total size of the lists of a sequence of nodes. */
  function ListSizes<E>(p: seq<Tree<E>>): nat
  {
    if p == [] then 0 else |p[0].sprites| + ListSizes(p[1..])
  }

  /** A query returns as many elems as the lists along its descent path
      hold. */
  lemma {:induction false} NearbyLength<E>(t: Tree<E>, r: Rect)
    ensures |ElemsNearby(t, r)| == ListSizes(DescentPath(t, r))
    decreases t
  {
    var p := DescentPath(t, r);
    assert p[1..] == (match GetQuarter(t, r)
                      case None => []
                      case Some(q) => DescentPath(t.nodes.value.Get(q), r));
    match GetQuarter(t, r)
    case None =>
    case Some(q) =>
      var c := t.nodes.value;
      match q
      case TopLeft => NearbyLength(c.topLeft, r);
      case TopRight => NearbyLength(c.topRight, r);
      case BottomLeft => NearbyLength(c.bottomLeft, r);
      case BottomRight => NearbyLength(c.bottomRight, r);
  }
}
