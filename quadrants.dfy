/** Rectangles, the four quadrants of a node and the quadrant classification
    that the quadtree uses to decide where an entry lives. */
module Quadrants {

  datatype Option<T> = None | Some(value: T)

  /** An axis-aligned rectangle: origin (x, y) and extents. */
  datatype Rect = Rect(x: int, y: int, width: int, height: int)

  /** The four child slots of a split node. */
  datatype Quarter = TopLeft | TopRight | BottomLeft | BottomRight
  {
    predicate IsTop() { this == TopLeft || this == TopRight }
    predicate IsLeft() { this == TopLeft || this == BottomLeft }
  }

  /** Four values indexed by quarter: the `nodes` record of a split node. */
  datatype Quad<T> = Quad(topLeft: T, topRight: T, bottomLeft: T, bottomRight: T)
  {
    function Get(q: Quarter): T
    {
      match q
      case TopLeft => topLeft
      case TopRight => topRight
      case BottomLeft => bottomLeft
      case BottomRight => bottomRight
    }

    function Set(q: Quarter, v: T): (r: Quad<T>)
      ensures r.Get(q) == v
      ensures forall p :: p != q ==> r.Get(p) == Get(p)
    {
      match q
      case TopLeft => this.(topLeft := v)
      case TopRight => this.(topRight := v)
      case BottomLeft => this.(bottomLeft := v)
      case BottomRight => this.(bottomRight := v)
    }
  }

  /** `parseInt(n / 2)` for an integer n with |n| < 2 * 10^21 (below that
      bound `n / 2` prints without an exponent, so `parseInt` reads back its
      integer part): halving, truncated toward zero. */
  function Half(n: int): (h: int)
    ensures n >= 0 ==> 0 <= 2 * h <= n && n - 2 * h <= 1
    ensures n < 0 ==> n <= 2 * h <= 0 && 2 * h - n <= 1
  {
    if n >= 0 then n / 2 else -((-n) / 2)
  }

  /** The horizontal border `y + parseInt(height/2)` and the vertical border
      `x + parseInt(width/2)` of a node's region. */
  function MidY(b: Rect): int { b.y + Half(b.height) }
  function MidX(b: Rect): int { b.x + Half(b.width) }

  /** A rectangle crosses the horizontal border: it starts on or above it
      and ends below it. A rectangle that starts exactly on the border and
      has a positive height crosses it. */
  predicate CrossesMidY(b: Rect, r: Rect) { r.y <= MidY(b) < r.y + r.height }
  predicate CrossesMidX(b: Rect, r: Rect) { r.x <= MidX(b) < r.x + r.width }

  /** The classification of `r` by a split node with region `b`: the single
      quadrant whose side of both borders `r` keeps to, or None when `r`
      crosses a border. A rectangle whose bottom (right) edge lies on a
      border belongs to the top (left) side; one whose top (left) edge lies
      on a border and that extends past it belongs to no quadrant, although
      it lies inside a bottom (right) child (see StartOnBorderStays). */
  function Classify(b: Rect, r: Rect): (q: Option<Quarter>)
    ensures q.None? <==> CrossesMidY(b, r) || CrossesMidX(b, r)
    ensures q.Some? ==> (q.value.IsTop() <==> r.y <= MidY(b))
    ensures q.Some? ==> (q.value.IsLeft() <==> r.x <= MidX(b))
  {
    var horizontalBorder := MidY(b);
    var verticalBorder := MidX(b);
    var isInTop := r.y <= horizontalBorder && r.y + r.height <= horizontalBorder;
    var isInBottom := r.y > horizontalBorder;
    var isInLeft := r.x <= verticalBorder && r.x + r.width <= verticalBorder;
    var isInRight := r.x > verticalBorder;
    if isInTop then
      if isInLeft then Some(TopLeft)
      else if isInRight then Some(TopRight)
      else None
    else if isInBottom then
      if isInLeft then Some(BottomLeft)
      else if isInRight then Some(BottomRight)
      else None
    else None
  }

  /** The region of the child in quarter q, as split computes it: every
      child is `parseInt(width/2)` by `parseInt(height/2)`, and the right and
      bottom children are offset by that half size. */
  function ChildBounds(b: Rect, q: Quarter): (r: Rect)
    ensures r.width == Half(b.width) && r.height == Half(b.height)
    ensures b.width >= 0 && b.height >= 0 ==> Inside(r, b)
  {
    var w := Half(b.width);
    var h := Half(b.height);
    match q
    case TopLeft => Rect(b.x, b.y, w, h)
    case TopRight => Rect(b.x + w, b.y, w, h)
    case BottomLeft => Rect(b.x, b.y + h, w, h)
    case BottomRight => Rect(b.x + w, b.y + h, w, h)
  }

  /** The unit cell at (px, py) lies in region b. */
  predicate HasPoint(b: Rect, px: int, py: int)
  {
    b.x <= px < b.x + b.width && b.y <= py < b.y + b.height
  }

  /** r lies within b. */
  predicate Inside(r: Rect, b: Rect)
  {
    b.x <= r.x && r.x + r.width <= b.x + b.width &&
    b.y <= r.y && r.y + r.height <= b.y + b.height
  }

  /** The four children never overlap. */
  lemma ChildrenDisjoint(b: Rect, p: Quarter, q: Quarter, px: int, py: int)
    requires b.width >= 0 && b.height >= 0
    requires HasPoint(ChildBounds(b, p), px, py) && HasPoint(ChildBounds(b, q), px, py)
    ensures p == q
  {
  }

  /** For even extents the four children tile the parent exactly: a cell is
      in the parent iff it is in some child. */
  lemma {:induction false} ChildrenTileEven(b: Rect, px: int, py: int)
    requires b.width >= 0 && b.height >= 0
    requires b.width % 2 == 0 && b.height % 2 == 0
    ensures HasPoint(b, px, py) <==> exists q :: HasPoint(ChildBounds(b, q), px, py)
  {
    if HasPoint(b, px, py) {
      var q :=
        if py < MidY(b) then (if px < MidX(b) then TopLeft else TopRight)
        else (if px < MidX(b) then BottomLeft else BottomRight);
      assert HasPoint(ChildBounds(b, q), px, py);
    }
  }

  /** For any non-negative extents, the cells the four children cover are
      exactly the parent's cells left of x + 2 * Half(width) and above
      y + 2 * Half(height). */
  lemma {:induction false} ChildrenCover(b: Rect, px: int, py: int)
    requires b.width >= 0 && b.height >= 0
    ensures (exists q :: HasPoint(ChildBounds(b, q), px, py)) <==>
            b.x <= px < b.x + 2 * Half(b.width) && b.y <= py < b.y + 2 * Half(b.height)
  {
    if b.x <= px < b.x + 2 * Half(b.width) && b.y <= py < b.y + 2 * Half(b.height) {
      var q :=
        if py < MidY(b) then (if px < MidX(b) then TopLeft else TopRight)
        else (if px < MidX(b) then BottomLeft else BottomRight);
      assert HasPoint(ChildBounds(b, q), px, py);
    }
  }

  /** For an odd width the children miss the rightmost column of the
      parent: each of its cells is in the parent but in no child. */
  lemma OddWidthLeavesStrip(b: Rect, q: Quarter, py: int)
    requires b.width % 2 == 1 && b.width > 0
    requires b.y <= py < b.y + b.height
    ensures HasPoint(b, b.x + b.width - 1, py)
    ensures !HasPoint(ChildBounds(b, q), b.x + b.width - 1, py)
  {
  }

  /** For an odd height the children miss the bottom row of the parent. */
  lemma OddHeightLeavesStrip(b: Rect, q: Quarter, px: int)
    requires b.height % 2 == 1 && b.height > 0
    requires b.x <= px < b.x + b.width
    ensures HasPoint(b, px, b.y + b.height - 1)
    ensures !HasPoint(ChildBounds(b, q), px, b.y + b.height - 1)
  {
  }

  /** An entry that starts exactly on the horizontal border lies wholly
      inside the bottom-left child, yet is classified into no quadrant: it
      stays at the node, so ClassifiedInsideChild has no converse. */
  lemma StartOnBorderStays()
    ensures Inside(Rect(10, 50, 5, 5), ChildBounds(Rect(0, 0, 100, 100), BottomLeft))
    ensures Classify(Rect(0, 0, 100, 100), Rect(10, 50, 5, 5)).None?
  {
  }

  /** In a region of even extents, a rectangle inside the region that is
      classified into quarter q lies inside that child's region. */
  lemma ClassifiedInsideChild(b: Rect, r: Rect)
    requires b.width >= 0 && b.height >= 0
    requires b.width % 2 == 0 && b.height % 2 == 0
    requires r.width >= 0 && r.height >= 0 && Inside(r, b)
    requires Classify(b, r).Some?
    ensures Inside(r, ChildBounds(b, Classify(b, r).value))
  {
  }
}
