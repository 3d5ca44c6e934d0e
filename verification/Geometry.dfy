/** From several displays to one boundary, and from a cursor position to an edge event. */
module Geometry {
  import opened Common

  const I32_LIMIT := 0x8000_0000

  /** Conversion to 32 bits, unsigned and signed. */
  function U32(x: int): (r: nat)
    ensures r < U32_SIZE
    ensures 0 <= x < U32_SIZE ==> r == x
  {
    x % U32_SIZE
  }

  function I32(x: int): (r: int)
    ensures -I32_LIMIT <= r < I32_LIMIT
    ensures -I32_LIMIT <= x < I32_LIMIT ==> r == x
  {
    (x + I32_LIMIT) % U32_SIZE - I32_LIMIT
  }

  type Size = n: nat | n < U32_SIZE

  /** A display in the coordinates of the desktop. */
  datatype Display = Display(x: int, y: int, width: Size, height: Size)

  datatype Box = Box(left: int, top: int, right: int, bottom: int)
  datatype Point = Point(x: int, y: int)
  datatype Boundary = Boundary(width: Size, height: Size, originX: Size, originY: Size)
  datatype Direction = Left | Right
  datatype EdgeEvent = EdgeEvent(direction: Direction, overflow: Size, cursorY: Size)

  const NOWHERE := Boundary(0, 0, 0, 0)

  // ---- the bounding box --------------------------------------------------------------------------

  function BoxOf(d: Display): Box {
    Box(d.x, d.y, d.x + d.width, d.y + d.height)
  }

  function Join(a: Box, b: Box): Box {
    Box(Min(a.left, b.left), Min(a.top, b.top), Max(a.right, b.right), Max(a.bottom, b.bottom))
  }

  function BoundingBox(displays: seq<Display>): Box {
    if displays == [] then Box(0, 0, 0, 0)
    else if |displays| == 1 then BoxOf(displays[0])
    else Join(BoundingBox(displays[..|displays| - 1]), BoxOf(displays[|displays| - 1]))
  }

  predicate Within(a: Box, b: Box) {
    b.left <= a.left && b.top <= a.top && a.right <= b.right && a.bottom <= b.bottom
  }

  predicate ContainsAll(b: Box, displays: seq<Display>) {
    forall i :: 0 <= i < |displays| ==> Within(BoxOf(displays[i]), b)
  }

  /** A box contains every display exactly when it contains the bounding box, which is therefore the least. */
  lemma {:induction false} BoundingBoxIsLeast(displays: seq<Display>, b: Box)
    requires displays != []
    ensures ContainsAll(b, displays) <==> Within(BoundingBox(displays), b)
  {
    if |displays| > 1 {
      var n := |displays| - 1;
      BoundingBoxIsLeast(displays[..n], b);
      assert ContainsAll(b, displays) <==> ContainsAll(b, displays[..n]) && Within(BoxOf(displays[n]), b);
    }
  }

  // ---- the edge ----------------------------------------------------------------------------------

  function Normalize(p: Point, b: Box): Point {
    Point(I32(p.x - b.left), I32(p.y - b.top))
  }

  function MergedBoundary(b: Box): Boundary {
    Boundary(U32(b.right - b.left), U32(b.bottom - b.top), 0, 0)
  }

  function Detect(cursor: Point, boundary: Boundary): Option<EdgeEvent> {
    var width, height := I32(boundary.width), I32(boundary.height);
    if boundary.width == 0 || boundary.height == 0 then None
    else if cursor.y < 0 || cursor.y > height then None
    else if cursor.x < 0 then Some(EdgeEvent(Left, U32(-cursor.x), U32(cursor.y)))
    else if cursor.x > width then Some(EdgeEvent(Right, U32(cursor.x - width), U32(cursor.y)))
    else None
  }

  predicate FitsI32(x: int) {
    -I32_LIMIT <= x < I32_LIMIT
  }

  /** The point and the box as they look after all differences have been cut to 32 bits. */
  function SeenPoint(p: Point, b: Box): Point {
    Point(b.left + I32(p.x - b.left), b.top + I32(p.y - b.top))
  }

  function SeenBox(b: Box): Box {
    Box(b.left, b.top, b.left + I32(b.right - b.left), b.top + I32(b.bottom - b.top))
  }

  /** For every point and box the event is the distance of the seen point to the side of the seen box it lies on. */
  lemma EventIsSeenDistance(p: Point, b: Box)
    ensures var event, q, c := Detect(Normalize(p, b), MergedBoundary(b)), SeenPoint(p, b), SeenBox(b);
      && (event.Some? <==>
            && MergedBoundary(b).width > 0 && MergedBoundary(b).height > 0
            && c.top <= q.y <= c.bottom && (q.x < c.left || q.x > c.right))
      && (event.Some? ==> event.value.cursorY == q.y - c.top)
      && (event.Some? && q.x < c.left ==> event.value.direction == Left && event.value.overflow == c.left - q.x)
      && (event.Some? && q.x >= c.left ==> event.value.direction == Right && event.value.overflow == q.x - c.right)
  {
    SignedOfUnsigned(b.right - b.left);
    SignedOfUnsigned(b.bottom - b.top);
    hide I32, U32;
  }

  lemma SignedOfUnsigned(x: int)
    ensures I32(U32(x)) == I32(x)
  {
    var q := x / U32_SIZE;
    assert x + I32_LIMIT == q * U32_SIZE + (U32(x) + I32_LIMIT);
  }

  /** Sizes and distances stay within 32 signed bits. */
  predicate InRange(p: Point, b: Box) {
    && 0 < b.right - b.left < I32_LIMIT && 0 < b.bottom - b.top < I32_LIMIT
    && FitsI32(p.x - b.left) && FitsI32(p.y - b.top)
  }

  /** Within that range what is seen is what is there, so the event is the true distance. */
  lemma EventIsDistance(p: Point, b: Box)
    requires InRange(p, b)
    ensures SeenPoint(p, b) == p && SeenBox(b) == b
    ensures var event := Detect(Normalize(p, b), MergedBoundary(b));
      && (event.Some? <==> b.top <= p.y <= b.bottom && (p.x < b.left || p.x > b.right))
      && (event.Some? ==> event.value.cursorY == p.y - b.top)
      && (event.Some? && p.x < b.left ==> event.value.direction == Left && event.value.overflow == b.left - p.x)
      && (event.Some? && p.x > b.right ==> event.value.direction == Right && event.value.overflow == p.x - b.right)
  {
    hide I32, U32;
  }

  predicate InDisplay(p: Point, d: Display) {
    d.x <= p.x <= d.x + d.width && d.y <= p.y <= d.y + d.height
  }

  /** No side is so long that it does not fit 32 unsigned bits. */
  predicate SidesFit(b: Box) {
    0 <= b.right - b.left < U32_SIZE && 0 <= b.bottom - b.top < U32_SIZE
  }

  /** As unsigned 32-bit numbers, the width fits 32 signed bits, or the height is such that no height counts as inside. */
  predicate Quiet(b: Box) {
    var width, height := U32(b.right - b.left), U32(b.bottom - b.top);
    width < I32_LIMIT || height >= I32_LIMIT || height == 0
  }

  /** No point on any of the displays is reported as having left them. */
  ghost predicate NoFalseEvent(displays: seq<Display>) {
    forall i: nat, p :: i < |displays| && InDisplay(p, displays[i]) ==>
      Detect(Normalize(p, BoundingBox(displays)), MergedBoundary(BoundingBox(displays))) == None
  }

  lemma InBoxNoEvent(p: Point, b: Box)
    requires b.left <= p.x <= b.right && b.top <= p.y <= b.bottom && SidesFit(b) && Quiet(b)
    ensures Detect(Normalize(p, b), MergedBoundary(b)) == None
  {
    var height := b.bottom - b.top;
    if height >= I32_LIMIT {
      assert I32(height) == height - U32_SIZE < 0;
    }
  }

  /** At any quiet size of the bounding box, a point on any of the displays gives no event. */
  lemma OnADisplayNoEvent(displays: seq<Display>, i: nat, p: Point)
    requires i < |displays| && InDisplay(p, displays[i])
    requires SidesFit(BoundingBox(displays)) && Quiet(BoundingBox(displays))
    ensures var b := BoundingBox(displays); Detect(Normalize(p, b), MergedBoundary(b)) == None
  {
    var b := BoundingBox(displays);
    BoundingBoxIsLeast(displays, b);
    assert Within(BoxOf(displays[i]), b);
    hide I32, U32, BoundingBox;
    InBoxNoEvent(p, b);
  }

  /** The left side of the bounding box belongs to a display. */
  lemma {:induction false} SomeLeft(displays: seq<Display>)
    requires displays != []
    ensures exists i: nat :: i < |displays| && displays[i].x == BoundingBox(displays).left
  {
    var n := |displays| - 1;
    if n == 0 {
      assert displays[0].x == BoundingBox(displays).left;
    } else {
      var earlier := displays[..n];
      SomeLeft(earlier);
      var i: nat :| i < |earlier| && earlier[i].x == BoundingBox(earlier).left;
      assert displays[i] == earlier[i];
    }
  }

  /** A point on the left side of a box that is not quiet gives an event. */
  lemma LeftSideIsReported(p: Point, b: Box)
    requires p.x == b.left && b.top <= p.y <= b.bottom && SidesFit(b) && !Quiet(b)
    ensures Detect(Normalize(p, b), MergedBoundary(b)).Some?
  {
    var width := b.right - b.left;
    assert I32(width) == width - U32_SIZE < 0;
  }

  /**
   Points on the displays are never reported as having left them if and only if the merged width
   is below 2^31, or the merged height is 0 or at least 2^31.
   */
  lemma NoFalseEventIff(displays: seq<Display>)
    requires SidesFit(BoundingBox(displays))
    ensures NoFalseEvent(displays) <==> Quiet(BoundingBox(displays))
  {
    var b := BoundingBox(displays);
    hide Detect, Normalize, MergedBoundary, SidesFit;
    if Quiet(b) {
      forall i: nat, p | i < |displays| && InDisplay(p, displays[i])
        ensures Detect(Normalize(p, b), MergedBoundary(b)) == None
      {
        OnADisplayNoEvent(displays, i, p);
      }
    } else {
      assert displays != [];
      SomeLeft(displays);
      var i: nat :| i < |displays| && displays[i].x == b.left;
      BoundingBoxIsLeast(displays, b);
      assert Within(BoxOf(displays[i]), b);
      var p := Point(displays[i].x, displays[i].y);
      assert InDisplay(p, displays[i]);
      LeftSideIsReported(p, b);
    }
  }

  /** The corner of a box, whether or not a display lies there, is quiet under the same condition. */
  lemma CornerIsQuietIff(b: Box)
    ensures Detect(Normalize(Point(b.left, b.top), b), MergedBoundary(b)) == None <==> Quiet(b)
  {
    EventIsSeenDistance(Point(b.left, b.top), b);
    SignedOfUnsigned(b.right - b.left);
    SignedOfUnsigned(b.bottom - b.top);
    assert forall u :: 0 <= u < U32_SIZE ==> (I32(u) < 0 <==> u >= I32_LIMIT);
    hide Detect;
  }

  // ---- the two ways to merge -----------------------------------------------------------------------

  function AsBoundary(d: Display): Boundary {
    Boundary(d.width, d.height, U32(d.x), U32(d.y))
  }

  function AsBoundaries(displays: seq<Display>): (r: seq<Boundary>)
    ensures |r| == |displays|
    ensures forall i :: 0 <= i < |r| ==> r[i] == AsBoundary(displays[i])
  {
    seq(|displays|, i requires 0 <= i < |displays| => AsBoundary(displays[i]))
  }

  /** The running minimum and maximum, whose sums wrap around at 32 bits. */
  function WrappedBox(boundaries: seq<Boundary>): (r: Box)
    requires boundaries != []
  {
    var last := boundaries[|boundaries| - 1];
    var box := Box(last.originX, last.originY, U32(last.originX + last.width), U32(last.originY + last.height));
    if |boundaries| == 1 then box else Join(WrappedBox(boundaries[..|boundaries| - 1]), box)
  }

  function MergeBoundingBox(boundaries: seq<Boundary>): Boundary {
    if boundaries == [] then NOWHERE else MergedBoundary(WrappedBox(boundaries))
  }

  predicate OriginsFit(displays: seq<Display>) {
    forall i :: 0 <= i < |displays| ==> 0 <= displays[i].x < U32_SIZE && 0 <= displays[i].y < U32_SIZE
  }

  function WrappedRight(d: Display): int {
    U32(d.x + d.width)
  }

  function WrappedBottom(d: Display): int {
    U32(d.y + d.height)
  }

  /** No wrapped right or bottom edge is larger than the wrapped right or bottom of the bounding box. */
  predicate LargestStaysLargest(displays: seq<Display>, b: Box) {
    NoneAbove(displays, WrappedRight, U32(b.right)) && NoneAbove(displays, WrappedBottom, U32(b.bottom))
  }

  predicate NoneAbove(displays: seq<Display>, edge: Display -> int, m: int) {
    forall i :: 0 <= i < |displays| ==> edge(displays[i]) <= m
  }

  ghost predicate IsLargest(displays: seq<Display>, edge: Display -> int, m: int) {
    && NoneAbove(displays, edge, m)
    && (exists i :: 0 <= i < |displays| && m == edge(displays[i]))
  }

  lemma LargestGrows(displays: seq<Display>, edge: Display -> int, m: int)
    requires displays != [] && IsLargest(displays[..|displays| - 1], edge, m)
    ensures IsLargest(displays, edge, Max(m, edge(displays[|displays| - 1])))
  {
    var earlier := displays[..|displays| - 1];
    var i :| 0 <= i < |earlier| && m == edge(earlier[i]);
    assert displays[i] == earlier[i];
    assert forall k :: 0 <= k < |earlier| ==> displays[k] == earlier[k];
  }

  /** The right and bottom of the bounding box belong to displays. */
  lemma {:induction false} SomeEdge(displays: seq<Display>)
    requires displays != []
    ensures exists i :: 0 <= i < |displays| && BoundingBox(displays).right == BoxOf(displays[i]).right
    ensures exists i :: 0 <= i < |displays| && BoundingBox(displays).bottom == BoxOf(displays[i]).bottom
  {
    var n := |displays| - 1;
    if n == 0 {
      assert BoundingBox(displays) == BoxOf(displays[0]);
    } else {
      var earlier := displays[..n];
      SomeEdge(earlier);
      BoundingBoxGrows(displays);
      var i :| 0 <= i < |earlier| && BoundingBox(earlier).right == BoxOf(earlier[i]).right;
      var j :| 0 <= j < |earlier| && BoundingBox(earlier).bottom == BoxOf(earlier[j]).bottom;
      assert displays[i] == earlier[i] && displays[j] == earlier[j];
      hide BoundingBox;
    }
  }

  lemma BoundingBoxGrows(displays: seq<Display>)
    requires |displays| > 1
    ensures BoundingBox(displays) == Join(BoundingBox(displays[..|displays| - 1]), BoxOf(displays[|displays| - 1]))
  {
  }

  /** What the wrapping loop computes: the left and top of the bounding box, and the largest wrapped edges. */
  lemma {:induction false} WrappedBoxIs(displays: seq<Display>)
    requires displays != [] && OriginsFit(displays)
    ensures var w, b := WrappedBox(AsBoundaries(displays)), BoundingBox(displays);
      && w.left == b.left && w.top == b.top
      && IsLargest(displays, WrappedRight, w.right) && IsLargest(displays, WrappedBottom, w.bottom)
  {
    var n := |displays| - 1;
    var last := displays[n];
    if n == 0 {
      assert AsBoundary(last) == Boundary(last.width, last.height, last.x, last.y);
      assert WrappedRight(displays[0]) == WrappedBox(AsBoundaries(displays)).right;
      assert WrappedBottom(displays[0]) == WrappedBox(AsBoundaries(displays)).bottom;
    } else {
      var earlier := displays[..n];
      assert OriginsFit(earlier);
      WrappedBoxIs(earlier);
      BoundingBoxGrows(displays);
      WrappedBoxGrows(displays);
      hide BoundingBox, WrappedBox, AsBoundaries, IsLargest, OriginsFit, U32;
      LargestGrows(displays, WrappedRight, WrappedBox(AsBoundaries(earlier)).right);
      LargestGrows(displays, WrappedBottom, WrappedBox(AsBoundaries(earlier)).bottom);
    }
  }

  lemma WrappedBoxGrows(displays: seq<Display>)
    requires |displays| > 1 && OriginsFit(displays)
    ensures var last := displays[|displays| - 1];
      WrappedBox(AsBoundaries(displays))
      == Join(WrappedBox(AsBoundaries(displays[..|displays| - 1])),
              Box(last.x, last.y, U32(last.x + last.width), U32(last.y + last.height)))
  {
    assert AsBoundaries(displays)[..|displays| - 1] == AsBoundaries(displays[..|displays| - 1]);
  }

  lemma SameRemainder(a: int, b: int, c: int)
    requires 0 <= a < U32_SIZE
    ensures U32(a - c) == U32(b - c) <==> a == U32(b)
  {
    if U32(a - c) == U32(b - c) {
      assert (a - b) % U32_SIZE == 0 by {
        assert a - c == (a - c) / U32_SIZE * U32_SIZE + U32(a - c);
        assert b - c == (b - c) / U32_SIZE * U32_SIZE + U32(b - c);
        assert a - b == ((a - c) / U32_SIZE - (b - c) / U32_SIZE) * U32_SIZE;
      }
    }
  }

  /** Two boxes with the same left and top, one of them of wrapped edges, have the same size modulo 2^32. */
  lemma SameSizeIff(w: Box, b: Box)
    requires w.left == b.left && w.top == b.top
    requires 0 <= w.right < U32_SIZE && 0 <= w.bottom < U32_SIZE
    ensures MergedBoundary(w) == MergedBoundary(b) <==> w.right == U32(b.right) && w.bottom == U32(b.bottom)
  {
    SameRemainder(w.right, b.right, b.left);
    SameRemainder(w.bottom, b.bottom, b.top);
    hide U32;
  }

  lemma LargestEdgesIff(displays: seq<Display>, w: Box)
    requires displays != []
    requires IsLargest(displays, WrappedRight, w.right) && IsLargest(displays, WrappedBottom, w.bottom)
    ensures var b := BoundingBox(displays);
      w.right == U32(b.right) && w.bottom == U32(b.bottom) <==> LargestStaysLargest(displays, b)
  {
    var b := BoundingBox(displays);
    SomeWrappedEdge(displays);
    hide *;
    LargestIs(displays, WrappedRight, w.right, U32(b.right));
    LargestIs(displays, WrappedBottom, w.bottom, U32(b.bottom));
    StaysLargestMeans(displays, b);
  }

  lemma StaysLargestMeans(displays: seq<Display>, b: Box)
    ensures LargestStaysLargest(displays, b)
            <==> NoneAbove(displays, WrappedRight, U32(b.right)) && NoneAbove(displays, WrappedBottom, U32(b.bottom))
  {
  }

  lemma SomeWrappedEdge(displays: seq<Display>)
    requires displays != []
    ensures exists k :: 0 <= k < |displays| && WrappedRight(displays[k]) == U32(BoundingBox(displays).right)
    ensures exists l :: 0 <= l < |displays| && WrappedBottom(displays[l]) == U32(BoundingBox(displays).bottom)
  {
    SomeEdge(displays);
    hide BoundingBox, U32;
    var k :| 0 <= k < |displays| && BoundingBox(displays).right == BoxOf(displays[k]).right;
    var l :| 0 <= l < |displays| && BoundingBox(displays).bottom == BoxOf(displays[l]).bottom;
    assert WrappedRight(displays[k]) == U32(BoundingBox(displays).right);
    assert WrappedBottom(displays[l]) == U32(BoundingBox(displays).bottom);
  }

  /**
   Both ways of merging displays with 32-bit origins give the same boundary if and only if
   wrapping leaves the largest right and bottom edge the largest.
   */
  lemma MergesAgreeIff(displays: seq<Display>)
    requires displays != [] && OriginsFit(displays)
    ensures MergeBoundingBox(AsBoundaries(displays)) == MergedBoundary(BoundingBox(displays))
            <==> LargestStaysLargest(displays, BoundingBox(displays))
  {
    var w, b := WrappedBox(AsBoundaries(displays)), BoundingBox(displays);
    WrappedBoxIs(displays);
    LargestRange(displays, w.right, w.bottom);
    assert AsBoundaries(displays) != [];
    assert MergeBoundingBox(AsBoundaries(displays)) == MergedBoundary(w);
    hide *;
    SameSizeIff(w, b);
    LargestEdgesIff(displays, w);
  }

  lemma LargestRange(displays: seq<Display>, m: int, n: int)
    requires IsLargest(displays, WrappedRight, m) && IsLargest(displays, WrappedBottom, n)
    ensures 0 <= m < U32_SIZE && 0 <= n < U32_SIZE
  {
  }

  lemma LargestIs(displays: seq<Display>, edge: Display -> int, m: int, t: int)
    requires IsLargest(displays, edge, m)
    requires exists k :: 0 <= k < |displays| && edge(displays[k]) == t
    ensures m == t <==> NoneAbove(displays, edge, t)
  {
  }

  /** Origins are not negative and no right or bottom edge passes 32 bits. */
  predicate NoOverflow(displays: seq<Display>) {
    forall i :: 0 <= i < |displays| ==>
      && 0 <= displays[i].x && displays[i].x + displays[i].width < U32_SIZE
      && 0 <= displays[i].y && displays[i].y + displays[i].height < U32_SIZE
  }

  /** In particular they agree whenever nothing overflows. */
  lemma MergesAgree(displays: seq<Display>)
    requires NoOverflow(displays)
    ensures MergeBoundingBox(AsBoundaries(displays)) == MergedBoundary(BoundingBox(displays))
  {
    if displays == [] {
      assert MergedBoundary(BoundingBox(displays)) == NOWHERE;
    } else {
      var b := BoundingBox(displays);
      BoundingBoxIsLeast(displays, b);
      BoundingBoxIsLeast(displays, Box(0, 0, U32_SIZE - 1, U32_SIZE - 1));
      hide U32, WrappedBox, BoundingBox, AsBoundaries, MergeBoundingBox, MergedBoundary;
      MergesAgreeIff(displays);
    }
  }

  /** A single right edge past 32 bits is enough to make them differ. */
  lemma MergesDifferOnOverflow()
    ensures exists displays :: MergeBoundingBox(AsBoundaries(displays)) != MergedBoundary(BoundingBox(displays))
  {
    var displays := [Display(0, 0, 10, 10), Display(U32_SIZE - 1, 0, 10, 10)];
    var boundaries := AsBoundaries(displays);
    assert displays[..1] == [displays[0]] && boundaries[..1] == [boundaries[0]];
    assert WrappedBox(boundaries[..1]) == Box(0, 0, 10, 10);
    assert WrappedBox(boundaries) == Box(0, 0, 10, 10);
    assert BoundingBox(displays[..1]) == Box(0, 0, 10, 10);
    assert BoundingBox(displays) == Box(0, 0, U32_SIZE + 9, 10);
    assert MergeBoundingBox(boundaries).width == 10;
    assert MergedBoundary(BoundingBox(displays)).width == 9;
  }

  datatype Policy = MergeBoxes | Unsupported

  function Merge(policy: Option<Policy>, boundaries: seq<Boundary>): Boundary {
    if boundaries == [] then NOWHERE
    else if U32(|boundaries|) == 1 then Boundary(boundaries[0].width, boundaries[0].height, 0, 0)
    else if U32(|boundaries|) == 0 then NOWHERE
    else if policy != Some(MergeBoxes) then NOWHERE
    else MergeBoundingBox(boundaries)
  }

  /** Two or more displays produce edge events only when merging was declared. */
  lemma UndeclaredIsSilent(policy: Option<Policy>, boundaries: seq<Boundary>, cursor: Point)
    requires 2 <= |boundaries| < U32_SIZE
    ensures policy != Some(MergeBoxes) ==> Detect(cursor, Merge(policy, boundaries)) == None
    ensures policy == Some(MergeBoxes) ==> Merge(policy, boundaries) == MergeBoundingBox(boundaries)
  {
  }

  /** A single display needs no declaration: its boundary is that of its bounding box, wherever it lies. */
  lemma SingleDisplayIsItsBox(policy: Option<Policy>, d: Display)
    ensures Merge(policy, AsBoundaries([d])) == MergedBoundary(BoundingBox([d]))
  {
    assert AsBoundaries([d])[0] == AsBoundary(d);
  }

  // ---- the loops ---------------------------------------------------------------------------------

  method ComputeBoundingBox(displays: seq<Display>) returns (b: Box)
    ensures b == BoundingBox(displays)
  {
    if displays == [] {
      return Box(0, 0, 0, 0);
    }
    var left, top := displays[0].x, displays[0].y;
    var right, bottom := displays[0].x + displays[0].width, displays[0].y + displays[0].height;
    var i := 1;
    while i < |displays|
      invariant 1 <= i <= |displays|
      invariant Box(left, top, right, bottom) == BoundingBox(displays[..i])
    {
      assert displays[..i + 1][..i] == displays[..i];
      left := Min(left, displays[i].x);
      top := Min(top, displays[i].y);
      right := Max(right, displays[i].x + displays[i].width);
      bottom := Max(bottom, displays[i].y + displays[i].height);
      i := i + 1;
    }
    assert displays[..i] == displays;
    b := Box(left, top, right, bottom);
  }

  method MergeBoxesOf(boundaries: seq<Boundary>) returns (b: Boundary)
    ensures b == MergeBoundingBox(boundaries)
  {
    hide U32;
    if boundaries == [] {
      return NOWHERE;
    }
    var minX: int, minY: int := boundaries[0].originX, boundaries[0].originY;
    var maxX: int := U32(boundaries[0].originX + boundaries[0].width);
    var maxY: int := U32(boundaries[0].originY + boundaries[0].height);
    var i := 1;
    while i < |boundaries|
      invariant 1 <= i <= |boundaries|
      invariant Box(minX, minY, maxX, maxY) == WrappedBox(boundaries[..i])
    {
      assert boundaries[..i + 1][..i] == boundaries[..i];
      minX := Min(minX, boundaries[i].originX);
      minY := Min(minY, boundaries[i].originY);
      maxX := Max(maxX, U32(boundaries[i].originX + boundaries[i].width));
      maxY := Max(maxY, U32(boundaries[i].originY + boundaries[i].height));
      i := i + 1;
    }
    assert boundaries[..i] == boundaries;
    b := Boundary(U32(maxX - minX), U32(maxY - minY), 0, 0);
  }

  class MergePolicyConfig {
    var policy: Option<Policy>

    constructor ()
      ensures policy == None
    {
      policy := None;
    }

    method SetPolicy(p: Policy)
      modifies this
      ensures policy == Some(p)
    {
      policy := Some(p);
    }

    function LoadPolicy(displayCount: nat): Option<Policy>
      reads this
    {
      if displayCount <= 1 then None else policy
    }

    method MergeAll(boundaries: seq<Boundary>) returns (b: Boundary)
      ensures b == Merge(policy, boundaries)
    {
      if boundaries == [] {
        return NOWHERE;
      }
      var displayCount := U32(|boundaries|);
      if displayCount == 1 {
        return Boundary(boundaries[0].width, boundaries[0].height, 0, 0);
      }
      var p := LoadPolicy(displayCount);
      if p.None? {
        return NOWHERE;
      }
      if p.value == Unsupported {
        return NOWHERE;
      }
      b := MergeBoxesOf(boundaries);
    }
  }
}
