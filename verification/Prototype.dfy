/** Prototype: a circle or rectangle can `Clone` itself, producing a new
    object of the same kind with the same field values. The objects are
    mutable, so the model keeps them in a heap (the objects allocated so far,
    oldest first) and refers to an object by its position in the heap. */
module Prototype {

  /** The fields of a `Prototype_Circle` or a `Prototype_Rectangle`. */
  datatype Shape = CircleShape(radius: int) | RectangleShape(width: int, height: int)

  /** A reference to an object: its position in the heap. */
  type Ref = nat

  type Heap = seq<Shape>

  /** Allocates a new object with the given fields. */
  function Allocate(h: Heap, shape: Shape): (r: (Heap, Ref))
    ensures |r.0| == |h| + 1 && r.0[..|h|] == h
    ensures r.1 == |h| && r.0[r.1] == shape
  {
    var h' := h + [shape];
    assert h'[..|h|] == h;
    (h', |h|)
  }

  /** `new Prototype_Circle(radius)`. */
  function NewCircle(h: Heap, radius: int): (r: (Heap, Ref))
    ensures |r.0| == |h| + 1 && r.0[..|h|] == h
    ensures r.1 == |h| && r.0[r.1] == CircleShape(radius)
  {
    Allocate(h, CircleShape(radius))
  }

  /** `new Prototype_Rectangle(width, height)`. */
  function NewRectangle(h: Heap, width: int, height: int): (r: (Heap, Ref))
    ensures |r.0| == |h| + 1 && r.0[..|h|] == h
    ensures r.1 == |h| && r.0[r.1] == RectangleShape(width, height)
  {
    Allocate(h, RectangleShape(width, height))
  }

  /** `Clone`: a circle constructs a new circle from its radius, a rectangle
      a new rectangle from its width and height. The copy is a new object
      distinct from every existing one, equal to the original field by field,
      and no existing object changes. */
  function Clone(h: Heap, o: Ref): (r: (Heap, Ref))
    requires o < |h|
    ensures |r.0| == |h| + 1 && r.0[..|h|] == h
    ensures r.1 != o && r.1 == |h|
    ensures r.0[r.1] == h[o]
  {
    match h[o]
    case CircleShape(radius) => NewCircle(h, radius)
    case RectangleShape(width, height) => NewRectangle(h, width, height)
  }

  /** The `Radius` setter of a circle. */
  function SetRadius(h: Heap, o: Ref, radius: int): (r: Heap)
    requires o < |h| && h[o].CircleShape?
    ensures |r| == |h| && r[o] == CircleShape(radius)
    ensures forall p | 0 <= p < |h| && p != o :: r[p] == h[p]
  {
    h[o := CircleShape(radius)]
  }

  /** The `Width` setter of a rectangle: the height is kept. */
  function SetWidth(h: Heap, o: Ref, width: int): (r: Heap)
    requires o < |h| && h[o].RectangleShape?
    ensures |r| == |h| && r[o] == RectangleShape(width, h[o].height)
    ensures forall p | 0 <= p < |h| && p != o :: r[p] == h[p]
  {
    h[o := h[o].(width := width)]
  }

  /** The `Height` setter of a rectangle: the width is kept. */
  function SetHeight(h: Heap, o: Ref, height: int): (r: Heap)
    requires o < |h| && h[o].RectangleShape?
    ensures |r| == |h| && r[o] == RectangleShape(h[o].width, height)
    ensures forall p | 0 <= p < |h| && p != o :: r[p] == h[p]
  {
    h[o := h[o].(height := height)]
  }

  /** A copy is independent of its original: setting the copy's radius
      leaves the original and every other object as they were. */
  lemma CloneCircleIsIndependent(h: Heap, o: Ref, radius: int)
    requires o < |h| && h[o].CircleShape?
    ensures var (h1, c) := Clone(h, o);
      var h2 := SetRadius(h1, c, radius);
      && h2[..|h|] == h
      && h2[c] == CircleShape(radius)
  {
    var (h1, c) := Clone(h, o);
    var h2 := SetRadius(h1, c, radius);
    assert forall p | 0 <= p < |h| :: h2[p] == h1[p] == h[p];
  }

  /** The same for a rectangle: setting both of the copy's dimensions leaves
      the original and every other object as they were. */
  lemma CloneRectangleIsIndependent(h: Heap, o: Ref, width: int, height: int)
    requires o < |h| && h[o].RectangleShape?
    ensures var (h1, c) := Clone(h, o);
      var h2 := SetHeight(SetWidth(h1, c, width), c, height);
      && h2[..|h|] == h
      && h2[c] == RectangleShape(width, height)
  {
    var (h1, c) := Clone(h, o);
    var h2 := SetHeight(SetWidth(h1, c, width), c, height);
    assert forall p | 0 <= p < |h| :: h2[p] == h1[p] == h[p];
  }

  /** The driver: the circle of radius 10 keeps its radius after its copy is
      set to 20, and the 5 x 7 rectangle keeps its size after its copy is set
      to 10 x 14. */
  lemma DriverScenario()
    ensures var (h1, circle) := NewCircle([], 10);
      var (h2, copy) := Clone(h1, circle);
      var h3 := SetRadius(h2, copy, 20);
      h3[circle] == CircleShape(10) && h3[copy] == CircleShape(20)
    ensures var (h1, rectangle) := NewRectangle([], 5, 7);
      var (h2, copy) := Clone(h1, rectangle);
      var h3 := SetHeight(SetWidth(h2, copy, 10), copy, 14);
      h3[rectangle] == RectangleShape(5, 7) && h3[copy] == RectangleShape(10, 14)
  {
    CloneCircleIsIndependent([CircleShape(10)], 0, 20);
    CloneRectangleIsIndependent([RectangleShape(5, 7)], 0, 10, 14);
  }
}
