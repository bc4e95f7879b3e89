/**
 * The visualisation's model of one node: its place in the octree (which
 * child octant it falls in, whether it fits inside a leaf), its viewport
 * state and flags, and its label text with the text's bounds.
 */
module Visualization {
  import opened Wrappers
  import opened Numbers
  import opened Elements

  /** An octree cell, as the centre and edge length its containment tests read. */
  datatype Octant = Octant(posX: real, posY: real, posZ: real, size: real)

  /** The measured bounds of the rendered label text. */
  datatype Bounds = Bounds(width: real, height: real)

  function Abs(x: real): (r: real)
    ensures r >= 0.0 && (r == x || r == -x)
  {
    if x < 0.0 then -x else x
  }

  /**
   * The child octant index of a point relative to a centre: 4 when the point
   * is below the centre in y, plus 2 when it is beyond it in z, plus 1 when it
   * is before it in x.
   */
  function OctantIndex(x: real, y: real, z: real, centerX: real, centerY: real, centerZ: real): (r: int)
    ensures 0 <= r <= 7
    ensures r / 4 == 1 <==> y < centerY
    ensures (r / 2) % 2 == 1 <==> z > centerZ
    ensures r % 2 == 1 <==> x < centerX
  {
    var index := 0;
    var index := if y < centerY then index + 4 else index;
    var index := if z > centerZ then index + 2 else index;
    if x < centerX then index + 1 else index
  }

  /** Two points share a child octant exactly when they lie on the same side of the centre on every axis. */
  lemma {:induction false} SameOctant(x: real, y: real, z: real, x': real, y': real, z': real,
                                      centerX: real, centerY: real, centerZ: real)
    ensures OctantIndex(x, y, z, centerX, centerY, centerZ) == OctantIndex(x', y', z', centerX, centerY, centerZ)
        <==> (y < centerY <==> y' < centerY) && (z > centerZ <==> z' > centerZ) && (x < centerX <==> x' < centerX)
  {
    var r := OctantIndex(x, y, z, centerX, centerY, centerZ);
    var r' := OctantIndex(x', y', z', centerX, centerY, centerZ);
    assert r == 4 * (r / 4) + 2 * ((r / 2) % 2) + r % 2;
    assert r' == 4 * (r' / 4) + 2 * ((r' / 2) % 2) + r' % 2;
  }

  /**
   * Java's "a > b" on floats against the leaf's slack, which is NaN, an
   * infinity or a finite value: any comparison with NaN is false.
   */
  predicate Exceeds(a: real, slack: Double)
  {
    match slack
    case Finite(v) => a > v
    case NegativeInfinity => true
    case PositiveInfinity => false
    case NaN => false
  }

  /** leafSize / 2 - nodeSize / 2, in float arithmetic over a node size that may be NaN or infinite. */
  function Slack(leafSize: real, nodeSize: Double): Double
  {
    match nodeSize
    case Finite(s) => Finite(leafSize / 2.0 - s / 2.0)
    case PositiveInfinity => NegativeInfinity
    case NegativeInfinity => PositiveInfinity
    case NaN => NaN
  }

  /** The interval of width s around x lies inside the interval of width l around c. */
  predicate Covers(c: real, l: real, x: real, s: real)
  {
    c - l / 2.0 <= x - s / 2.0 && x + s / 2.0 <= c + l / 2.0
  }

  /** Whether a node at (x, y, z) of the given size is inside a leaf, as the containment test computes it. */
  function InLeaf(x: real, y: real, z: real, size: Double, leaf: Octant): (r: bool)
    ensures size.Finite? ==>
      (r <==> Covers(leaf.posX, leaf.size, x, size.value) && Covers(leaf.posY, leaf.size, y, size.value) &&
              Covers(leaf.posZ, leaf.size, z, size.value))
    ensures size == PositiveInfinity ==> !r
    ensures size == NegativeInfinity || size == NaN ==> r
  {
    var slack := Slack(leaf.size, size);
    !(Exceeds(Abs(x - leaf.posX), slack) || Exceeds(Abs(y - leaf.posY), slack) || Exceeds(Abs(z - leaf.posZ), slack))
  }

  /** A node inside a leaf is inside every larger leaf with the same centre. */
  lemma {:induction false} InLeafGrows(x: real, y: real, z: real, size: Double, leaf: Octant, larger: real)
    requires leaf.size <= larger
    requires InLeaf(x, y, z, size, leaf)
    ensures InLeaf(x, y, z, size, leaf.(size := larger))
  {
    if size.Finite? {
      var big := leaf.(size := larger);
      assert Covers(big.posX, big.size, x, size.value);
      assert Covers(big.posY, big.size, y, size.value);
      assert Covers(big.posZ, big.size, z, size.value);
    }
  }

  class NodeModel {
    const node: Node
    var viewportX: real
    var viewportY: real
    var cameraDistance: real
    var viewportRadius: real
    var dragDistance: array<real>
    var octant: Option<Octant>
    var octantId: int
    var selected: bool
    var highlight: bool
    var markTime: int
    var mark: bool
    var bounds: Option<Bounds>

    /** A model of a node: not selected, not marked, a zero drag distance on both axes, no octant and no text bounds; the other fields take their zero defaults. */
    constructor(n: Node)
      ensures node == n
      ensures !selected && !mark && markTime == 0
      ensures fresh(dragDistance) && dragDistance[..] == [0.0, 0.0]
      ensures octant.None? && bounds.None?
      ensures viewportX == 0.0 && viewportY == 0.0 && cameraDistance == 0.0 && viewportRadius == 0.0
      ensures octantId == 0 && !highlight
    {
      node := n;
      dragDistance := new real[2](_ => 0.0);
      selected := false;
      mark := false;
      markTime := 0;
      octant := None;
      bounds := None;
      viewportX, viewportY, cameraDistance, viewportRadius := 0.0, 0.0, 0.0, 0.0;
      octantId := 0;
      highlight := false;
    }

    /** The child octant of a cell centred at (centerX, centerY, centerZ) that holds the node; the cell size plays no part. */
    function OctreePosition(centerX: real, centerY: real, centerZ: real, size: real): (r: int)
      reads this, node
      ensures 0 <= r <= 7
      ensures r / 4 == 1 <==> node.y < centerY
      ensures (r / 2) % 2 == 1 <==> node.z > centerZ
      ensures r % 2 == 1 <==> node.x < centerX
    {
      OctantIndex(node.x, node.y, node.z, centerX, centerY, centerZ)
    }

    /** Whether the node, with its size, lies inside the leaf. */
    function IsInOctreeLeaf(leaf: Octant): (r: bool)
      reads this, node
      ensures node.size.Finite? ==>
        (r <==> Covers(leaf.posX, leaf.size, node.x, node.size.value) && Covers(leaf.posY, leaf.size, node.y, node.size.value) &&
                Covers(leaf.posZ, leaf.size, node.z, node.size.value))
      ensures node.size == PositiveInfinity ==> !r
      ensures node.size == NegativeInfinity || node.size == NaN ==> r
    {
      InLeaf(node.x, node.y, node.z, node.size, leaf)
    }

    function GetNode(): (r: Node)
      reads this
      ensures r == node
    {
      node
    }

    method SetCameraDistance(d: real)
      modifies this`cameraDistance
      ensures cameraDistance == d
    {
      cameraDistance := d;
    }

    function GetCameraDistance(): real
      reads this`cameraDistance
    {
      cameraDistance
    }

    method SetViewportRadius(r: real)
      modifies this`viewportRadius
      ensures viewportRadius == r
    {
      viewportRadius := r;
    }

    function GetViewportRadius(): real
      reads this`viewportRadius
    {
      viewportRadius
    }

    method SetViewportX(x: real)
      modifies this`viewportX
      ensures viewportX == x
    {
      viewportX := x;
    }

    function GetViewportX(): real
      reads this`viewportX
    {
      viewportX
    }

    method SetViewportY(y: real)
      modifies this`viewportY
      ensures viewportY == y
    {
      viewportY := y;
    }

    function GetViewportY(): real
      reads this`viewportY
    {
      viewportY
    }

    method SetSelected(s: bool)
      modifies this`selected
      ensures selected == s
    {
      selected := s;
    }

    function IsSelected(): bool
      reads this`selected
    {
      selected
    }

    method SetOctant(o: Option<Octant>)
      modifies this`octant
      ensures octant == o
    {
      octant := o;
    }

    function GetOctant(): Option<Octant>
      reads this`octant
    {
      octant
    }

    method SetOctantId(id: int)
      modifies this`octantId
      ensures octantId == id
    {
      octantId := id;
    }

    function GetOctantId(): int
      reads this`octantId
    {
      octantId
    }

    /** The label has a custom colour when the red component of its text properties is positive. */
    function HasCustomTextColor(): (r: bool)
      requires node.textProperties != null
      reads this, node, node.textProperties
      ensures r <==> node.textProperties.r > 0.0
    {
      node.textProperties.r > 0.0
    }

    method SetText(text: Option<string>)
      requires node.textProperties != null
      modifies node.textProperties`text
      ensures node.textProperties.text == text
      ensures unchanged(node)
      ensures node.textProperties.visible == old(node.textProperties.visible)
      ensures node.textProperties.size == old(node.textProperties.size)
      ensures node.textProperties.r == old(node.textProperties.r) && node.textProperties.g == old(node.textProperties.g)
      ensures node.textProperties.b == old(node.textProperties.b) && node.textProperties.alpha == old(node.textProperties.alpha)
    {
      node.textProperties.text := text;
    }

    /** The width of the text bounds, or 0 when none are set. */
    function GetTextWidth(): (r: real)
      reads this`bounds
      ensures bounds.Some? ==> r == bounds.value.width
      ensures bounds.None? ==> r == 0.0
    {
      match bounds
      case Some(rec) => rec.width
      case None => 0.0
    }

    /** The height of the text bounds, or 0 when none are set. */
    function GetTextHeight(): (r: real)
      reads this`bounds
      ensures bounds.Some? ==> r == bounds.value.height
      ensures bounds.None? ==> r == 0.0
    {
      match bounds
      case Some(rec) => rec.height
      case None => 0.0
    }

    method SetTextBounds(b: Option<Bounds>)
      modifies this`bounds
      ensures bounds == b
      ensures GetTextWidth() == (if b.Some? then b.value.width else 0.0)
      ensures GetTextHeight() == (if b.Some? then b.value.height else 0.0)
    {
      bounds := b;
    }

    /** The text of the text properties, falling back to the node's label when it has none. */
    function GetText(): (r: Option<string>)
      requires node.textProperties != null
      reads this, node, node.textProperties
      ensures node.textProperties.text.Some? ==> r == node.textProperties.text
      ensures node.textProperties.text.None? ==> r == node.labelText
      ensures r.None? <==> node.textProperties.text.None? && node.labelText.None?
    {
      var t := node.textProperties.text;
      if t.None? then node.labelText else t
    }

    function GetTextSize(): real
      requires node.textProperties != null
      reads this, node, node.textProperties
    {
      node.textProperties.size
    }

    function GetTextR(): real
      requires node.textProperties != null
      reads this, node, node.textProperties
    {
      node.textProperties.r
    }

    function GetTextG(): real
      requires node.textProperties != null
      reads this, node, node.textProperties
    {
      node.textProperties.g
    }

    function GetTextB(): real
      requires node.textProperties != null
      reads this, node, node.textProperties
    {
      node.textProperties.b
    }

    function GetTextAlpha(): real
      requires node.textProperties != null
      reads this, node, node.textProperties
    {
      node.textProperties.alpha
    }

    function IsTextVisible(): bool
      requires node.textProperties != null
      reads this, node, node.textProperties
    {
      node.textProperties.visible
    }
  }
}
