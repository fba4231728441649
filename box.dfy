/**
 * Entity type tags (Pool/Entity.hpp) and the static box (Pool/Box.cpp): a
 * wall or table surface with a center and full extents. Boxes are never
 * changed after the scene is loaded, so a box is a value.
 */
module Boxes {
  import opened Geometry
  import Floats

  /** Entity::EntityType. */
  datatype EntityType = BALL | BOX

  datatype Box = Box(name: string, center: Vec3, extents: Vec3) {

    /** Every box is tagged BOX. */
    function Kind(): EntityType {
      BOX
    }

    function LeftX(): real { center.x - extents.x / 2.0 }
    function RightX(): real { center.x + extents.x / 2.0 }
    function FrontZ(): real { center.z + extents.z / 2.0 }
    function BackZ(): real { center.z - extents.z / 2.0 }

    /**
     * `containsPoint`: inclusive test of the horizontal footprint; the
     * vertical coordinate plays no part.
     */
    predicate ContainsPoint(p: Vec3)
      ensures ContainsPoint(p) <==>
                Floats.Abs(p.x - center.x) <= extents.x / 2.0 && Floats.Abs(p.z - center.z) <= extents.z / 2.0
    {
      p.x >= LeftX() && p.x <= RightX() && p.z <= FrontZ() && p.z >= BackZ()
    }
  }

  /** The default constructor: type BOX, name "noname", zero center and extents. */
  function DefaultBox(): (b: Box)
    ensures b.Kind() == BOX && b.name == "noname"
    ensures b.center == Zero && b.extents == Zero
  {
    Box("noname", Zero, Zero)
  }

  /** The default box's footprint is the single vertical line through the origin. */
  lemma DefaultBoxContainsOnlyOrigin(p: Vec3)
    ensures DefaultBox().ContainsPoint(p) <==> p.x == 0.0 && p.z == 0.0
  {
  }

  /** The vertical coordinate never affects containment. */
  lemma ContainsPointIgnoresY(b: Box, p: Vec3, y: real)
    ensures b.ContainsPoint(p) <==> b.ContainsPoint(p.(y := y))
  {
  }

  /** With non-negative horizontal extents, a box contains its own center. */
  lemma ContainsOwnCenter(b: Box)
    requires b.extents.x >= 0.0 && b.extents.z >= 0.0
    ensures b.ContainsPoint(b.center)
  {
  }

  /** A negative horizontal extent makes the footprint empty. */
  lemma NegativeExtentContainsNothing(b: Box, p: Vec3)
    requires b.extents.x < 0.0 || b.extents.z < 0.0
    ensures !b.ContainsPoint(p)
  {
  }
}
