/**
 * `geom/prep/PreparedPolygonPredicate.java`: the component tests shared by
 * the prepared-polygon predicates. Each one locates the test geometry's
 * component coordinates (one per component, as extracted in order) against
 * the target, stopping at the first decisive location. The point locator is
 * a parameter.
 */
module PreparedPolygonPredicate {
  import opened Geom
  import opened Location

  /** `PointOnGeometryLocator.locate`. */
  type Locator = Point -> int

  /**
   * The iteration all five tests share: locate coordinates in order until
   * one satisfies `stop`. Reports whether one did and how many were located.
   */
  method ScanUntil(coords: seq<Point>, locate: Locator, stop: int -> bool) returns (found: bool, located: nat)
    ensures found <==> exists k :: 0 <= k < |coords| && stop(locate(coords[k]))
    ensures located <= |coords|
    ensures found ==> 0 < located && stop(locate(coords[located - 1]))
    ensures !found ==> located == |coords|
    ensures forall k :: 0 <= k < located - 1 ==> !stop(locate(coords[k]))
  {
    located := 0;
    while located < |coords|
      invariant located <= |coords|
      invariant forall k :: 0 <= k < located ==> !stop(locate(coords[k]))
    {
      var loc := locate(coords[located]);
      located := located + 1;
      if stop(loc) {
        return true, located;
      }
    }
    return false, located;
  }

  /** `isAllTestComponentsInTarget`: no coordinate lies in the exterior. */
  method IsAllTestComponentsInTarget(coords: seq<Point>, locate: Locator) returns (r: bool)
    ensures r <==> forall k :: 0 <= k < |coords| ==> locate(coords[k]) != EXTERIOR
  {
    var found, _ := ScanUntil(coords, locate, loc => loc == EXTERIOR);
    r := !found;
  }

  /** `isAllTestComponentsInTargetInterior`: every coordinate lies in the interior. */
  method IsAllTestComponentsInTargetInterior(coords: seq<Point>, locate: Locator) returns (r: bool)
    ensures r <==> forall k :: 0 <= k < |coords| ==> locate(coords[k]) == INTERIOR
    ensures r ==> forall k :: 0 <= k < |coords| ==> locate(coords[k]) != EXTERIOR
  {
    var found, _ := ScanUntil(coords, locate, loc => loc != INTERIOR);
    r := !found;
  }

  /** `isAnyTestComponentInTarget`: some coordinate is not in the exterior. */
  method IsAnyTestComponentInTarget(coords: seq<Point>, locate: Locator) returns (r: bool)
    ensures r <==> exists k :: 0 <= k < |coords| && locate(coords[k]) != EXTERIOR
    ensures |coords| == 0 ==> !r
  {
    var found, _ := ScanUntil(coords, locate, loc => loc != EXTERIOR);
    r := found;
  }

  /** `isAnyTestComponentInTargetInterior`: some coordinate is in the interior. */
  method IsAnyTestComponentInTargetInterior(coords: seq<Point>, locate: Locator) returns (r: bool)
    ensures r <==> exists k :: 0 <= k < |coords| && locate(coords[k]) == INTERIOR
    ensures r ==> exists k :: 0 <= k < |coords| && locate(coords[k]) != EXTERIOR
    ensures |coords| == 0 ==> !r
  {
    var found, _ := ScanUntil(coords, locate, loc => loc == INTERIOR);
    r := found;
  }

  /**
   * `isAnyTargetComponentInAreaTest`: some representative point of the
   * target is not in the exterior of the areal test geometry, located by
   * that geometry's point-in-area locator.
   */
  method IsAnyTargetComponentInAreaTest(targetRepPts: seq<Point>, testAreaLocate: Locator) returns (r: bool)
    ensures r <==> exists k :: 0 <= k < |targetRepPts| && testAreaLocate(targetRepPts[k]) != EXTERIOR
    ensures |targetRepPts| == 0 ==> !r
  {
    var found, _ := ScanUntil(targetRepPts, testAreaLocate, loc => loc != EXTERIOR);
    r := found;
  }

  /**
   * For a non-empty test geometry the tests are ordered: all in the
   * interior implies all in the target, which implies some in the target;
   * and some in the interior implies some in the target.
   */
  method ComponentTestsAreOrdered(coords: seq<Point>, locate: Locator) returns (allIn: bool, allInterior: bool, anyIn: bool, anyInterior: bool)
    ensures allInterior ==> allIn
    ensures anyInterior ==> anyIn
    ensures |coords| > 0 && allIn ==> anyIn
    ensures |coords| == 0 ==> allIn && allInterior && !anyIn && !anyInterior
  {
    allIn := IsAllTestComponentsInTarget(coords, locate);
    allInterior := IsAllTestComponentsInTargetInterior(coords, locate);
    anyIn := IsAnyTestComponentInTarget(coords, locate);
    anyInterior := IsAnyTestComponentInTargetInterior(coords, locate);
    if |coords| > 0 && allIn {
      assert locate(coords[0]) != EXTERIOR;
    }
  }
}
