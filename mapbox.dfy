/** The bounding-box helper of the first exercise: a list of distinct
    locations and four scans for its extreme coordinates. */
module MapBoxes {
  import opened Locations

  /** No location occurs twice in `s`. */
  ghost predicate Distinct(s: seq<Location>) {
    forall i, j :: 0 <= i < j < |s| ==> s[i] != s[j]
  }

  class MapBox {
    var locations: seq<Location>

    constructor ()
      ensures locations == []
    {
      locations := [];
    }

    /** The smallest longitude, starting from the impossible value 181. */
    method Westmost() returns (minimumX: real)
      ensures minimumX <= 181.0
      ensures forall i :: 0 <= i < |locations| ==> minimumX <= locations[i].longitude
      ensures minimumX == 181.0 || exists i :: 0 <= i < |locations| && locations[i].longitude == minimumX
    {
      minimumX := 181.0;
      var k := 0;
      while k < |locations|
        invariant 0 <= k <= |locations|
        invariant minimumX <= 181.0
        invariant forall i :: 0 <= i < k ==> minimumX <= locations[i].longitude
        invariant minimumX == 181.0 || exists i :: 0 <= i < k && locations[i].longitude == minimumX
      {
        if locations[k].longitude < minimumX {
          minimumX := locations[k].longitude;
        }
        k := k + 1;
      }
    }

    /** The greatest longitude, starting from the impossible value -181. */
    method Eastmost() returns (maximumX: real)
      ensures maximumX >= -181.0
      ensures forall i :: 0 <= i < |locations| ==> maximumX >= locations[i].longitude
      ensures maximumX == -181.0 || exists i :: 0 <= i < |locations| && locations[i].longitude == maximumX
    {
      maximumX := -181.0;
      var k := 0;
      while k < |locations|
        invariant 0 <= k <= |locations|
        invariant maximumX >= -181.0
        invariant forall i :: 0 <= i < k ==> maximumX >= locations[i].longitude
        invariant maximumX == -181.0 || exists i :: 0 <= i < k && locations[i].longitude == maximumX
      {
        if locations[k].longitude > maximumX {
          maximumX := locations[k].longitude;
        }
        k := k + 1;
      }
    }

    /** The smallest latitude, starting from the impossible value 91. */
    method Southmost() returns (minimumY: real)
      ensures minimumY <= 91.0
      ensures forall i :: 0 <= i < |locations| ==> minimumY <= locations[i].latitude
      ensures minimumY == 91.0 || exists i :: 0 <= i < |locations| && locations[i].latitude == minimumY
    {
      minimumY := 91.0;
      var k := 0;
      while k < |locations|
        invariant 0 <= k <= |locations|
        invariant minimumY <= 91.0
        invariant forall i :: 0 <= i < k ==> minimumY <= locations[i].latitude
        invariant minimumY == 91.0 || exists i :: 0 <= i < k && locations[i].latitude == minimumY
      {
        if locations[k].latitude < minimumY {
          minimumY := locations[k].latitude;
        }
        k := k + 1;
      }
    }

    /** The greatest latitude, starting from the impossible value -91. */
    method Northmost() returns (maximumY: real)
      ensures maximumY >= -91.0
      ensures forall i :: 0 <= i < |locations| ==> maximumY >= locations[i].latitude
      ensures maximumY == -91.0 || exists i :: 0 <= i < |locations| && locations[i].latitude == maximumY
    {
      maximumY := -91.0;
      var k := 0;
      while k < |locations|
        invariant 0 <= k <= |locations|
        invariant maximumY >= -91.0
        invariant forall i :: 0 <= i < k ==> maximumY >= locations[i].latitude
        invariant maximumY == -91.0 || exists i :: 0 <= i < k && locations[i].latitude == maximumY
      {
        if locations[k].latitude > maximumY {
          maximumY := locations[k].latitude;
        }
        k := k + 1;
      }
    }

    /** Appends `location` unless an equal one is already recorded; the
        result says whether it was new. */
    method RecordLocation(location: Location) returns (newLocation: bool)
      modifies this
      ensures newLocation <==> location !in old(locations)
      ensures locations == if newLocation then old(locations) + [location] else old(locations)
      ensures location in locations
      ensures Distinct(old(locations)) ==> Distinct(locations)
    {
      newLocation := true;
      var k := 0;
      while k < |locations|
        invariant 0 <= k <= |locations|
        invariant location !in locations[..k]
      {
        if location == locations[k] {
          newLocation := false;
          break;
        }
        k := k + 1;
      }
      if newLocation {
        locations := locations + [location];
      }
    }
  }
}
