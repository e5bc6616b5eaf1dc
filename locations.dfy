/** A point of the road map: a name and its coordinates in degrees.
    Equality is structural, standing for `Location.equals`, which compares
    identity fields and never object references. */
module Locations {
  datatype Location = Location(name: string, latitude: real, longitude: real)
}
