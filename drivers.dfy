/** `Driver` (Driver.h, Driver.cpp): a driver's identity and the list of
    rides assigned to them, which only `AddRide` changes. */
module Drivers {
  import opened Rides

  class Driver {
    const driverID: string
    const name: string
    /** Stored and returned only; its arithmetic is not modelled. */
    const rating: real
    var assignedRides: seq<Ride>

    constructor (id: string, driverName: string, driverRating: real)
      ensures GetDriverID() == id && GetName() == driverName && GetRating() == driverRating
      ensures assignedRides == [] && GetRideCount() == 0
    {
      driverID := id;
      name := driverName;
      rating := driverRating;
      assignedRides := [];
    }

    /** Appends `ride` unless it is null; earlier rides keep their places. */
    method AddRide(ride: Ride?)
      modifies this
      ensures assignedRides == Pushed(old(assignedRides), ride)
      ensures GetRideCount() == if ride == null then old(GetRideCount()) else old(GetRideCount()) + 1
    {
      if ride != null {
        assignedRides := assignedRides + [ride];
      }
    }

    /** The ID, name and rating the constructor stored. */
    function GetDriverID(): (id: string)
      ensures id == driverID
    {
      driverID
    }

    function GetName(): (driverName: string)
      ensures driverName == name
    {
      name
    }

    function GetRating(): (driverRating: real)
      ensures driverRating == rating
    {
      rating
    }

    /** The number of rides assigned so far. */
    function GetRideCount(): (count: int)
      reads this
      ensures count == |assignedRides| && count >= 0
    {
      |assignedRides|
    }
  }
}
