/** `Rider` (Rider.h, Rider.cpp): a rider's identity and the list of
    rides they requested, which only `RequestRide` changes. */
module Riders {
  import opened Rides

  class Rider {
    const riderID: string
    const name: string
    var requestedRides: seq<Ride>

    constructor (id: string, riderName: string)
      ensures GetRiderID() == id && GetName() == riderName
      ensures requestedRides == [] && GetRideCount() == 0
    {
      riderID := id;
      name := riderName;
      requestedRides := [];
    }

    /** Appends `ride` unless it is null; earlier requests keep their places. */
    method RequestRide(ride: Ride?)
      modifies this
      ensures requestedRides == Pushed(old(requestedRides), ride)
      ensures GetRideCount() == if ride == null then old(GetRideCount()) else old(GetRideCount()) + 1
    {
      if ride != null {
        requestedRides := requestedRides + [ride];
      }
    }

    /** The ID and name the constructor stored. */
    function GetRiderID(): (id: string)
      ensures id == riderID
    {
      riderID
    }

    function GetName(): (riderName: string)
      ensures riderName == name
    {
      name
    }

    /** The number of rides requested so far. */
    function GetRideCount(): (count: int)
      reads this
      ensures count == |requestedRides| && count >= 0
    {
      |requestedRides|
    }
  }
}
