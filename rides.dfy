/** The rides that drivers and riders keep pointers to (Ride.h), and the
    "push unless null" step that `Driver::addRide` and
    `Rider::requestRide` share. */
module Rides {

  /** A ride as a heap object identified by its id and its two locations.
      Distance and fare are floating point and are not part of the model. */
  class Ride {
    const rideID: string
    const pickupLocation: string
    const dropoffLocation: string

    constructor (id: string, pickup: string, dropoff: string)
      ensures rideID == id && pickupLocation == pickup && dropoffLocation == dropoff
    {
      rideID := id;
      pickupLocation := pickup;
      dropoffLocation := dropoff;
    }
  }

  /** The ride list after a push of `ride`, where a null pointer is ignored. */
  function Pushed(rides: seq<Ride>, ride: Ride?): (after: seq<Ride>)
    ensures |after| == if ride == null then |rides| else |rides| + 1
    ensures forall k :: 0 <= k < |rides| ==> after[k] == rides[k]
    ensures ride != null ==> after[|rides|] == ride
  {
    if ride == null then rides else rides + [ride]
  }

  /** The non-null pointers of `rs`, in their order, duplicates included. */
  function NonNull(rs: seq<Ride?>): (kept: seq<Ride>)
    ensures |kept| <= |rs|
  {
    if rs == [] then []
    else if rs[0] == null then NonNull(rs[1..])
    else [rs[0]] + NonNull(rs[1..])
  }

  /** The kept rides are the non-null pointers of `rs`: none other, none
      missing. */
  lemma {:induction false} NonNullMembers(rs: seq<Ride?>)
    ensures forall r :: r in NonNull(rs) ==> r in rs
    ensures forall i :: 0 <= i < |rs| && rs[i] != null ==> rs[i] in NonNull(rs)
  {
    if rs != [] {
      NonNullMembers(rs[1..]);
      forall i | 0 <= i < |rs| && rs[i] != null
        ensures rs[i] in NonNull(rs)
      {
        if i > 0 {
          assert rs[i] == rs[1..][i - 1];
        }
      }
    }
  }

  /** The ride list after pushing each of `rs` in turn. */
  function PushedAll(rides: seq<Ride>, rs: seq<Ride?>): seq<Ride>
    decreases |rs|
  {
    if rs == [] then rides else PushedAll(Pushed(rides, rs[0]), rs[1..])
  }

  /** A run of pushes appends exactly the non-null rides, in call order and
      with repeats kept, and leaves the earlier list in front. */
  lemma {:induction false} PushedAllAppends(rides: seq<Ride>, rs: seq<Ride?>)
    ensures PushedAll(rides, rs) == rides + NonNull(rs)
    decreases |rs|
  {
    if rs != [] {
      PushedAllAppends(Pushed(rides, rs[0]), rs[1..]);
      if rs[0] != null {
        assert rides + [rs[0]] + NonNull(rs[1..]) == rides + ([rs[0]] + NonNull(rs[1..]));
      }
    }
  }

  /** Pushing the same ride twice stores it twice. */
  lemma PushedTwice(rides: seq<Ride>, ride: Ride)
    ensures Pushed(Pushed(rides, ride), ride) == rides + [ride, ride]
  {
  }
}
