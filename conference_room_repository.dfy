/** The conference-room catalog: conference rooms keyed by id, changed in place. */
module ConferenceRoomRepo {
  import opened Wrappers
  import opened Model
  import Sets
  import opened CatalogErrors

  class ConferenceRoomRepository {
    var conferenceRooms: map<int, ConferenceRoom>

    /** Every conference room is stored under its own id. */
    ghost predicate Valid()
      reads this
    {
      forall id :: id in conferenceRooms ==> conferenceRooms[id].id == id
    }

    constructor ()
      ensures Valid() && conferenceRooms == map[]
    {
      conferenceRooms := map[];
    }

    /** All stored conference rooms, one per id, in an unspecified order. */
    method GetAllConferenceRooms() returns (r: seq<ConferenceRoom>)
      requires Valid()
      ensures forall room :: room in r ==> room.id in conferenceRooms && conferenceRooms[room.id] == room
      ensures forall id :: id in conferenceRooms ==> conferenceRooms[id] in r
      ensures |r| == |conferenceRooms|
    {
      r := [];
      var rest := conferenceRooms.Keys;
      while rest != {}
        invariant rest <= conferenceRooms.Keys
        invariant forall room :: room in r ==> room.id in conferenceRooms && conferenceRooms[room.id] == room && room.id !in rest
        invariant forall id :: id in conferenceRooms && id !in rest ==> conferenceRooms[id] in r
        invariant |r| + |rest| == |conferenceRooms|
        decreases |rest|
      {
        Sets.HasElement(rest);
        var id :| id in rest;
        r := r + [conferenceRooms[id]];
        rest := rest - {id};
      }
    }

    /** The conference room stored under id, or the "not exist" error. */
    function GetConferenceRoom(id: int): (r: Result<ConferenceRoom, CatalogError>)
      reads this
      requires Valid()
      ensures r.Ok? <==> id in conferenceRooms
      ensures r.Ok? ==> r.value == conferenceRooms[id] && r.value.id == id
      ensures r.Err? ==> r.error == NotExist(id)
    {
      if id !in conferenceRooms then Err(NotExist(id)) else Ok(conferenceRooms[id])
    }

    /** Adds a conference room under its id, which must not be taken yet. */
    method CreateConferenceRoom(room: ConferenceRoom) returns (r: Outcome<CatalogError>)
      requires Valid()
      modifies this
      ensures Valid()
      ensures r.Pass? <==> room.id !in old(conferenceRooms)
      ensures r.Fail? ==> r.error == AlreadyExists && conferenceRooms == old(conferenceRooms)
      ensures r.Pass? ==> conferenceRooms == old(conferenceRooms)[room.id := room] && GetConferenceRoom(room.id) == Ok(room)
    {
      if room.id in conferenceRooms {
        return Fail(AlreadyExists);
      }
      conferenceRooms := conferenceRooms[room.id := room];
      r := Pass;
    }

    /** Replaces the conference room stored under room's id, which must be present. */
    method UpdateConferenceRoom(room: ConferenceRoom) returns (r: Outcome<CatalogError>)
      requires Valid()
      modifies this
      ensures Valid()
      ensures r.Pass? <==> room.id in old(conferenceRooms)
      ensures r.Fail? ==> r.error == DoesNotExist && conferenceRooms == old(conferenceRooms)
      ensures r.Pass? ==> conferenceRooms == old(conferenceRooms)[room.id := room]
    {
      if room.id !in conferenceRooms {
        return Fail(DoesNotExist);
      }
      conferenceRooms := conferenceRooms[room.id := room];
      r := Pass;
    }

    /** Removes the conference room stored under id, which must be present. */
    method DeleteConferenceRoom(id: int) returns (r: Outcome<CatalogError>)
      requires Valid()
      modifies this
      ensures Valid()
      ensures r.Pass? <==> id in old(conferenceRooms)
      ensures r.Fail? ==> r.error == DoesNotExist && conferenceRooms == old(conferenceRooms)
      ensures r.Pass? ==> conferenceRooms == old(conferenceRooms) - {id}
    {
      if id !in conferenceRooms {
        return Fail(DoesNotExist);
      }
      conferenceRooms := conferenceRooms - {id};
      r := Pass;
    }
  }
}
