/**
 * The plain data of the booking system: users, the two kinds of bookable
 * resource, bookings and free slots, and the integer clock they live on.
 *
 * Users, workspaces and conference rooms are Java objects without an equals
 * of their own, so every comparison between them is by reference; here they are
 * classes, whose equality in Dafny is reference identity as well.
 */
module Model {

  /** Minutes in one calendar day; a timestamp is a count of minutes. */
  const MinutesPerDay: int := 1440

  /** The calendar day of timestamp t (floor division, as for dates before the epoch). */
  function DayOf(t: int): int {
    t / MinutesPerDay
  }

  /** The timestamp of the given day at hh:mm. */
  function AtTime(day: int, hour: int, minute: int): int {
    day * MinutesPerDay + hour * 60 + minute
  }

  /** A registered user. */
  class User {
    const fullName: string
    const username: string
    const password: string

    constructor (fullName: string, username: string, password: string)
      ensures this.fullName == fullName && this.username == username && this.password == password
    {
      this.fullName := fullName;
      this.username := username;
      this.password := password;
    }
  }

  /** A bookable workspace. */
  class Workspace {
    const id: int
    const name: string
    const capacity: int

    constructor (id: int, name: string, capacity: int)
      ensures this.id == id && this.name == name && this.capacity == capacity
    {
      this.id := id;
      this.name := name;
      this.capacity := capacity;
    }
  }

  /** A bookable conference room. */
  class ConferenceRoom {
    const id: int
    const name: string
    const capacity: int

    constructor (id: int, name: string, capacity: int)
      ensures this.id == id && this.name == name && this.capacity == capacity
    {
      this.id := id;
      this.name := name;
      this.capacity := capacity;
    }
  }

  /**
   * What a booking is for. The booking's resource is an untyped object that
   * is either a workspace, a conference room, or something else (null included).
   */
  datatype Resource =
    | WorkspaceRes(workspace: Workspace)
    | RoomRes(room: ConferenceRoom)
    | OtherRes

  /** A reservation of one resource by one user from start to end. */
  datatype Booking = Booking(id: int, user: User, resource: Resource, start: int, end: int)

  /** A free interval of a resource's day. */
  datatype Slot = Slot(start: int, end: int)

  /**
   * The interval test the booking store applies to one stored booking x:
   * a proposed [s, e] meets x when it starts before x ends and ends after x
   * starts. The test is symmetric between two bookings.
   */
  predicate Meets(s: int, e: int, x: Booking) {
    s < x.end && e > x.start
  }

  /**
   * A moment is in the past when it lies strictly before now: on an earlier
   * day, or on the same day at an earlier time of day, as date-times compare.
   */
  predicate IsInPast(t: int, now: int)
    ensures IsInPast(t, now) <==> DayOf(t) < DayOf(now)
                                  || (DayOf(t) == DayOf(now) && t % MinutesPerDay < now % MinutesPerDay)
  {
    t < now
  }
}
