# Workspace and conference-room booking engine, modelled in Dafny

This project models the core of a console application for booking coworking
workspaces and conference rooms. Users register and log in. They pick a
resource from a numbered menu, see its free slots on a date, choose an
interval inside one of those slots, and later cancel a booking if it has not
ended yet.

Behind the console sit in-memory repositories:

- the booking store, a hash map keyed by booking id. It offers
  overlap-checked create and update, checked lookup and delete, a per-user
  filter, the next-id rule, and the gap-finding sweep `getFreeSlots`;
- three keyed catalogs: users by username, workspaces by id and conference
  rooms by id.

Modelling choices:

- Time is an integer count of minutes; the calendar day of `t` is `t / 1440`.
- A workspace's day window runs from 00:00 to 23:59; a conference room's
  from 09:00 to 18:00.
- The current time is a parameter (`now`) of the operations that read the
  clock.
- Users, workspaces and conference rooms are Dafny classes. Their
  equality is reference identity, as in the Java classes, which define no
  `equals`. Bookings and slots are datatypes.
- Every repository is a class whose map field its methods reassign.
  Read-only lookups are functions; loops over the map are methods whose
  invariants are proved.
- A failure the Java code throws as an exception is an `Err` or `Fail`
  value naming the error here.
- The booking store keeps an invariant, `Valid()`: every booking is stored
  under its own id, and no two stored bookings meet, across all resources.
  Create and update are proved to preserve it.
- `getFreeSlots` is modelled in three steps: collect one day's bookings of
  one resource, sort them by start on an array (insertion sort), then walk
  the cursor. The walk is proved equal to a recursive reference, `SweepFrom`.
  The properties of the slots are then proved about `SweepFrom`: they are
  non-empty, where their bounds come from, that they are free, that they
  come in ascending order without overlapping, and that every free moment
  of the window lies in one of them.
- Because the hash map's iteration order is unspecified, the order of the
  sorted bookings is returned as a ghost value: any order sorted by start
  that holds each of the day's bookings once.

Behaviour of the code that the model keeps as written and proves:

- The overlap check spans every resource. A booked workspace refuses a
  conference room for the same hours.
- An update is checked against the booking's own old entry as well.
- The sweep overwrites its cursor with each booking's end. A room booking
  that ends before 09:00 therefore yields a slot that starts before opening.
- Nothing keeps a booking inside the window. A room booking that starts at
  or after 18:00 makes the last slot end at that booking's start, past
  closing. A booking that ends before it starts can be stored, and the
  slots then overlap.
- A zero-length booking can make the sweep report a taken interval as free.
- Registration can never succeed: the lookup it starts with fails for every
  name that is not stored.

## Model

| member | source | states |
|---|---|---|
| `Model.User.constructor` | src/main/java/com/y_labuniversity/model/User.java:37-40 | a user holds the full name, username and password it was made with |
| `Model.Workspace.constructor` | src/main/java/com/y_labuniversity/model/Workspace.java:39-42 | a workspace holds its id, name and capacity |
| `Model.ConferenceRoom.constructor` | src/main/java/com/y_labuniversity/model/ConferenceRoom.java:37-40 | a conference room holds its id, name and capacity |
| `Sets.MaxOf` | src/main/java/com/y_labuniversity/repositories/BookingRepository.java:212-214 | the largest key: a member of the key set and at least every key |
| `Sets.MaxExists` | src/main/java/com/y_labuniversity/repositories/BookingRepository.java:212-214 | every non-empty key set has a largest element (by induction) |
| `Model.IsInPast` | src/main/java/com/y_labuniversity/repositories/BookingRepository.java:110-115 | a time is in the past exactly when it lies on an earlier day, or on the same day at an earlier time of day, than now; a time equal to now is not |
| `Sweep.SweepFrom` | src/main/java/com/y_labuniversity/repositories/BookingRepository.java:144-156 | every slot the cursor walk emits starts strictly before it ends |
| `Sweep.SlotEndpoints` | src/main/java/com/y_labuniversity/repositories/BookingRepository.java:144-156 | a slot starts at the window start or at a booking's end, and ends at a booking's start or at the window end |
| `Sweep.SweepSlotsAreFree` | src/main/java/com/y_labuniversity/repositories/BookingRepository.java:144-156 | over sorted, pairwise non-meeting bookings of positive length, no emitted slot meets any of them |
| `Sweep.SweepCovers` | src/main/java/com/y_labuniversity/repositories/BookingRepository.java:144-156 | for any bookings, every moment from the cursor to the window's end inside no booking lies inside an emitted slot |
| `Sweep.SweepInOrder` | src/main/java/com/y_labuniversity/repositories/BookingRepository.java:144-156 | over bookings sorted by start, none ending before it starts, the emitted slots are in ascending order and do not overlap |
| `Sweep.SortByStart` | src/main/java/com/y_labuniversity/repositories/BookingRepository.java:142 | the day's bookings end up sorted by start and are a permutation of the input |
| `BookingRepo.StoredBookingsApart` | src/main/java/com/y_labuniversity/repositories/BookingRepository.java:135-141 | the bookings collected from a store without overlaps do not meet each other |
| `BookingRepo.NothingConsidered` | src/main/java/com/y_labuniversity/repositories/BookingRepository.java:135-141 | when no stored booking is of that resource and day, the sweep sees no booking |
| `BookingRepo.FreeSlotsAreFree` | src/main/java/com/y_labuniversity/repositories/BookingRepository.java:124-159 | no returned slot meets any booking of that resource and day, provided those bookings have positive length |
| `BookingRepo.FreeMomentsAreCovered` | src/main/java/com/y_labuniversity/repositories/BookingRepository.java:124-159 | every moment of the window that no booking of that resource and day covers lies inside a returned slot |
| `BookingRepo.FreeSlotsInOrder` | src/main/java/com/y_labuniversity/repositories/BookingRepository.java:124-159 | the returned slots are in ascending order and do not overlap, provided no booking of that resource and day ends before it starts |
| `BookingRepo.InsertKeepsInvariant` | src/main/java/com/y_labuniversity/repositories/BookingRepository.java:58-85 | storing a booking that meets no stored booking keeps the store keyed by id and free of overlaps |
| `BookingRepo.PermutationKeepsMembers` | src/main/java/com/y_labuniversity/repositories/BookingRepository.java:142 | sorting keeps the same bookings and introduces no repeats |
| `BookingRepo.SweepSorted` | src/main/java/com/y_labuniversity/repositories/BookingRepository.java:144-156 | the cursor loop emits exactly the slots of the reference sweep `SweepFrom` |
| `BookingRepo.BookingRepository.constructor` | src/main/java/com/y_labuniversity/repositories/BookingRepository.java:16 | a new store is empty and satisfies the invariant |
| `BookingRepo.BookingRepository.GetAllBookings` | src/main/java/com/y_labuniversity/repositories/BookingRepository.java:22-24 | exactly the stored bookings, each once |
| `BookingRepo.BookingRepository.GetBookingsForUser` | src/main/java/com/y_labuniversity/repositories/BookingRepository.java:27-35 | exactly the stored bookings whose user is the identical object, each once |
| `BookingRepo.BookingRepository.GetBooking` | src/main/java/com/y_labuniversity/repositories/BookingRepository.java:45-50 | the booking stored under the id if present, otherwise "not found" for that id |
| `BookingRepo.BookingRepository.CreateBooking` | src/main/java/com/y_labuniversity/repositories/BookingRepository.java:58-69 | the checks run in order: duplicate id, then start before now, then overlap; success adds exactly that id; any failure changes nothing; the invariant is kept |
| `BookingRepo.BookingRepository.UpdateBooking` | src/main/java/com/y_labuniversity/repositories/BookingRepository.java:77-85 | fails on an absent id; the interval is checked against the whole store, old entry included; no past check; success replaces only that id; the invariant is kept |
| `BookingRepo.BookingRepository.IsTimeValid` | src/main/java/com/y_labuniversity/repositories/BookingRepository.java:94-101 | true exactly when no stored booking of any resource meets the interval; start before end is not required |
| `BookingRepo.BookingRepository.GetFreeSlotsForWorkspace` | src/main/java/com/y_labuniversity/repositories/BookingRepository.java:124-159 | the sweep of the workspace's bookings that start on the date, sorted by start, over 00:00-23:59; with no such booking, the single slot 00:00-23:59 |
| `BookingRepo.BookingRepository.GetFreeSlotsForRoom` | src/main/java/com/y_labuniversity/repositories/BookingRepository.java:168-203 | the sweep of the room's bookings that start on the date, sorted by start, over 09:00-18:00; with no such booking, the single slot 09:00-18:00 |
| `BookingRepo.BookingRepository.FreeSlots` | src/main/java/com/y_labuniversity/repositories/BookingRepository.java:135-158 | the body both overloads share: collecting, sorting and sweeping give the reference sweep of a valid sweep order; every slot starts before it ends |
| `BookingRepo.BookingRepository.BookingsForDate` | src/main/java/com/y_labuniversity/repositories/BookingRepository.java:135-140 | exactly the stored bookings of that resource that start on that day, each once |
| `BookingRepo.BookingRepository.GetNextBookingId` | src/main/java/com/y_labuniversity/repositories/BookingRepository.java:212-214 | 1 for an empty store; otherwise one more than a stored id and greater than every stored id |
| `BookingRepo.BookingRepository.DeleteBooking` | src/main/java/com/y_labuniversity/repositories/BookingRepository.java:216-221 | fails on an absent id and changes nothing; otherwise removes exactly that id |
| `BookingServices.ChoiceToRoom` | src/main/java/com/y_labuniversity/services/BookingService.java:47-60 | 0 goes back; the numbers from 1 to the number of workspaces plus rooms select a resource; exactly those up to the number of workspaces select a workspace |
| `BookingServices.MenuNumbersSelectListedRooms` | src/main/java/com/y_labuniversity/services/BookingService.java:36-56 | the number printed beside a workspace or room selects that workspace or room |
| `BookingServices.IsValidRefinement` | src/main/java/com/y_labuniversity/services/BookingService.java:126 | an accepted interval is at least one minute long and at least two minutes shorter than its slot |
| `BookingServices.RefinementInsideSlot` | src/main/java/com/y_labuniversity/services/BookingService.java:126 | an accepted interval lies strictly inside the slot; an interval sharing the slot's start or end is refused; it meets nothing the slot does not meet |
| `BookingServices.RefinedIntervalIsFree` | src/main/java/com/y_labuniversity/services/BookingService.java:84-126 | an interval accepted inside a returned free slot meets no booking of that resource and day, provided those bookings have positive length |
| `BookingServices.GetRoomNameFromBooking` | src/main/java/com/y_labuniversity/services/BookingService.java:189-196 | the workspace's name for a workspace, the room's name for a room, "Unknown Room" for anything else |
| `BookingServices.ChosenRoomName` | src/main/java/com/y_labuniversity/services/BookingService.java:189-196 | a booking for a menu-chosen resource is named after the chosen workspace or room |
| `BookingServices.BookingService.constructor` | src/main/java/com/y_labuniversity/services/BookingService.java:24 | the service starts with a new, empty store of its own that satisfies the invariant |
| `BookingServices.BookingService.CommitBooking` | src/main/java/com/y_labuniversity/services/BookingService.java:136-137 | the booking gets the store's next id, which is not taken, so it is never refused as a duplicate; a past start gives StartInPast, otherwise an overlap gives TimeNotValid; otherwise the create effect |
| `BookingServices.BookingService.CancelBooking` | src/main/java/com/y_labuniversity/services/BookingService.java:203-211 | nothing is deleted when now is after the end; otherwise, end equal to now included, exactly that id is deleted |
| `BookingServices.BookingService.GetAllBookings` | src/main/java/com/y_labuniversity/services/BookingService.java:218-220 | the store's bookings, each once |
| `BookingServices.BookingService.DeleteBooking` | src/main/java/com/y_labuniversity/services/BookingService.java:227-229 | the store's delete effect and error |
| `BookingServices.BookingService.CreateBooking` | src/main/java/com/y_labuniversity/services/BookingService.java:236-238 | the store's create checks in the store's order, with the store's errors (BookingExists, then StartInPast, then TimeNotValid) and effect |
| `BookingServices.BookingService.UpdateBooking` | src/main/java/com/y_labuniversity/services/BookingService.java:245-247 | the store's update checks, errors and effect |
| `BookingScenarios.RoomDayAroundOneBooking` | src/main/java/com/y_labuniversity/repositories/BookingRepository.java:172-200 | a room booked 10:00-12:00 leaves exactly 09:00-10:00 and 12:00-18:00 |
| `BookingScenarios.EmptyWorkspaceDay` | src/main/java/com/y_labuniversity/repositories/BookingRepository.java:128-156 | an empty workspace day is the single slot 00:00-23:59 |
| `BookingScenarios.EarlyRoomBookingOpensSlotBeforeOpening` | src/main/java/com/y_labuniversity/repositories/BookingRepository.java:187-200 | a room booking 08:00-08:30 makes the one slot start at 08:30, before opening |
| `BookingScenarios.OverlapIgnoresResource` | src/main/java/com/y_labuniversity/repositories/BookingRepository.java:94-101 | a workspace booking refuses a conference room for the same hours |
| `BookingScenarios.ZeroLengthBookingBreaksFreeness` | src/main/java/com/y_labuniversity/repositories/BookingRepository.java:144-156 | a stored zero-length booking can move the cursor back, so a reported slot meets a booking |
| `BookingScenarios.LateRoomBookingExtendsSlotPastClosing` | src/main/java/com/y_labuniversity/repositories/BookingRepository.java:187-200 | a room booking 19:00-20:00 makes the one slot run from 09:00 to 19:00, past closing |
| `BookingScenarios.ReversedBookingBreaksOrder` | src/main/java/com/y_labuniversity/repositories/BookingRepository.java:187-200 | a storable booking from 10:00 to 08:00 makes the sweep report two overlapping slots |
| `BookingScenarios.UpdateMeetsOwnOldEntry` | src/main/java/com/y_labuniversity/repositories/BookingRepository.java:81-82 | an update to an interval meeting the booking's old entry is refused |
| `WorkspaceRepo.WorkspaceRepository.constructor` | src/main/java/com/y_labuniversity/repositories/WorkspaceRepository.java:15 | a new catalog is empty |
| `WorkspaceRepo.WorkspaceRepository.GetAllWorkspaces` | src/main/java/com/y_labuniversity/repositories/WorkspaceRepository.java:22-24 | exactly the stored workspaces, one per id |
| `WorkspaceRepo.WorkspaceRepository.GetWorkspace` | src/main/java/com/y_labuniversity/repositories/WorkspaceRepository.java:33-38 | the workspace stored under the id, otherwise "not exist" for that id |
| `WorkspaceRepo.WorkspaceRepository.CreateWorkspace` | src/main/java/com/y_labuniversity/repositories/WorkspaceRepository.java:46-51 | fails if the id is present; otherwise adds exactly that id, and a later lookup returns it |
| `WorkspaceRepo.WorkspaceRepository.UpdateWorkspace` | src/main/java/com/y_labuniversity/repositories/WorkspaceRepository.java:59-64 | fails if the id is absent; otherwise replaces only that id |
| `WorkspaceRepo.WorkspaceRepository.DeleteWorkspace` | src/main/java/com/y_labuniversity/repositories/WorkspaceRepository.java:72-77 | fails if the id is absent; otherwise removes only that id |
| `ConferenceRoomRepo.ConferenceRoomRepository.constructor` | src/main/java/com/y_labuniversity/repositories/ConferenceRoomRepository.java:15 | a new catalog is empty |
| `ConferenceRoomRepo.ConferenceRoomRepository.GetAllConferenceRooms` | src/main/java/com/y_labuniversity/repositories/ConferenceRoomRepository.java:22-24 | exactly the stored rooms, one per id |
| `ConferenceRoomRepo.ConferenceRoomRepository.GetConferenceRoom` | src/main/java/com/y_labuniversity/repositories/ConferenceRoomRepository.java:33-38 | the room stored under the id, otherwise "not exist" for that id |
| `ConferenceRoomRepo.ConferenceRoomRepository.CreateConferenceRoom` | src/main/java/com/y_labuniversity/repositories/ConferenceRoomRepository.java:46-51 | fails if the id is present; otherwise adds exactly that id, and a later lookup returns it |
| `ConferenceRoomRepo.ConferenceRoomRepository.UpdateConferenceRoom` | src/main/java/com/y_labuniversity/repositories/ConferenceRoomRepository.java:59-64 | fails if the id is absent; otherwise replaces only that id |
| `ConferenceRoomRepo.ConferenceRoomRepository.DeleteConferenceRoom` | src/main/java/com/y_labuniversity/repositories/ConferenceRoomRepository.java:72-77 | fails if the id is absent; otherwise removes only that id |
| `UserRepo.UserRepository.constructor` | src/main/java/com/y_labuniversity/repositories/UserRepository.java:15 | a new user table is empty |
| `UserRepo.UserRepository.GetAllUsers` | src/main/java/com/y_labuniversity/repositories/UserRepository.java:22-24 | exactly the stored users, one per username |
| `UserRepo.UserRepository.GetUserByUsername` | src/main/java/com/y_labuniversity/repositories/UserRepository.java:33-38 | the user stored under the name, otherwise "not found" naming it |
| `UserRepo.UserRepository.CreateUser` | src/main/java/com/y_labuniversity/repositories/UserRepository.java:46-51 | fails if the username is taken; otherwise adds exactly that key |
| `UserRepo.UserRepository.DeleteUser` | src/main/java/com/y_labuniversity/repositories/UserRepository.java:59-64 | fails on an absent username; otherwise removes exactly that key |
| `UserRepo.UserRepository.UpdateUser` | src/main/java/com/y_labuniversity/repositories/UserRepository.java:73-78 | requires the old name to be stored and stores the user under its own name; after a rename the old key remains |
| `UserServices.UserService.constructor` | src/main/java/com/y_labuniversity/services/UserService.java:24 | the service holds its user table |
| `UserServices.UserService.Register` | src/main/java/com/y_labuniversity/services/UserService.java:33-39 | never succeeds: a new name fails with the lookup's "not found", a stored name with "User already exists" |
| `UserServices.UserService.Authenticate` | src/main/java/com/y_labuniversity/services/UserService.java:49-59 | the stored user exactly when the name is stored and the password matches; every failure is "Invalid credentials" |
| `UserServices.UserService.CreateUser` | src/main/java/com/y_labuniversity/services/UserService.java:67-69 | the table's create effect and error |
| `UserServices.UserService.DeleteUser` | src/main/java/com/y_labuniversity/services/UserService.java:76-78 | the table's delete effect and error |
| `UserServices.UserService.UpdateUser` | src/main/java/com/y_labuniversity/services/UserService.java:86-88 | the table's update effect and error, the old key kept after a rename |

## Left out

- Console input and output: the Scanner reads, the printing, the date and HH:mm parsing loops, and the re-prompt recursion on an invalid choice. This covers `bookRoom` apart from the refinement test and the commit, `handleBooked`, the admin console service, the menu and the application entry point. The admin console repeats the refinement test and the commit, which are modelled once here.
- The account-editing methods of the user service (change full name, username or password, delete the account): they are driven by console input, mutate the `currentUser` field, and one of them exits the process.
- The workspace and conference-room services: they only pass calls through to the catalogs, which are modelled.
- The wall clock: `LocalDateTime.now()` is the parameter `now`. Calendar arithmetic and date parsing are replaced by integer minutes. The clock is finer than a minute, so `now` stands for the clock rounded up (its ceiling in whole minutes): then "start before the clock" and "clock after the end" agree with `start < now` and `now > end` for whole-minute times. Rounded down, a 10:00 start at 10:00:30 would be accepted here while the code refuses it.
- The logged-in user (`currentUser`) is a parameter of `CommitBooking`.
- Null arguments and the `NullPointerException` that `isInPast` throws for a null time: every value here is present.
- The 64-bit `Long` range: ids and times are unbounded integers, so `max + 1` does not overflow.
- The hash maps' iteration order: the loops over a map take its keys in an unspecified order, and results are stated up to order.
- Sweep.SortByStart: stands for Java's `List.sort` (a stable merge sort); it is an insertion sort that promises sortedness and a permutation but not stability. Bookings with equal starts can therefore be swept in any order, which the ghost sweep order allows.
- Lombok-generated setters on the model objects: users, workspaces and rooms have constant fields here. A booking object changed in place after it was stored, or shared between the store and a caller, is not modelled; bookings are values. One consequence: the admin console renames a stored user object in place and then updates the table, so in the code the old username key ends up holding an object that carries the new name. The user table's invariant (every user stored under its own username), and the `r.value.username == username` of `GetUserByUsername`, hold in the model only.
- The live views of the maps' values that `getAllBookings`, `getAllUsers`, `getAllWorkspaces` and `getAllConferenceRooms` return: here each is a copy taken at the call.
- The confirmation message after a commit: the model returns the store's outcome instead.
- Per-resource overlap scoping, self-exclusion on update, and a start-before-end check in `createBooking`: the code has none of them, so the model does not either.
