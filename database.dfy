/**
 * The six record collections of the volunteer registry, the seed data the
 * registry starts from when nothing has been stored yet, and the consistency
 * conditions that the registry's operations keep.
 */
module Database {
  import opened Wrappers

  datatype Role = ManagerRole | VolunteerRole

  /** A login account; volunteer accounts point at their volunteer record. */
  datatype User = User(
    id: int,
    email: string,
    password: string,
    role: Role,
    volunteerId: Option<int>,
    name: Option<string>)

  /** A volunteer record; `age` is `None` where `parseInt` produced `NaN`. */
  datatype Volunteer = Volunteer(
    id: int,
    name: string,
    age: Option<int>,
    committee: string,
    firstParticipation: string,
    userId: int)

  datatype Event = Event(
    id: int,
    name: string,
    date: string,
    committee: string,
    description: string,
    createdBy: int)

  datatype SignupStatus = SignedUp | Confirmed

  datatype Signup = Signup(
    id: int,
    eventId: int,
    volunteerId: int,
    signedUpAt: string,
    status: SignupStatus)

  datatype Participation = Participation(
    id: int,
    eventId: int,
    volunteerId: int,
    date: string,
    confirmedBy: int)

  /* ---------- consistency conditions ---------- */

  /** Some volunteer record carries the id `id`. */
  ghost predicate HasVolunteer(volunteers: seq<Volunteer>, id: int)
  {
    exists i :: 0 <= i < |volunteers| && volunteers[i].id == id
  }

  /** No two signups are for the same (event, volunteer) pair. */
  ghost predicate SignupPairsUnique(signups: seq<Signup>)
  {
    forall i, j :: 0 <= i < j < |signups| ==>
      !(signups[i].eventId == signups[j].eventId && signups[i].volunteerId == signups[j].volunteerId)
  }

  /** Every volunteer account names a volunteer record that exists. */
  ghost predicate VolunteerLinksResolve(users: seq<User>, volunteers: seq<Volunteer>)
  {
    forall i :: 0 <= i < |users| && users[i].role == VolunteerRole ==>
      users[i].volunteerId.Some? && HasVolunteer(volunteers, users[i].volunteerId.value)
  }

  /** `v` and `u` are a volunteer record and its account, each pointing at the other. */
  ghost predicate Linked(v: Volunteer, u: User)
  {
    u.role == VolunteerRole && u.volunteerId == Some(v.id) && v.userId == u.id
  }

  ghost predicate VolunteerIdsUnique(volunteers: seq<Volunteer>)
  {
    forall i, j :: 0 <= i < j < |volunteers| ==> volunteers[i].id != volunteers[j].id
  }

  ghost predicate UserIdsUnique(users: seq<User>)
  {
    forall i, j :: 0 <= i < j < |users| ==> users[i].id != users[j].id
  }

  ghost predicate EventIdsUnique(events: seq<Event>)
  {
    forall i, j :: 0 <= i < j < |events| ==> events[i].id != events[j].id
  }

  /* ---------- seed data, used when nothing is stored ---------- */

  function SeedUsers(): seq<User>
  {
    [ User(1, "manager@org.com", "manager123", ManagerRole, None, Some("Sarah Manager")),
      User(2, "volunteer1@email.com", "vol123", VolunteerRole, Some(1), None),
      User(3, "volunteer2@email.com", "vol123", VolunteerRole, Some(2), None) ]
  }

  function SeedVolunteers(): seq<Volunteer>
  {
    [ Volunteer(1, "Ahmed Hassan", Some(24), "Events", "2023-03-15", 2),
      Volunteer(2, "Fatima Ali", Some(22), "Marketing", "2023-05-20", 3) ]
  }

  function SeedCommittees(): seq<string>
  {
    ["Events", "Marketing", "Tech", "Outreach", "Finance"]
  }

  function SeedEvents(): seq<Event>
  {
    [ Event(1, "Community Cleanup", "2026-01-20", "Events", "Help clean the local park", 1),
      Event(2, "Food Drive", "2026-01-25", "Outreach", "Collect food donations", 1) ]
  }

  function SeedSignups(): seq<Signup>
  {
    [ Signup(1, 1, 1, "2026-01-10", SignedUp),
      Signup(2, 1, 2, "2026-01-11", Confirmed) ]
  }

  function SeedParticipations(): seq<Participation>
  {
    [ Participation(1, 1, 2, "2026-01-20", 1) ]
  }

  /** The seed data satisfies every consistency condition, and its two volunteers are linked to their accounts. */
  lemma SeedIsConsistent()
    ensures SignupPairsUnique(SeedSignups())
    ensures VolunteerLinksResolve(SeedUsers(), SeedVolunteers())
    ensures VolunteerIdsUnique(SeedVolunteers()) && UserIdsUnique(SeedUsers()) && EventIdsUnique(SeedEvents())
    ensures Linked(SeedVolunteers()[0], SeedUsers()[1]) && Linked(SeedVolunteers()[1], SeedUsers()[2])
  {
    assert SeedVolunteers()[0].id == 1 && SeedVolunteers()[1].id == 2;
  }
}
