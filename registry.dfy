/**
 * The registry component's state: the six collections of the database object
 * and the logged-in account, with the closures that change them as methods.
 * Every method keeps the consistency conditions of `Valid`.
 */
module Registry {
  import opened Wrappers
  import opened Database
  import opened Derivations
  import opened Transitions

  /** What `signUpForEvent` did: nothing (no volunteer logged in), rejected a repeat, or added a signup. */
  datatype SignUpOutcome = NotAVolunteer | AlreadySignedUp | SignedUpNow

  /**
   * What a create closure did: added the record, stopped at the form check, or
   * (for `createEvent` without a logged-in account) failed reading the
   * creator's id before anything was pushed.
   */
  datatype CreateOutcome = Created | MissingFields | NoCurrentUser

  class VolunteerRegistry {
    var users: seq<User>
    var volunteers: seq<Volunteer>
    var committees: seq<string>
    var events: seq<Event>
    var signups: seq<Signup>
    var participations: seq<Participation>
    var currentUser: Option<User>

    /** At most one signup per (event, volunteer) pair; volunteer accounts resolve; the current account is stored. */
    ghost predicate Valid()
      reads this
    {
      && SignupPairsUnique(signups)
      && VolunteerLinksResolve(users, volunteers)
      && (currentUser.Some? ==> currentUser.value in users)
    }

    /** A registry loaded from the seed data, nobody logged in. */
    constructor ()
      ensures Valid()
      ensures users == SeedUsers() && volunteers == SeedVolunteers() && committees == SeedCommittees()
      ensures events == SeedEvents() && signups == SeedSignups() && participations == SeedParticipations()
      ensures currentUser == None
    {
      users := SeedUsers();
      volunteers := SeedVolunteers();
      committees := SeedCommittees();
      events := SeedEvents();
      signups := SeedSignups();
      participations := SeedParticipations();
      currentUser := None;
      SeedIsConsistent();
    }

    /** `login(email, password)`: on a match the first matching account becomes current; otherwise nothing changes. */
    method Login(email: string, password: string) returns (ok: bool)
      requires Valid()
      modifies this`currentUser
      ensures Valid()
      ensures ok <==> exists i :: 0 <= i < |users| && users[i].email == email && users[i].password == password
      ensures currentUser == if ok then FindLoginUser(users, email, password) else old(currentUser)
    {
      var found := FindLoginUser(users, email, password);
      if found.Some? {
        currentUser := found;
        ok := true;
      } else {
        ok := false;
      }
    }

    /** `signUpForEvent(eventId)`; `signupId` and `now` stand for `Date.now()` and the current timestamp. */
    method SignUpForEvent(eventId: int, signupId: int, now: string) returns (outcome: SignUpOutcome)
      requires Valid()
      modifies this`signups
      ensures Valid()
      ensures CurrentVolunteer(currentUser, volunteers).None? ==>
        outcome == NotAVolunteer && signups == old(signups)
      ensures CurrentVolunteer(currentUser, volunteers).Some? ==>
        var id := CurrentVolunteer(currentUser, volunteers).value.id;
        && signups == AddSignup(old(signups), eventId, id, signupId, now)
        && outcome == (if HasSignup(old(signups), eventId, id) then AlreadySignedUp else SignedUpNow)
      ensures outcome == NotAVolunteer <==> !(currentUser.Some? && currentUser.value.role == VolunteerRole)
    {
      if currentUser.Some? && currentUser.value.role == VolunteerRole {
        LoggedInVolunteerResolves(currentUser.value, users, volunteers);
      }
      var volunteer := CurrentVolunteer(currentUser, volunteers);
      if volunteer.None? {
        return NotAVolunteer;
      }
      if HasSignup(signups, eventId, volunteer.value.id) {
        return AlreadySignedUp;
      }
      AddSignupKeepsPairsUnique(signups, eventId, volunteer.value.id, signupId, now);
      signups := AddSignup(signups, eventId, volunteer.value.id, signupId, now);
      outcome := SignedUpNow;
    }

    /** `cancelSignup(eventId)`: drops the current volunteer's signups for the event, whatever their status. */
    method CancelSignup(eventId: int)
      requires Valid()
      modifies this`signups
      ensures Valid()
      ensures CurrentVolunteer(currentUser, volunteers).None? ==> signups == old(signups)
      ensures CurrentVolunteer(currentUser, volunteers).Some? ==>
        signups == RemoveSignups(old(signups), eventId, CurrentVolunteer(currentUser, volunteers).value.id)
      ensures currentUser.Some? && currentUser.value.role == VolunteerRole ==>
        signups == RemoveSignups(old(signups), eventId, currentUser.value.volunteerId.value)
    {
      if currentUser.Some? && currentUser.value.role == VolunteerRole {
        LoggedInVolunteerResolves(currentUser.value, users, volunteers);
      }
      var volunteer := CurrentVolunteer(currentUser, volunteers);
      if volunteer.None? {
        return;
      }
      RemoveSignupsKeepsPairsUnique(signups, eventId, volunteer.value.id);
      signups := RemoveSignups(signups, eventId, volunteer.value.id);
    }

    /**
     * `createVolunteer()` with the form `form`; `age` is what `parseInt` gives
     * for the typed age, `volunteerId` stands for `Date.now()` and `today` for
     * today's date.
     */
    method CreateVolunteer(form: VolunteerForm, age: Option<int>, volunteerId: int, today: string)
      returns (outcome: CreateOutcome)
      requires Valid()
      modifies this`volunteers, this`users
      ensures Valid()
      ensures !VolunteerFormComplete(form) ==>
        outcome == MissingFields && volunteers == old(volunteers) && users == old(users)
      ensures VolunteerFormComplete(form) ==>
        && outcome == Created
        && volunteers == old(volunteers) + [NewVolunteerRecord(form, age, volunteerId, today)]
        && users == old(users) + [NewVolunteerAccount(form, volunteerId)]
        && Linked(volunteers[|volunteers| - 1], users[|users| - 1])
        && users[|users| - 1].id == volunteerId + 1
      ensures && VolunteerIdsUnique(old(volunteers)) && !HasVolunteer(old(volunteers), volunteerId)
              && UserIdsUnique(old(users)) && (forall i :: 0 <= i < |old(users)| ==> old(users)[i].id != volunteerId + 1)
              ==> VolunteerIdsUnique(volunteers) && UserIdsUnique(users)
    {
      if !VolunteerFormComplete(form) {
        return MissingFields;
      }
      var v := NewVolunteerRecord(form, age, volunteerId, today);
      var u := NewVolunteerAccount(form, volunteerId);
      AddLinkedPairKeepsLinks(users, volunteers, v, u);
      if VolunteerIdsUnique(volunteers) && !HasVolunteer(volunteers, volunteerId)
         && UserIdsUnique(users) && (forall i :: 0 <= i < |users| ==> users[i].id != volunteerId + 1) {
        AppendFreshIdsKeepsUnique(volunteers, v, users, u);
      }
      volunteers := volunteers + [v];
      users := users + [u];
      outcome := Created;
    }

    /** `createEvent()` with the form `form`; `eventId` stands for `Date.now()`. */
    method CreateEvent(form: EventForm, eventId: int) returns (outcome: CreateOutcome)
      requires Valid()
      modifies this`events
      ensures Valid()
      ensures !EventFormComplete(form) ==> outcome == MissingFields && events == old(events)
      ensures EventFormComplete(form) && currentUser.None? ==> outcome == NoCurrentUser && events == old(events)
      ensures EventFormComplete(form) && currentUser.Some? ==>
        outcome == Created && events == old(events) + [NewEvent(form, eventId, currentUser.value.id)]
      ensures EventIdsUnique(old(events)) && (forall i :: 0 <= i < |old(events)| ==> old(events)[i].id != eventId)
              ==> EventIdsUnique(events)
    {
      if !EventFormComplete(form) {
        return MissingFields;
      }
      if currentUser.None? {
        return NoCurrentUser;
      }
      events := events + [NewEvent(form, eventId, currentUser.value.id)];
      outcome := Created;
    }

    /** `updateVolunteer()` with the edited record `edited`. */
    method UpdateVolunteer(edited: Volunteer)
      requires Valid()
      modifies this`volunteers
      ensures Valid()
      ensures volunteers == ReplaceVolunteer(old(volunteers), edited)
      ensures VolunteerIdsUnique(old(volunteers)) ==> VolunteerIdsUnique(volunteers)
    {
      ReplaceVolunteerKeepsLinks(users, volunteers, edited);
      volunteers := ReplaceVolunteer(volunteers, edited);
    }
  }

  /**
   * A volunteer session on the seed data: a wrong password is refused, the
   * volunteer signs up for the food drive, is turned away on a second attempt,
   * and cancels, which restores the seed signups.
   */
  method SeedVolunteerSession()
  {
    var registry := new VolunteerRegistry();
    var ok := registry.Login("volunteer1@email.com", "wrong");
    assert !ok && registry.currentUser == None by {
      assert forall i :: 0 <= i < |registry.users| ==> registry.users[i].password != "wrong";
    }
    ok := registry.Login("volunteer1@email.com", "vol123");
    assert ok && registry.currentUser == Some(SeedUsers()[1]) by {
      assert registry.users[1].email == "volunteer1@email.com" && registry.users[1].password == "vol123";
      assert registry.users[0].email != "volunteer1@email.com";
    }
    assert CurrentVolunteer(registry.currentUser, registry.volunteers) == Some(SeedVolunteers()[0]);
    assert !HasSignup(registry.signups, 2, 1);
    var outcome := registry.SignUpForEvent(2, 100, "2026-01-12T09:00:00.000Z");
    assert outcome == SignedUpNow;
    assert registry.signups == SeedSignups() + [Signup(100, 2, 1, "2026-01-12T09:00:00.000Z", SignedUp)];
    outcome := registry.SignUpForEvent(2, 101, "2026-01-12T09:00:05.000Z");
    assert outcome == AlreadySignedUp && |registry.signups| == 3;
    registry.CancelSignup(2);
    CancelUndoesSignUp(SeedSignups(), 2, 1, 100, "2026-01-12T09:00:00.000Z");
    assert registry.signups == SeedSignups();
  }

  /**
   * A manager session on the seed data: the manager adds a volunteer, whose
   * account is linked to the new record, and an event, which is refused while
   * its date is empty.
   */
  method SeedManagerSession()
  {
    var registry := new VolunteerRegistry();
    var ok := registry.Login("manager@org.com", "manager123");
    assert ok && registry.currentUser == Some(SeedUsers()[0]) by {
      assert registry.users[0].email == "manager@org.com" && registry.users[0].password == "manager123";
    }
    var form := VolunteerForm("Test User", "30", "t@x.com", "pw", "Tech");
    var created := registry.CreateVolunteer(form, Some(30), 1000, "2026-01-12");
    assert created == Created && |registry.volunteers| == 3;
    assert registry.volunteers[2].committee == "Tech" && registry.volunteers[2].age == Some(30);
    assert registry.users[3].role == VolunteerRole && registry.users[3].volunteerId == Some(registry.volunteers[2].id);
    created := registry.CreateEvent(EventForm("Bake Sale", "", "Finance", ""), 2000);
    assert created == MissingFields && registry.events == SeedEvents();
    created := registry.CreateEvent(EventForm("Bake Sale", "2026-02-01", "Finance", ""), 2000);
    assert created == Created && registry.events[2].createdBy == 1;
  }
}
