/**
 * The new collections that the registry's mutating closures build:
 * `signUpForEvent` and `cancelSignup` (a new signups list by spread and
 * `filter`), `updateVolunteer` (a new volunteers list by `map`), and the
 * records that `createVolunteer` and `createEvent` push, with the form checks
 * that guard them.
 */
module Transitions {
  import opened Wrappers
  import opened Seqs
  import opened Database

  /* ---------- signUpForEvent ---------- */

  /** Some signup is for this (event, volunteer) pair. */
  predicate HasSignup(signups: seq<Signup>, eventId: int, volunteerId: int)
  {
    exists i :: 0 <= i < |signups| && signups[i].eventId == eventId && signups[i].volunteerId == volunteerId
  }

  /**
   * The signups list after `signUpForEvent(eventId)` by the volunteer
   * `volunteerId`: unchanged when that pair is already signed up, otherwise
   * one new signup with status signed-up appended after the existing ones.
   */
  function AddSignup(signups: seq<Signup>, eventId: int, volunteerId: int, signupId: int, now: string)
    : (r: seq<Signup>)
    ensures HasSignup(r, eventId, volunteerId)
    ensures signups <= r && |r| <= |signups| + 1
    ensures r == signups <==> HasSignup(signups, eventId, volunteerId)
    ensures forall i :: |signups| <= i < |r| ==> r[i] == Signup(signupId, eventId, volunteerId, now, SignedUp)
  {
    if HasSignup(signups, eventId, volunteerId) then signups
    else
      var r := signups + [Signup(signupId, eventId, volunteerId, now, SignedUp)];
      assert r[|signups|].eventId == eventId && r[|signups|].volunteerId == volunteerId;
      r
  }

  /** Signing up keeps at most one signup per (event, volunteer) pair. */
  lemma AddSignupKeepsPairsUnique(signups: seq<Signup>, eventId: int, volunteerId: int, signupId: int, now: string)
    requires SignupPairsUnique(signups)
    ensures SignupPairsUnique(AddSignup(signups, eventId, volunteerId, signupId, now))
  {
    var r := AddSignup(signups, eventId, volunteerId, signupId, now);
    if r != signups {
      forall i, j | 0 <= i < j < |r|
        ensures !(r[i].eventId == r[j].eventId && r[i].volunteerId == r[j].volunteerId)
      {
        if j == |signups| {
          assert r[i] == signups[i];
        }
      }
    }
  }

  /** A second sign-up for the same pair is rejected: the list stays as the first one left it. */
  lemma SecondSignUpRejected(signups: seq<Signup>, eventId: int, volunteerId: int,
                             firstId: int, firstAt: string, secondId: int, secondAt: string)
    ensures var once := AddSignup(signups, eventId, volunteerId, firstId, firstAt);
            AddSignup(once, eventId, volunteerId, secondId, secondAt) == once
  {
  }

  /* ---------- cancelSignup ---------- */

  function NotForPair(eventId: int, volunteerId: int): Signup -> bool
  {
    (s: Signup) => !(s.eventId == eventId && s.volunteerId == volunteerId)
  }

  /**
   * The signups list after `cancelSignup(eventId)` by the volunteer
   * `volunteerId`: every signup of that pair is gone, whatever its status,
   * and every other signup is still there.
   */
  function RemoveSignups(signups: seq<Signup>, eventId: int, volunteerId: int): (r: seq<Signup>)
    ensures !HasSignup(r, eventId, volunteerId)
    ensures forall s :: s in r <==> s in signups && !(s.eventId == eventId && s.volunteerId == volunteerId)
    ensures HasSignup(signups, eventId, volunteerId) ==> |r| < |signups|
    ensures !HasSignup(signups, eventId, volunteerId) ==> r == signups
  {
    var r := Filter(signups, NotForPair(eventId, volunteerId));
    assert forall i :: 0 <= i < |r| ==> r[i] in r;
    if HasSignup(signups, eventId, volunteerId) then
      var k :| 0 <= k < |signups| && signups[k].eventId == eventId && signups[k].volunteerId == volunteerId;
      FilterLength(signups, NotForPair(eventId, volunteerId));
      CountBelowLength(signups, NotForPair(eventId, volunteerId), k);
      r
    else
      assert forall s :: s in signups ==> NotForPair(eventId, volunteerId)(s);
      FilterKeepsAll(signups, NotForPair(eventId, volunteerId));
      r
  }

  lemma {:induction false} CountBelowLength<T>(s: seq<T>, p: T -> bool, k: int)
    requires 0 <= k < |s| && !p(s[k])
    ensures Count(s, p) < |s|
    decreases |s|
  {
    if k > 0 {
      CountBelowLength(s[1..], p, k - 1);
    } else {
      CountAtMostLength(s[1..], p);
    }
  }

  lemma {:induction false} CountAtMostLength<T>(s: seq<T>, p: T -> bool)
    ensures Count(s, p) <= |s|
    decreases |s|
  {
    if |s| > 0 {
      CountAtMostLength(s[1..], p);
    }
  }

  /** Cancelling keeps the remaining signups in order, each as often as before. */
  lemma RemoveSignupsKeepsOthers(signups: seq<Signup>, eventId: int, volunteerId: int)
    ensures IsSubsequence(RemoveSignups(signups, eventId, volunteerId), signups)
    ensures forall s: Signup :: s.eventId != eventId || s.volunteerId != volunteerId ==>
      multiset(RemoveSignups(signups, eventId, volunteerId))[s] == multiset(signups)[s]
  {
    FilterIsSubsequence(signups, NotForPair(eventId, volunteerId));
    forall s ensures multiset(RemoveSignups(signups, eventId, volunteerId))[s] ==
      (if NotForPair(eventId, volunteerId)(s) then multiset(signups)[s] else 0) {
      FilterMultiplicity(signups, NotForPair(eventId, volunteerId), s);
    }
  }

  /** Cancelling twice leaves the same list as cancelling once. */
  lemma RemoveSignupsIdempotent(signups: seq<Signup>, eventId: int, volunteerId: int)
    ensures RemoveSignups(RemoveSignups(signups, eventId, volunteerId), eventId, volunteerId)
         == RemoveSignups(signups, eventId, volunteerId)
  {
    FilterIdempotent(signups, NotForPair(eventId, volunteerId));
  }

  /** Cancelling right after a successful sign-up restores the signups list exactly. */
  lemma CancelUndoesSignUp(signups: seq<Signup>, eventId: int, volunteerId: int, signupId: int, now: string)
    requires !HasSignup(signups, eventId, volunteerId)
    ensures RemoveSignups(AddSignup(signups, eventId, volunteerId, signupId, now), eventId, volunteerId) == signups
  {
    var added := Signup(signupId, eventId, volunteerId, now, SignedUp);
    assert AddSignup(signups, eventId, volunteerId, signupId, now) == signups + [added];
    FilterAppend(signups, added, NotForPair(eventId, volunteerId));
    assert !NotForPair(eventId, volunteerId)(added);
    assert RemoveSignups(signups, eventId, volunteerId) == signups;
  }

  /** A sub-sequence of signups without repeated pairs has no repeated pairs either. */
  lemma {:induction false} SubsequenceKeepsPairsUnique(r: seq<Signup>, s: seq<Signup>)
    requires IsSubsequence(r, s) && SignupPairsUnique(s)
    ensures SignupPairsUnique(r)
    decreases |s|
  {
    if |r| > 0 {
      assert SignupPairsUnique(s[1..]) by {
        forall i, j | 0 <= i < j < |s[1..]|
          ensures !(s[1..][i].eventId == s[1..][j].eventId && s[1..][i].volunteerId == s[1..][j].volunteerId)
        {
          assert s[1..][i] == s[i + 1] && s[1..][j] == s[j + 1];
        }
      }
      if r[0] == s[0] && IsSubsequence(r[1..], s[1..]) {
        SubsequenceKeepsPairsUnique(r[1..], s[1..]);
        SubsequenceMembers(r[1..], s[1..]);
        forall i, j | 0 <= i < j < |r|
          ensures !(r[i].eventId == r[j].eventId && r[i].volunteerId == r[j].volunteerId)
        {
          if i == 0 {
            assert r[j] == r[1..][j - 1] && r[1..][j - 1] in r[1..];
            assert r[j] in s[1..];
            var k :| 0 <= k < |s[1..]| && s[1..][k] == r[j];
            assert s[k + 1] == r[j];
          } else {
            assert r[i] == r[1..][i - 1] && r[j] == r[1..][j - 1];
          }
        }
      } else {
        SubsequenceKeepsPairsUnique(r, s[1..]);
      }
    }
  }

  /** Cancelling keeps at most one signup per (event, volunteer) pair. */
  lemma RemoveSignupsKeepsPairsUnique(signups: seq<Signup>, eventId: int, volunteerId: int)
    requires SignupPairsUnique(signups)
    ensures SignupPairsUnique(RemoveSignups(signups, eventId, volunteerId))
  {
    RemoveSignupsKeepsOthers(signups, eventId, volunteerId);
    SubsequenceKeepsPairsUnique(RemoveSignups(signups, eventId, volunteerId), signups);
  }

  /* ---------- updateVolunteer ---------- */

  /**
   * The volunteers list after `updateVolunteer()` with the edited record
   * `edited`: every record whose id is `edited.id` is replaced by `edited`,
   * every other record stays where it was.
   */
  function ReplaceVolunteer(volunteers: seq<Volunteer>, edited: Volunteer): (r: seq<Volunteer>)
    ensures |r| == |volunteers|
    ensures forall i :: 0 <= i < |r| ==> r[i].id == volunteers[i].id
    ensures forall i :: 0 <= i < |r| && volunteers[i].id == edited.id ==> r[i] == edited
    ensures forall i :: 0 <= i < |r| && volunteers[i].id != edited.id ==> r[i] == volunteers[i]
  {
    seq(|volunteers|, i requires 0 <= i < |volunteers| =>
      if volunteers[i].id == edited.id then edited else volunteers[i])
  }

  /** Editing a volunteer leaves every volunteer account pointing at an existing record. */
  lemma ReplaceVolunteerKeepsLinks(users: seq<User>, volunteers: seq<Volunteer>, edited: Volunteer)
    requires VolunteerLinksResolve(users, volunteers)
    ensures VolunteerLinksResolve(users, ReplaceVolunteer(volunteers, edited))
  {
    var r := ReplaceVolunteer(volunteers, edited);
    forall id | HasVolunteer(volunteers, id) ensures HasVolunteer(r, id) {
      var k :| 0 <= k < |volunteers| && volunteers[k].id == id;
      assert r[k].id == id;
    }
  }

  /** Editing a volunteer keeps volunteer ids distinct. */
  lemma ReplaceVolunteerKeepsIdsUnique(volunteers: seq<Volunteer>, edited: Volunteer)
    requires VolunteerIdsUnique(volunteers)
    ensures VolunteerIdsUnique(ReplaceVolunteer(volunteers, edited))
  {
  }

  /** An edited record whose id matches no volunteer changes nothing (no error is reported). */
  lemma ReplaceAbsentVolunteer(volunteers: seq<Volunteer>, edited: Volunteer)
    requires !HasVolunteer(volunteers, edited.id)
    ensures ReplaceVolunteer(volunteers, edited) == volunteers
  {
  }

  /** Applying the same edit twice is the same as applying it once. */
  lemma ReplaceVolunteerIdempotent(volunteers: seq<Volunteer>, edited: Volunteer)
    ensures ReplaceVolunteer(ReplaceVolunteer(volunteers, edited), edited) == ReplaceVolunteer(volunteers, edited)
  {
  }

  /* ---------- createVolunteer ---------- */

  /** The add-volunteer form; `age` is the text typed in. */
  datatype VolunteerForm = VolunteerForm(name: string, age: string, email: string, password: string, committee: string)

  /** The form check of `createVolunteer`: name, age, email and password are all non-empty. */
  predicate VolunteerFormComplete(form: VolunteerForm)
  {
    form.name != "" && form.age != "" && form.email != "" && form.password != ""
  }

  /** The volunteer record `createVolunteer` pushes; `age` is what `parseInt` made of the typed text. */
  function NewVolunteerRecord(form: VolunteerForm, age: Option<int>, volunteerId: int, today: string): Volunteer
  {
    Volunteer(volunteerId, form.name, age, form.committee, today, volunteerId + 1)
  }

  /** The account `createVolunteer` pushes next to the volunteer record. */
  function NewVolunteerAccount(form: VolunteerForm, volunteerId: int): User
  {
    User(volunteerId + 1, form.email, form.password, VolunteerRole, Some(volunteerId), None)
  }

  /** Adding a linked record and account keeps every volunteer account resolvable, the new one included. */
  lemma AddLinkedPairKeepsLinks(users: seq<User>, volunteers: seq<Volunteer>, v: Volunteer, u: User)
    requires VolunteerLinksResolve(users, volunteers) && Linked(v, u)
    ensures VolunteerLinksResolve(users + [u], volunteers + [v])
  {
    var vs := volunteers + [v];
    assert vs[|volunteers|].id == v.id;
    forall id | HasVolunteer(volunteers, id) ensures HasVolunteer(vs, id) {
      var k :| 0 <= k < |volunteers| && volunteers[k].id == id;
      assert vs[k].id == id;
    }
  }

  /** Appending records with ids not yet in use keeps ids distinct. */
  lemma AppendFreshIdsKeepsUnique(volunteers: seq<Volunteer>, v: Volunteer, users: seq<User>, u: User)
    requires VolunteerIdsUnique(volunteers) && !HasVolunteer(volunteers, v.id)
    requires UserIdsUnique(users) && forall i :: 0 <= i < |users| ==> users[i].id != u.id
    ensures VolunteerIdsUnique(volunteers + [v]) && UserIdsUnique(users + [u])
  {
    var vs := volunteers + [v];
    forall i, j | 0 <= i < j < |vs| ensures vs[i].id != vs[j].id {
      if j == |volunteers| {
        assert vs[i] == volunteers[i];
      }
    }
  }

  /* ---------- createEvent ---------- */

  /** The create-event form. */
  datatype EventForm = EventForm(name: string, date: string, committee: string, description: string)

  /** The form check of `createEvent`: name and date are non-empty. */
  predicate EventFormComplete(form: EventForm)
  {
    form.name != "" && form.date != ""
  }

  /** The event `createEvent` pushes: the form's fields, a new id and the creating account. */
  function NewEvent(form: EventForm, eventId: int, createdBy: int): Event
  {
    Event(eventId, form.name, form.date, form.committee, form.description, createdBy)
  }
}
