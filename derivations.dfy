/**
 * The read-only closures of the registry component: the credential lookup
 * behind `login`, `getCurrentVolunteer`, `getVolunteerStats` and
 * `getFilteredVolunteers`. Each is a function of the collections it reads.
 */
module Derivations {
  import opened Wrappers
  import opened Seqs
  import opened Text
  import opened Database

  /* ---------- login ---------- */

  function HasCredentials(email: string, password: string): User -> bool
  {
    (u: User) => u.email == email && u.password == password
  }

  /** The account `login(email, password)` selects: the first whose email and password both match exactly. */
  function FindLoginUser(users: seq<User>, email: string, password: string): (r: Option<User>)
    ensures r.Some? <==> exists i :: 0 <= i < |users| && users[i].email == email && users[i].password == password
    ensures r.Some? ==>
      exists i :: && 0 <= i < |users| && users[i] == r.value
                  && r.value.email == email && r.value.password == password
                  && forall j :: 0 <= j < i ==> !(users[j].email == email && users[j].password == password)
  {
    var r := Find(users, HasCredentials(email, password));
    assert r.Some? ==> exists i :: IsFirstMatch(users, HasCredentials(email, password), i) && users[i] == r.value;
    r
  }

  /* ---------- getCurrentVolunteer ---------- */

  function HasId(id: int): Volunteer -> bool
  {
    (v: Volunteer) => v.id == id
  }

  /** The volunteer record of the logged-in account: only volunteer accounts have one, found by id. */
  function CurrentVolunteer(currentUser: Option<User>, volunteers: seq<Volunteer>): (r: Option<Volunteer>)
    ensures r.Some? <==>
      currentUser.Some? && currentUser.value.role == VolunteerRole && currentUser.value.volunteerId.Some?
      && HasVolunteer(volunteers, currentUser.value.volunteerId.value)
    ensures r.Some? ==>
      && currentUser.value.volunteerId == Some(r.value.id)
      && exists i :: IsFirstMatch(volunteers, HasId(r.value.id), i) && volunteers[i] == r.value
  {
    if currentUser.Some? && currentUser.value.role == VolunteerRole && currentUser.value.volunteerId.Some? then
      var id := currentUser.value.volunteerId.value;
      var r := Find(volunteers, HasId(id));
      assert r.Some? ==> exists i :: IsFirstMatch(volunteers, HasId(id), i) && volunteers[i] == r.value;
      assert r.Some? ==> r.value.id == id;
      r
    else
      None
  }

  /** In a consistent registry, a logged-in volunteer account always has its volunteer record. */
  lemma LoggedInVolunteerResolves(u: User, users: seq<User>, volunteers: seq<Volunteer>)
    requires VolunteerLinksResolve(users, volunteers)
    requires u in users && u.role == VolunteerRole
    ensures CurrentVolunteer(Some(u), volunteers).Some?
    ensures CurrentVolunteer(Some(u), volunteers).value.id == u.volunteerId.value
  {
    var i :| 0 <= i < |users| && users[i] == u;
  }

  /* ---------- getVolunteerStats ---------- */

  /** Participation rate: `count` participations over `days` days, scaled to 30 days when displayed. */
  datatype Frequency = NoRate | PerThirtyDays(count: nat, days: nat)

  datatype Stats = Stats(total: nat, frequency: Frequency, firstDate: Option<string>)

  function ByVolunteer(volunteerId: int): Participation -> bool
  {
    (p: Participation) => p.volunteerId == volunteerId
  }

  /**
   * `getVolunteerStats(volunteerId)`. `elapsedDays` stands for the whole number
   * of days from the volunteer's first participation to now, which the caller
   * computes from the clock.
   */
  function VolunteerStats(volunteerId: int, volunteers: seq<Volunteer>, participations: seq<Participation>,
                          elapsedDays: int): (r: Stats)
    ensures !HasVolunteer(volunteers, volunteerId) ==> r == Stats(0, NoRate, None)
    ensures HasVolunteer(volunteers, volunteerId) ==>
      && r.total == Count(participations, ByVolunteer(volunteerId))
      && r.frequency.PerThirtyDays?
      && r.frequency.count == r.total
      && exists i :: IsFirstMatch(volunteers, HasId(volunteerId), i)
                     && r.firstDate == Some(volunteers[i].firstParticipation)
    ensures r.frequency.PerThirtyDays? ==> r.frequency.days >= 1 && r.frequency.days >= elapsedDays
    ensures r.frequency.PerThirtyDays? ==> r.frequency.days == if elapsedDays > 1 then elapsedDays else 1
  {
    var mine := Filter(participations, ByVolunteer(volunteerId));
    var found := Find(volunteers, HasId(volunteerId));
    if found.None? then
      Stats(0, NoRate, None)
    else
      var days := if elapsedDays > 1 then elapsedDays else 1;
      FilterLength(participations, ByVolunteer(volunteerId));
      assert exists i :: IsFirstMatch(volunteers, HasId(volunteerId), i) && volunteers[i] == found.value;
      Stats(|mine|, PerThirtyDays(|mine|, days), Some(found.value.firstParticipation))
  }

  lemma {:induction false} CountNone<T>(s: seq<T>, p: T -> bool)
    requires forall i :: 0 <= i < |s| ==> !p(s[i])
    ensures Count(s, p) == 0
    decreases |s|
  {
    if |s| > 0 {
      CountNone(s[1..], p);
    }
  }

  /**
   * A volunteer just added, with no participations yet, has total 0, a rate of
   * 0 participations over at least one day, and its own first-participation date.
   */
  lemma StatsOfNewVolunteer(v: Volunteer, volunteers: seq<Volunteer>, participations: seq<Participation>,
                            elapsedDays: int)
    requires !HasVolunteer(volunteers, v.id)
    requires forall i :: 0 <= i < |participations| ==> participations[i].volunteerId != v.id
    ensures VolunteerStats(v.id, volunteers + [v], participations, elapsedDays)
         == Stats(0, PerThirtyDays(0, if elapsedDays > 1 then elapsedDays else 1), Some(v.firstParticipation))
  {
    var all := volunteers + [v];
    assert all[|volunteers|] == v;
    assert HasVolunteer(all, v.id);
    CountNone(participations, ByVolunteer(v.id));
  }

  /* ---------- getFilteredVolunteers ---------- */

  function NameIncludes(searchTerm: string): Volunteer -> bool
  {
    (v: Volunteer) => Includes(Lower(v.name), Lower(searchTerm))
  }

  function InCommittee(committee: string): Volunteer -> bool
  {
    (v: Volunteer) => v.committee == committee
  }

  /** The volunteer passes the search box: empty term, or its lower-cased name contains the lower-cased term. */
  ghost predicate MatchesSearch(v: Volunteer, searchTerm: string)
  {
    searchTerm == "" || Includes(Lower(v.name), Lower(searchTerm))
  }

  /** The volunteer passes the committee selector: "all", or its committee is the selected one. */
  ghost predicate MatchesCommittee(v: Volunteer, committee: string)
  {
    committee == "all" || v.committee == committee
  }

  /** `getFilteredVolunteers()` for the given search term and committee selection. */
  function FilterVolunteers(volunteers: seq<Volunteer>, searchTerm: string, committee: string): (r: seq<Volunteer>)
    ensures |r| <= |volunteers|
    ensures forall v :: v in r <==>
      v in volunteers && MatchesSearch(v, searchTerm) && MatchesCommittee(v, committee)
    ensures searchTerm == "" && committee == "all" ==> r == volunteers
  {
    var byName := if searchTerm != "" then Filter(volunteers, NameIncludes(searchTerm)) else volunteers;
    if committee != "all" then Filter(byName, InCommittee(committee)) else byName
  }

  /**
   * The filtered list keeps the input order, and keeps every occurrence of a
   * matching volunteer and none of the others.
   */
  lemma FilterVolunteersKeepsOrder(volunteers: seq<Volunteer>, searchTerm: string, committee: string)
    ensures IsSubsequence(FilterVolunteers(volunteers, searchTerm, committee), volunteers)
    ensures forall v ::
      multiset(FilterVolunteers(volunteers, searchTerm, committee))[v] ==
      (if MatchesSearch(v, searchTerm) && MatchesCommittee(v, committee) then multiset(volunteers)[v] else 0)
  {
    var byName := if searchTerm != "" then Filter(volunteers, NameIncludes(searchTerm)) else volunteers;
    if searchTerm != "" {
      FilterIsSubsequence(volunteers, NameIncludes(searchTerm));
      forall v ensures multiset(byName)[v] == if MatchesSearch(v, searchTerm) then multiset(volunteers)[v] else 0 {
        FilterMultiplicity(volunteers, NameIncludes(searchTerm), v);
      }
    } else {
      SubsequenceReflexive(volunteers);
    }
    if committee != "all" {
      FilterIsSubsequence(byName, InCommittee(committee));
      SubsequenceTransitive(Filter(byName, InCommittee(committee)), byName, volunteers);
      forall v ensures multiset(Filter(byName, InCommittee(committee)))[v] ==
        if MatchesCommittee(v, committee) then multiset(byName)[v] else 0 {
        FilterMultiplicity(byName, InCommittee(committee), v);
      }
    }
  }

  lemma {:induction false} FilterCongruent<T(!new)>(s: seq<T>, p: T -> bool, q: T -> bool)
    requires forall x :: p(x) == q(x)
    ensures Filter(s, p) == Filter(s, q)
    decreases |s|
  {
    if |s| > 0 {
      FilterCongruent(s[1..], p, q);
    }
  }

  /** The search ignores the case of the term: searching for a term or its lower-cased form gives the same list. */
  lemma SearchIgnoresCase(volunteers: seq<Volunteer>, searchTerm: string, committee: string)
    ensures FilterVolunteers(volunteers, searchTerm, committee) == FilterVolunteers(volunteers, Lower(searchTerm), committee)
  {
    LowerIdempotent(searchTerm);
    FilterCongruent(volunteers, NameIncludes(searchTerm), NameIncludes(Lower(searchTerm)));
  }

  /** Searching the seed data for "ahm" in all committees finds exactly Ahmed Hassan. */
  lemma SeedSearchFindsAhmed()
    ensures FilterVolunteers(SeedVolunteers(), "ahm", "all") == [SeedVolunteers()[0]]
  {
    var ahmed, fatima := SeedVolunteers()[0], SeedVolunteers()[1];
    var term := Lower("ahm");
    assert term == "ahm";
    var a := Lower(ahmed.name);
    assert a[0..3] == "ahm";
    assert OccursAt(a, term, 0);
    IncludesIffOccurs(a, term);
    var f := Lower(fatima.name);
    assert forall k :: 0 <= k < |f| ==> f[k] != 'h';
    assert forall i :: OccursAt(f, term, i) ==> f[i..i + 3][1] == 'h';
    IncludesIffOccurs(f, term);
    assert SeedVolunteers()[1..] == [fatima];
  }
}
