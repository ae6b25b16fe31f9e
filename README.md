# Volunteer registry model

A Dafny model of the in-memory volunteer registry behind the single React
component of a volunteer-management web app (`src/VolunteerManagementSystem.jsx`).
The registry holds six collections: users, volunteers, committees, events,
signups and participations. It also records which account is logged in. The
component's closures read it or change it:

- `login` looks up an account by exact email and password and makes it current.
- `getCurrentVolunteer` resolves a logged-in volunteer account to its volunteer record.
- `getVolunteerStats` counts a volunteer's participations and gives the first-participation date.
- `getFilteredVolunteers` applies the name search box and the committee selector.
- `signUpForEvent` and `cancelSignup` add and remove the current volunteer's signups.
- `createVolunteer`, `createEvent` and `updateVolunteer` push or replace records.

Layout, one module per file:

- `wrappers.dfy` (`Wrappers`): `Option`, for JavaScript's `undefined`/`null`.
- `seqs.dfy` (`Seqs`): `find` and `filter` as functions on sequences. It also defines sub-sequences (order-preserving deletion) and an independent element count, with lemmas relating them.
- `text.dfy` (`Text`): `toLowerCase` and `includes`.
- `database.dfy` (`Database`): the record types, the seed data, and the consistency conditions: one signup per (event, volunteer) pair, volunteer accounts that resolve, and distinct ids.
- `derivations.dfy` (`Derivations`): the read-only closures as functions.
- `transitions.dfy` (`Transitions`): the new collections the mutating closures build, and the form checks.
- `registry.dfy` (`Registry`): class `VolunteerRegistry`. It has one `seq` field per collection and a `currentUser: Option<User>` field. Its methods assign those fields and keep the invariant `Valid()`. Two scenario methods on the seed data show what a caller can prove from the contracts.

The clock, `Date.now()` ids and `parseInt` are replaced by parameters. Each method takes the fresh id, the current timestamp or date, the parsed age, or the elapsed day count from its caller.

Behaviour of the code a reader might not expect, which the model keeps as written:

- `updateVolunteer` with an id that matches no record changes nothing, yet still shows its "updated successfully" message. There is no "not found" error (`Transitions.ReplaceAbsentVolunteer`).
- `cancelSignup` removes the pair's signups whatever their status, confirmed ones included.
- `createVolunteer` checks only that the four text fields are non-empty. An age that `parseInt` cannot read is stored as `NaN`, modelled as `None`.
- `createEvent` takes the creator from the logged-in account. With nobody logged in, reading `currentUser.id` throws before anything is pushed (`NoCurrentUser`, no change).
- `signUpForEvent` does not check that the event exists.

## Model

| member | source | states |
|---|---|---|
| `Seqs.Find` | src/VolunteerManagementSystem.jsx:248-250 | `find` returns an element iff some element satisfies the predicate, and it is the first such element |
| `Seqs.Filter` | src/VolunteerManagementSystem.jsx:215-221 | `filter` keeps exactly the elements that satisfy the predicate, and is never longer than its input |
| `Seqs.FilterIsSubsequence` | src/VolunteerManagementSystem.jsx:215-221 | `filter`'s result is an order-preserving sub-sequence of its input |
| `Seqs.FilterMultiplicity` | src/VolunteerManagementSystem.jsx:215-221 | `filter` keeps every occurrence of a kept element and no occurrence of a dropped one |
| `Seqs.FilterLength` | src/VolunteerManagementSystem.jsx:296-298 | the length of a filtered list equals the independently defined count of matching elements |
| `Text.Lower` | src/VolunteerManagementSystem.jsx:216 | lower-casing keeps the length and maps each character to its lower-case form |
| `Text.LowerIdempotent` | src/VolunteerManagementSystem.jsx:216 | lower-casing an already lower-cased string changes nothing |
| `Text.IncludesIffOccurs` | src/VolunteerManagementSystem.jsx:216 | `s.includes(t)` holds iff `t` occurs as a contiguous slice of `s` at some position |
| `Database.SeedIsConsistent` | src/VolunteerManagementSystem.jsx:20-106 | the seed data has one signup per (event, volunteer) pair, volunteer accounts that resolve, distinct ids, and mutually linked volunteer/account pairs |
| `Derivations.FindLoginUser` | src/VolunteerManagementSystem.jsx:247-258 | the lookup succeeds iff some account's email and password both equal the inputs exactly; the account found is the first such one |
| `Derivations.CurrentVolunteer` | src/VolunteerManagementSystem.jsx:290-293 | a record is returned iff the current account is a volunteer account whose volunteer id some record carries; it is the first record with that id |
| `Derivations.LoggedInVolunteerResolves` | src/VolunteerManagementSystem.jsx:290-293 | in a registry whose volunteer accounts resolve, a stored volunteer account always yields its record |
| `Derivations.VolunteerStats` | src/VolunteerManagementSystem.jsx:295-314 | for an unknown id the result is total 0, no rate, no first date; otherwise the total is the number of that volunteer's participations, the first date is the record's, and the day divisor is the elapsed days clamped below at 1 |
| `Derivations.StatsOfNewVolunteer` | src/VolunteerManagementSystem.jsx:295-314 | a newly added volunteer with no participations has total 0, a rate of 0 over at least one day, and its own first-participation date |
| `Derivations.FilterVolunteers` | src/VolunteerManagementSystem.jsx:211-225 | a volunteer is listed iff it is in the input, its lower-cased name contains the lower-cased term (when the term is non-empty) and its committee is the selected one (unless "all"); with "" and "all" the input comes back unchanged |
| `Derivations.FilterVolunteersKeepsOrder` | src/VolunteerManagementSystem.jsx:211-225 | the filtered list is an order-preserving sub-sequence of the input that keeps every occurrence of a matching volunteer |
| `Derivations.SearchIgnoresCase` | src/VolunteerManagementSystem.jsx:214-217 | searching for a term and for its lower-cased form give the same list |
| `Derivations.SeedSearchFindsAhmed` | src/VolunteerManagementSystem.jsx:211-225 | on the seed data, searching "ahm" in all committees returns exactly the record of Ahmed Hassan |
| `Transitions.AddSignup` | src/VolunteerManagementSystem.jsx:322-339 | after signing up, the pair has a signup; earlier signups stay in order as a prefix; the list is unchanged iff the pair was already signed up, and otherwise grows by one signed-up signup with the given id and time |
| `Transitions.AddSignupKeepsPairsUnique` | src/VolunteerManagementSystem.jsx:322-339 | signing up keeps at most one signup per (event, volunteer) pair |
| `Transitions.SecondSignUpRejected` | src/VolunteerManagementSystem.jsx:322-325 | a second sign-up for the same pair leaves the signups exactly as the first left them |
| `Transitions.RemoveSignups` | src/VolunteerManagementSystem.jsx:348-353 | after cancelling, no signup of the pair remains and every signup of another pair is kept, whatever its status; the list shrinks when the pair had a signup and is returned unchanged when it had none |
| `Transitions.RemoveSignupsKeepsOthers` | src/VolunteerManagementSystem.jsx:350-352 | cancelling keeps the other signups in their order, each as often as before |
| `Transitions.RemoveSignupsIdempotent` | src/VolunteerManagementSystem.jsx:350-352 | cancelling twice gives the same list as cancelling once |
| `Transitions.CancelUndoesSignUp` | src/VolunteerManagementSystem.jsx:327-353 | cancelling right after a successful sign-up restores the signups list exactly |
| `Transitions.RemoveSignupsKeepsPairsUnique` | src/VolunteerManagementSystem.jsx:350-352 | cancelling keeps at most one signup per (event, volunteer) pair |
| `Transitions.ReplaceVolunteer` | src/VolunteerManagementSystem.jsx:235-237 | the length and every position's id are kept; records with the edited id become the edited record, all others are untouched |
| `Transitions.ReplaceVolunteerKeepsLinks` | src/VolunteerManagementSystem.jsx:235-237 | editing a volunteer leaves every volunteer account resolvable |
| `Transitions.ReplaceVolunteerKeepsIdsUnique` | src/VolunteerManagementSystem.jsx:235-237 | editing a volunteer keeps volunteer ids distinct |
| `Transitions.ReplaceAbsentVolunteer` | src/VolunteerManagementSystem.jsx:235-237 | an edited record whose id matches no volunteer changes nothing |
| `Transitions.ReplaceVolunteerIdempotent` | src/VolunteerManagementSystem.jsx:235-237 | applying the same edit twice equals applying it once |
| `Transitions.AddLinkedPairKeepsLinks` | src/VolunteerManagementSystem.jsx:141-161 | appending a mutually linked record and account keeps every volunteer account resolvable |
| `Transitions.AppendFreshIdsKeepsUnique` | src/VolunteerManagementSystem.jsx:141-161 | appending a record and an account with unused ids keeps ids distinct |
| `Registry.VolunteerRegistry.constructor` | src/VolunteerManagementSystem.jsx:16-106 | a new registry holds the seed collections, nobody is logged in, and the invariant holds |
| `Registry.VolunteerRegistry.Login` | src/VolunteerManagementSystem.jsx:247-258 | succeeds iff some account matches both credentials exactly; on success the first match becomes current, on failure nothing changes |
| `Registry.VolunteerRegistry.SignUpForEvent` | src/VolunteerManagementSystem.jsx:318-342 | without a current volunteer nothing changes, which in a consistent registry happens exactly when no volunteer account is logged in; a repeat for the pair is rejected and changes nothing; otherwise exactly one signed-up signup is appended; only `signups` changes and the invariant is kept |
| `Registry.VolunteerRegistry.CancelSignup` | src/VolunteerManagementSystem.jsx:344-356 | without a current volunteer nothing changes; otherwise exactly the current volunteer's signups for the event are removed, and for a logged-in volunteer account these are the signups under its volunteer id; only `signups` changes |
| `Registry.VolunteerRegistry.CreateVolunteer` | src/VolunteerManagementSystem.jsx:130-175 | with an empty name, age, email or password nothing changes; otherwise one volunteer and one account are appended, linked to each other, with account id = volunteer id + 1 and role volunteer; earlier records are untouched and ids stay distinct when the new ones are unused |
| `Registry.VolunteerRegistry.CreateEvent` | src/VolunteerManagementSystem.jsx:177-202 | with an empty name or date, or nobody logged in, nothing changes; otherwise one event with the form's fields, created by the current account, is appended |
| `Registry.VolunteerRegistry.UpdateVolunteer` | src/VolunteerManagementSystem.jsx:232-242 | the volunteers become the replaced list: same length, only records with the edited id change; no other collection changes and the invariant is kept |

## Left out

- `confirmAttendance` is called from the manager's event view (src/VolunteerManagementSystem.jsx:998) but is not defined in the component. So no code writes `participations`, and the model has no operation that does.
- Persistence: the model starts from the seed data. Loading a stored copy from `localStorage` and writing it back after each change are browser I/O and are not modelled.
- `Derivations.VolunteerStats`: the frequency is kept as the pair (participation count, day divisor). The floating-point division, the scaling by 30 and the `toFixed(1)` formatting are not modelled. The elapsed day count comes from the clock, so the caller supplies it as an integer. An unparsable first-participation date, which would give `NaN`, is not modelled; no code path stores one.
- `Text.Lower`: only the ASCII letters A to Z are lower-cased. JavaScript's `toLowerCase` maps all of Unicode.
- `Registry.VolunteerRegistry.CreateVolunteer`: the age is what `parseInt` made of the typed text, given by the caller (`None` for `NaN`). `parseInt` itself is not modelled.
- `Date.now()` ids and `new Date().toISOString()` timestamps are caller-supplied parameters. Their freshness is a hypothesis of the id-distinctness clauses, not a precondition.
- `Registry.VolunteerRegistry.UpdateVolunteer`: the edited record is a value. The component's `null` "no edit in progress" state only hides the save button, so it is not modelled.
- `{ ...db }` is a shallow copy, so the pushes in `createVolunteer` and `createEvent` also change the previous state object's arrays. The model has one registry whose fields are reassigned, so this sharing is not represented.
- `logout`, the empty-field check and 600 ms delay of `handleLogin` (src/VolunteerManagementSystem.jsx:260-284), toasts and alerts, form resets, view navigation, and all rendering are left out. So are the date-based upcoming-event filter and sort inside the views. They are presentation, not registry logic.
- The committee dropdowns only offer the configured committees. The model accepts any committee string.
