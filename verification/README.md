# Smart-SPA booking core in Dafny

Smart-SPA is a desktop application for booking beauty-salon appointments.
Clients, salons and administrators share one PostgreSQL database. This
project models the booking bookkeeping that sits apart from the Qt event
handlers in `main_patched.py`, and proves properties about it.

- **Status normalisation** (`status.dfy`, module `AppointmentStatus`). A raw
  appointment status (a Russian or English label, an enum value or a code)
  is mapped onto one of four canonical Russian labels: awaiting
  confirmation, confirmed, cancelled and completed. The mapping uses the
  synonym table and ignores case and surrounding whitespace. The
  cancellation gate lets only the first two labels through. The table
  holds the source's 24 entries, written as four key sets, one per
  label, so that each value is visibly canonical.
- **Role lookup** (`roles.dfy`, module `Roles`). The role text of a
  logged-in user is stripped, case-folded and looked up in the role
  synonym table.
- **Phone normalisation** (`phone.dfy`, module `Phone`). The input is
  stripped, the separators ` ()-` are removed, and what is left must be
  digits with at most one leading `+`.
- **Login lookup** (`login.dfy`, module `Login`). A login text becomes a
  phone condition, an e-mail condition or nothing. The first user row
  matching a condition is the user.
- **Status select expression** (`status_select.dfy`, module `StatusSelect`).
  The SQL expression that reads a status is built from the columns the
  schema has. The two column sets are inputs.
- **The store** (`schema.dfy`, module `Schema`, and `store.dfy`, class
  `Database.Store`).
  - The relations the core touches are maps keyed by id. Master-service
    assignments are a set.
  - Each SQL statement or stored-function call is a `Command` with an
    effect on the relations.
  - Whether the store carries a command out is decided by an oracle
    `accepts: Command -> bool`. It stands for constraints, lost
    connections and failing stored functions.
  - A run of commands stops at the first rejected one, and nothing is
    undone, as the source's `return False` does.
- **Client cleanup** (`cleanup.dfy`, module `ClientCleanup`, and
  `Database.Store.CleanupClientRelatedData`). This runs before a client is
  deleted.
- **Master assignments** (`assignments.dfy`, module `MasterAssignments`,
  and `Database.Store.SaveMasterAssignments`). These replace a service's
  masters within a salon.
- **Booking cancellation** (`cancellation.dfy`, module
  `BookingCancellation`, and `Database.Store.CancelBooking`). The gate
  and the steps before the stored `cancel_appointment` is called.
- **Free-slot listing** (`availability.dfy`, module `Availability`). It
  filters, orders by start time and takes `limit` slots.

Shared helpers are in `text.dfy` (Python's `strip`, `lower`/`casefold`,
`isdigit`, `replace` and `join` on strings), `collections.dfy` and
`wrappers.dfy`.

The stored `cancel_appointment` is not part of this model, because its body
is not in the repository. It is taken to set the appointment's status to
the cancelled label and to clear its slot's booked flag (`Schema.Apply`).
In the cleanup, the appointment is deleted afterwards and every referenced
slot is freed explicitly, so the cleanup's outcome does not depend on that
choice.

## Model

| member | source | states |
|---|---|---|
| AppointmentStatus.NormalizeStatus | main_patched.py:379-388 | A missing value gives "". The result is "" exactly when the value is missing or blank. Otherwise it is a canonical label or the stripped text, and text whose lower-cased form is not a synonym comes back stripped and otherwise unchanged. |
| AppointmentStatus.KnownSynonym | main_patched.py:379-388 | A value whose stripped, lower-cased text is a synonym normalises to that synonym's entry in the table, and the entry is a canonical label. |
| AppointmentStatus.EmptyNotKey | main_patched.py:53-78 | The empty text is not a synonym of any label. |
| AppointmentStatus.EmptyNotKeyOf | main_patched.py:53-78 | A set of non-empty spellings does not contain the empty text. |
| AppointmentStatus.MayCancel | main_patched.py:1799-1807 | The gate: the status normalises to one of the allowed labels. A status that passes is present and not blank. |
| AppointmentStatus.AliasValuesCanonical | main_patched.py:53-78 | Every value of the synonym table is one of the four canonical labels. |
| AppointmentStatus.CanonicalSelfMapped | main_patched.py:53-78 | Each canonical label is its own lower-case form and a key of the table that maps to itself, so it normalises to itself. |
| AppointmentStatus.NormalizeStatusIdempotent | main_patched.py:379-388 | Normalising an already normalised status changes nothing. |
| AppointmentStatus.NormalizeStatusIgnoresCase | main_patched.py:386-388 | For a known synonym, lower-casing the input first gives the same result. |
| AppointmentStatus.CancellationGate | main_patched.py:1799-1807 | The gate passes a status if and only if it normalises to awaiting confirmation or confirmed. Cancelled, completed, blank and unrecognised statuses are refused. |
| AppointmentStatus.CancelledLabelRefused | main_patched.py:53-80 | The cancelled label normalises to itself and does not pass the gate. |
| AppointmentStatus.CancelledIsRefused | main_patched.py:80 | A status already reading as the cancelled label normalises to it and is refused. |
| Roles.CanonicalRole | main_patched.py:1664-1665 | A role is recognised if and only if its stripped, case-folded text is a key of the role table, and then it is the role the table gives that key. |
| Roles.RoleNameRoundTrip | main_patched.py:32-40 | Each canonical role name is recognised as that role. |
| Roles.RoleNameInTable | main_patched.py:32-40 | Each canonical role name is a key of the table that maps to its own role. |
| Roles.PlainTextIsOwnKey | main_patched.py:1664 | A non-empty text of lower-case Latin or Cyrillic letters is its own lookup key. |
| Roles.TableSpellingsRecognised | main_patched.py:32-40 | Every spelling in the table, English or Russian, is recognised as the role the table gives it. |
| Roles.CanonicalRoleIgnoresCase | main_patched.py:1664-1665 | Case-folding the role text first does not change the recognised role. |
| Roles.BlankRoleUnknown | main_patched.py:1664-1665 | A missing or whitespace-only role is not recognised. |
| Phone.NormalizePhone | main_patched.py:802-817 | The loop that strips and removes each separator in turn, then checks the shape, yields `PhoneNormalized(phone)`. |
| Phone.PhoneNormalized | main_patched.py:802-817 | What normalisation yields: a missing input gives "", and a non-empty result has a phone number's shape and is no longer than the stripped input. `PhoneBlank`, `PhoneResultShape` and `PhoneNormalizedIdempotent` state the rest. |
| Phone.PhoneBlank | main_patched.py:803-805 | The result is "" if and only if the input is missing or whitespace only. |
| Phone.PhoneResultShape | main_patched.py:807-817 | A non-empty result holds no separator, only digits, and at most a leading '+'. |
| Phone.PhoneNormalizedIdempotent | main_patched.py:802-817 | Normalising an accepted number again returns it unchanged. |
| Phone.CleanInput | main_patched.py:802-817 | An input with nothing to strip and no separator is accepted exactly when it already has a phone number's shape. |
| Phone.LonePlusRejected | main_patched.py:810-813 | "+" alone is rejected. |
| Phone.SeparatorsOnlyRejected | main_patched.py:807-815 | "()" is rejected, because nothing is left to be a number. |
| Login.LookupClausesNone | main_patched.py:391-410 | There is nothing to look up if and only if the stripped text is blank, or is neither a phone number nor contains '@'. |
| Login.LookupClauses | main_patched.py:391-410 | The conditions for a login text: when there are any, the text is not blank and there are one or two of them. `LookupClausesNone` and `LookupClausesShape` state exactly when each condition appears and what it carries. |
| Login.LookupClausesShape | main_patched.py:396-407 | A phone condition appears exactly when the text normalises to a non-empty phone number, and it carries that number. An e-mail condition appears exactly when the text contains '@', and it carries the stripped text. Never both. |
| Login.EmailLookup | main_patched.py:396-407 | A text containing '@' is not read as a phone number, and gives the single condition comparing the e-mail with the stripped text. |
| Login.PhoneLookup | main_patched.py:396-407 | A text without '@' that normalises to a non-empty number gives the single condition comparing the phone with that number, which is well-formed. |
| Login.AtSignIsNoPhone | main_patched.py:396-397 | A text containing '@' never normalises to a phone number. |
| Login.FirstMatch | main_patched.py:412-430 | Under `LIMIT 1`, the result is a row matching a condition with no matching row before it. There is no result if and only if no row matches. |
| Login.FindUser | main_patched.py:391-430 | There is no user when there is nothing to look up or the query is rejected. A returned user matches one of the conditions. With an accepted query, no result means no row matches. |
| StatusSelect.JoinClause | main_patched.py:337-342 | A join is produced if and only if the status table has columns and either the id pair (`status_id` in the appointments, `id` in the status table) or the code pair (`status_code`/`code`) exists. The id join is chosen exactly when the id pair exists; the code join exactly when the code pair exists and the id pair does not. |
| StatusSelect.StatusCandidates | main_patched.py:344-362 | There is always at least one candidate, with the fallback literal when the schema offers none. |
| StatusSelect.StatusParts | main_patched.py:344-359 | The candidates in order of preference: the lookup parts when a join exists, then the appointment's own columns, then the id cast when `status_id` exists. `PartsDistinct`, `LookupPartsSpec` and `AppointmentPartsSpec` state what each group holds. |
| StatusSelect.LookupPartsSpec | main_patched.py:345-348 | The lookup parts are exactly `st.<column>` for the listed columns present in the status table: each such column yields its part, nothing else appears, none repeats, and they follow the order of the list. |
| StatusSelect.LookupPartsSound | main_patched.py:345-348 | Each lookup part is `st.<column>` for a listed column present in the status table, and none repeats. |
| StatusSelect.LookupPartsComplete | main_patched.py:345-348 | Every listed column present in the status table yields its `st.<column>` part. |
| StatusSelect.LookupPartsInOrder | main_patched.py:345-348 | The lookup parts appear in the order of the column list. |
| StatusSelect.LookupLastIsNew | main_patched.py:345-348 | The part of a column never already occurs among the parts of the columns before it. |
| StatusSelect.AppointmentPartsSpec | main_patched.py:350-356 | The appointment's own parts are exactly the expressions of the listed columns the appointment table has: each such column yields its expression, nothing else appears, none repeats, and they follow the order of the list. |
| StatusSelect.AppointmentPartsSound | main_patched.py:350-356 | Each own part is the expression of a listed appointment column, and none repeats. |
| StatusSelect.AppointmentPartsInOrder | main_patched.py:350-356 | Every listed column the appointment table has yields its expression, in the order of the list. |
| StatusSelect.DedupSpec | main_patched.py:364-369 | De-duplication keeps exactly the input's elements, each once, ordered by first occurrence. |
| StatusSelect.Dedup | main_patched.py:364-369 | First-occurrence de-duplication; `DedupSpec` states that it keeps exactly the input's elements, each once, in first-occurrence order. |
| StatusSelect.DedupOfDistinct | main_patched.py:364-369 | A sequence without repeats is left as it is. |
| StatusSelect.CandidatesDistinct | main_patched.py:344-369 | The collected candidates never repeat, so de-duplication leaves them unchanged. |
| StatusSelect.PartsDistinct | main_patched.py:344-359 | The parts collected from the two tables and the id cast are pairwise different. |
| StatusSelect.SelectExpressionShapes | main_patched.py:361-374 | With no candidate the expression is `'неизвестно' AS alias`. With one it is `expr AS alias`. With several it is `COALESCE(e1, ..., en) AS alias`, in first-occurrence order. |
| StatusSelect.SelectExpression | main_patched.py:370-373 | One candidate is selected as itself, several through a COALESCE in their order; `SelectExpressionShapes` states the three shapes. |
| StatusSelect.CollectLookupParts | main_patched.py:345-348 | The loop yields the lookup parts in the listed column order. |
| StatusSelect.CollectAppointmentParts | main_patched.py:350-356 | The loop yields the appointment's own parts in the listed order. |
| StatusSelect.DedupInOrder | main_patched.py:364-369 | The loop with its `seen` set computes the first-occurrence de-duplication. |
| StatusSelect.BuildStatusSelectClause | main_patched.py:333-376 | The join clause is `JoinClause`, and the select expression is the shape of the de-duplicated candidates. |
| Schema.RunStopsAtFirstRejection | main_patched.py:271-311 | A run succeeds if and only if every command is accepted. Otherwise it fails at the first rejected command, and the state is what the commands before it produced. |
| Schema.Apply | main_patched.py:211-224 | The effect of one accepted command. Queries change nothing; no command creates an appointment, a review or a slot, or touches the masters. |
| Schema.Run | main_patched.py:271-311 | A run succeeds if and only if every command is accepted, and a successful run reaches the state of applying all of them in order. |
| Schema.CancelTwiceRefused | main_patched.py:1799-1807 | After `cancel_appointment`, the appointment is refused by the gate and its slot is free. |
| ClientCleanup.CancellableIds | main_patched.py:259-263 | The cancellable ids are among the client's appointment ids. |
| ClientCleanup.CleanupPlan | main_patched.py:238-311 | The cleanup's commands in the order issued: the query, the two review deletions, one cancellation per cancellable appointment, the appointment deletion, one release per referenced slot; the two statements keyed on the client's appointments are skipped when there are none. `CleanupPlanAt` states each position. |
| ClientCleanup.Cleaned | main_patched.py:227-313 | The state a complete cleanup leaves; `CleanedSpec` states what it keeps, removes and frees. |
| ClientCleanup.CleanedSpec | main_patched.py:227-313 | The cleaned state holds no appointment of the client, no review by them, no review of one of their appointments, and no booked slot that one of their appointments referenced. Every other appointment, review and slot, and the masters and assignments, are unchanged. |
| ClientCleanup.CleanupPlanAt | main_patched.py:271-311 | Gives the position of each command in the cleanup's command sequence. |
| ClientCleanup.FirstCommandRejected | main_patched.py:238-242 | A rejected first query fails the cleanup with nothing changed. |
| ClientCleanup.SetHasOrder | main_patched.py:305 | Every set of slot ids can be visited once each, in some order. |
| ClientCleanup.CancelsEffect | main_patched.py:289-295 | The cancellations change only the status of the client's appointments and the booked flag of the client's slots. |
| ClientCleanup.ReleasesEffect | main_patched.py:305-311 | Releasing a list of slots clears exactly those slots' booked flag and changes nothing else. |
| ClientCleanup.ReviewsRemoved | main_patched.py:271-287 | The two review deletions leave exactly the reviews the cleaned state keeps, whether or not the first is skipped. |
| ClientCleanup.AfterCancels | main_patched.py:297-303 | After the cancellations, the appointment deletion, or its skipping when there are none, leaves the cleaned appointments. |
| ClientCleanup.SlotsAfterReleases | main_patched.py:305-311 | Releasing every referenced slot after the cancellations frees exactly the referenced slots. |
| ClientCleanup.CleanupPlanOutcome | main_patched.py:271-313 | When every command is accepted, the cleanup reaches exactly the cleaned state, whatever order the rows and the slot set were visited in. |
| ClientCleanup.ReviewsOfUnrelated | main_patched.py:270-278 | A review the cleanup leaves alone is not tied to any of the client's remaining appointments either. |
| ClientCleanup.UntouchedStep | main_patched.py:238-311 | Each command a cleanup issues keeps other clients' appointments, unrelated reviews, unreferenced slots, masters and assignments unchanged. |
| ClientCleanup.UntouchedAll | main_patched.py:238-311 | A sequence of cleanup commands, all accepted, keeps all of those unchanged. |
| ClientCleanup.UntouchedRun | main_patched.py:238-311 | A run of cleanup commands that stops at a rejection keeps all of those unchanged. |
| ClientCleanup.PlanCommands | main_patched.py:238-311 | Every command of a cleanup plan is keyed on the client, one of the client's appointments or one of their slots. |
| ClientCleanup.PlanMembers | main_patched.py:238-311 | A cleanup plan holds only the client-keyed statements, its cancellations and its releases. |
| ClientCleanup.CancelsArePlanCommands | main_patched.py:289-295 | Cancelling the cancellable appointments issues only commands keyed on the client's appointments. |
| ClientCleanup.ReleasesArePlanCommands | main_patched.py:305-311 | Releasing the referenced slots issues only commands keyed on the client's slots. |
| ClientCleanup.CleanupPrefixUntouched | main_patched.py:238-311 | After any prefix of the cleanup, other clients' appointments, unrelated reviews, unreferenced slots, masters and assignments are as before, and a remaining appointment keeps its client and slot. |
| ClientCleanup.CleanupRunUntouched | main_patched.py:238-313 | Whether the cleanup succeeds or stops at a rejection, all of those are as before. |
| MasterAssignments.Reassigned | main_patched.py:1087-1098 | Afterwards, every chosen master is assigned to the service, and a master of the salon is assigned to it if and only if chosen. Assignments to other services, and those of other salons' masters not chosen, are unchanged. |
| MasterAssignments.SavePlan | main_patched.py:1087-1098 | The delete of the salon's assignments for the service, followed by one insert per chosen master in the given order. `SavePlanOutcome` states where it leads. |
| MasterAssignments.InsertsEffect | main_patched.py:1093-1097 | The inserts add exactly the chosen masters' rows. |
| MasterAssignments.SavePlanOutcome | main_patched.py:1087-1098 | When every command is accepted, a save reaches exactly the reassigned state. |
| MasterAssignments.ReassignIdempotent | main_patched.py:1087-1098 | Saving the same choice again changes nothing. |
| BookingCancellation.CancelOutcomeOf | main_patched.py:1783-1830 | A missing id is a bad identifier. For a present id, the outcome is not-found exactly when the status query is rejected or the row is absent. For a found row, the attempt is refused exactly when the gate refuses its status. When the gate passes, it is declined exactly when the user does not confirm; with confirmation the stored function is reached, and it is done exactly when the store accepts the call. The stored function is reached only under all of these conditions. |
| BookingCancellation.CancelReachedOnlyWhenAllowed | main_patched.py:1799-1825 | For a found row, the stored function is reached only when the status normalises to awaiting confirmation or confirmed, and with the user's confirmation it is always reached for such a status. The attempt is refused if and only if the status is neither. |
| BookingCancellation.CancelNotRepeated | main_patched.py:1799-1825 | After a successful cancellation, a second attempt on the same booking is refused. |
| Database.Store.Execute | main_patched.py:211-224 | An accepted command applies its effect, and a rejected one leaves every table as it was. |
| Database.Store.Issue | main_patched.py:211-224 | Issuing the next command of a run either extends the run's state, or ends the run with failure in the current state. |
| Database.Store.ScanClientAppointments | main_patched.py:244-269 | The scan yields exactly the client's appointment ids, exactly the cancellable ones (each once), and exactly the slots they reference. |
| Database.Store.Enumerate | main_patched.py:305 | Lists each element of the set exactly once. |
| Database.Store.DeleteReviews | main_patched.py:271-287 | Deletes the reviews of the client's appointments (only when there are any) and then the client's own reviews, as the next commands of the run, stopping at the first rejection. |
| Database.Store.CancelEach | main_patched.py:289-295 | Issues one cancellation per listed id, in order, stopping at the first rejection. |
| Database.Store.ReleaseEach | main_patched.py:305-311 | Issues one slot release per listed id, in order, stopping at the first rejection. |
| Database.Store.DeleteAppointmentsAndRelease | main_patched.py:297-311 | Deletes the client's appointments (only when there are any) and then frees each listed slot, as the last commands of the run; the result and the state are those of the whole run. |
| Database.Store.CleanupAfterScan | main_patched.py:271-313 | The commands after the scan run as the cleanup plan prescribes, and success reaches the cleaned state. |
| Database.Store.CleanupClientRelatedData | main_patched.py:227-313 | Cancellations run exactly for the cancellable appointments, and releases exactly for the referenced slots, each once. The result and the new state are those of running the cleanup's commands, stopping at the first rejection with nothing undone. Success means the cleaned state. Success or not, other clients' appointments, unrelated reviews, unreferenced slots, masters and assignments are unchanged. |
| Database.Store.SaveMasterAssignments | main_patched.py:1087-1098 | The result and the new state are those of the delete followed by the inserts, stopping at the first rejection. Success means the reassigned state. |
| Database.Store.CancelBooking | main_patched.py:1783-1825 | The outcome is `CancelOutcomeOf`, and only a successful cancellation changes the tables. |
| Availability.Candidates | main_patched.py:654-661 | Every candidate is a bookable slot of the salon, shown with its own data. With every slot visited, every bookable slot is a candidate. |
| Availability.Bookable | main_patched.py:654-663 | A slot is offered when it exists, its master belongs to the salon and is active, it is not booked, no appointment of any status references it, and it starts no earlier than now. |
| Availability.InsertByStart | main_patched.py:662 | Inserting into a start-ordered list keeps it ordered and adds exactly that row. |
| Availability.SortedCons | main_patched.py:662 | A row starting no later than every row of a start-ordered list may go in front of it, and the list stays ordered. |
| Availability.InsertLater | main_patched.py:662 | Putting the first row back in front of the rest with the new row inserted yields an ordered list with exactly the old rows and the new one. |
| Availability.SortByStart | main_patched.py:662 | The result is ordered by start and is a permutation of the input. |
| Availability.AvailableSlots | main_patched.py:650-679 | There are no slots without a salon or when the query is rejected, and never more than `limit`. |
| Availability.AvailableSlotsSpec | main_patched.py:654-665 | Every listed slot is bookable, and the listing is ordered by start. It has min(limit, number of candidates) rows and is a sub-multiset of the candidates. Any candidate left out starts no earlier than every listed slot. |
| Availability.SortedPrefix | main_patched.py:662-663 | A prefix of a start-ordered list is ordered, and whatever it leaves out starts no earlier than what it keeps. |
| Availability.CandidatesDistinct | main_patched.py:654-661 | When each slot is visited once, no candidate repeats. |
| Availability.InsertDistinct | main_patched.py:662 | Inserting a new row into a list without repeats leaves no repeats. |
| Availability.SortDistinct | main_patched.py:662 | Ordering a list without repeats leaves no repeats. |
| Availability.AvailableSlotsComplete | main_patched.py:654-663 | When every slot is visited once, every bookable slot is a candidate, and the listing shows no slot twice. |
| Availability.CancelledSlotNotListed | main_patched.py:654-663 | A cancelled appointment still references its slot, so that slot is not offered again even though its booked flag is cleared. |
| Text.Strip | main_patched.py:383 | The result is no longer than the input and has no whitespace at either end. |
| Text.StripSlice | main_patched.py:383 | The stripped text is a slice of the input with only whitespace cut at either end. |
| Text.StripIdempotent | main_patched.py:383 | Stripping twice is stripping once. |
| Text.StripBlank | main_patched.py:803-804 | The stripped text is empty if and only if the input is whitespace only. |
| Text.Lower | main_patched.py:387 | The result has the same length, and each character is lower-cased. |
| Text.LowerIdempotent | main_patched.py:387 | Lower-casing twice is lower-casing once. |
| Text.LowerOfLowercase | main_patched.py:387 | A text of spaces and lower-case Latin or Cyrillic letters is unchanged by lower-casing. |
| Text.StripLower | main_patched.py:1664 | Stripping and lower-casing commute. |
| Text.WithoutKeeps | main_patched.py:807-808 | Removing separators keeps every other character. |
| Text.RemoveCharWithout | main_patched.py:807-808 | Removing one more separator is the same as removing it together with the earlier ones. |

## Left out

- Qt widgets, dialogs, message boxes and event wiring are left out. The
  user's answer to the cancellation question is an input (`confirmed`),
  and the reloading of tables after a cancellation is not modelled.
- SQL execution, error dialogs and the column lookup with its cache are
  left out. The store is the in-memory `Database.Store`. The two column
  sets of the status builder are parameters. Whether the store carries
  out a command is the `accepts` oracle, which gives one fixed answer per
  command, so repeating an identical command gets the same answer.
- The bodies of the stored functions `cancel_appointment` and
  `book_appointment` are not part of this model. `cancel_appointment` is
  taken to set the cancelled label and free the slot. Booking itself and
  any double-booking guarantee are left out.
- `verify_password` (PBKDF2, base64, HMAC), `format_cell`,
  `build_sort_key` and `parse_decimal` (Qt date types, floats, Decimal)
  are left out.
- Text:
  - `Text.Lower` models `lower()` and `casefold()` for ASCII letters and
    the basic Cyrillic block U+0400–U+042F. Other scripts are left as
    they are, and casefold's special foldings (such as ß) are not
    modelled.
  - `Text.IsDigit` accepts only ASCII digits, while Python's `isdigit`
    also accepts other Unicode digits.
  - `Text.IsSpace` is Python's whitespace set.
- `AppointmentStatus.NormalizeStatus` takes the status as text. The
  source's `str(value)` conversion of non-text values is not modelled.
- Login:
  - `Login.FindUser` models `LIMIT 1` as the first matching row in the
    order the store visits the rows (`users`).
  - The case-insensitive e-mail comparison uses `Text.Lower`.
  - The users/roles join is folded into `UserRow`.
- Appointment rows in the cleanup:
  - The scan takes the ids and slot ids as integers. The source's
    `int()` conversions that silently skip unconvertible values are not
    modelled, since the key columns are integers.
  - Rows arrive in the order the store chooses. `cancelOrder` and
    `releaseOrder` name the orders that were used.
- The free-slot listing:
  - The listing omits the master's name and specialisation columns.
  - Rows with equal start times come in the order the store visits the
    slots (`scanOrder`), because the query leaves that order open.
  - "Now" is the parameter `now`. The limit is a natural number, and the
    only caller passes `DefaultLimit` (20).
- `Availability.AvailableSlots` is the listing itself. The loop that
  copies the query's rows one by one into dictionaries adds nothing to
  it and is not modelled separately.
- `MasterAssignments.ReassignIdempotent` and the `InsertAssignment`
  effect of `Schema.Apply` treat assignments as a set, so inserting a
  row that is already there changes nothing. In the database a repeated
  insert adds a duplicate row, or is rejected when the table has a key
  on the pair. Idempotence therefore holds in the model only. Likewise,
  a chosen master of another salon keeps an earlier row, because the
  delete only covers the salon's masters. The dialog offers only the
  salon's masters, so that case does not arise from the interface.
- Schema DDL, triggers, views, transaction demos and role grants in the
  other scripts hold no logic of this core and are not modelled.
