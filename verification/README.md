# Farm orders and absences, modelled in Dafny

The system is a small web application for a farming guild. Admins post **farm orders**: lists of blocks with an amount and a unit (`dk` or `kisten`), a start date and a deadline. Members take orders on and record what they have gathered. Admins confirm finished work. Everybody can file **absence requests**, which an admin approves or rejects.

The application exists in two variants, and both are modelled:

- **The local-only variant** (`darknova-app`, and the dashboard of `darknova-farm-new`) keeps the whole state in one React component: users, the signed-in user, orders and absences. Each handler is a pure state transition. Module `LocalApp` models the store. `LocalFarmerView`, `LocalOrderForm`, `LocalAbsenceView`, `LocalDashboard` and `LocalUserAdmin` model its screens.
- **The backend variant** (`app`) keeps the data in database tables and tracks each member's progress per order in its own rows:
  - `Schema` models the tables as one immutable `Db` value. A counter `nextId` stands for the database's id generator.
  - Module `OrderHooks` models the order hook, `FarmerHooks` the farmer hook, and `AbsenceHooks` the absence hook.
  - Each write takes a flag saying whether the database accepted it, so the failure paths are modelled too.
  - `FarmerView`, `OrderManager`, `AbsenceView`, `Dashboard`, `UserProfile` and `UserAdmin` model its screens.
  - `Domain` holds the client-side records and the selectors and labels both variants' screens share.

Generic sequence functions are in `Collections`. String handling (trim, lower case, `parseInt`, decimal printing, code-unit order) is in `Text`. Two facts about integer division are in `Arith`.

Clock readings and new ids are parameters: `now`, `id`, and the `Db.nextId` counter. Date strings are read through a `parse` or `time` function passed in. A calendar day is computed with a fixed offset of local time from UTC.

## Model

| member | source | states |
|---|---|---|
| LocalApp.DefaultUsers | darknova-app/src/App.tsx:14-16 | the seed list holds exactly one user, the administrator `admin` |
| LocalApp.Hydrate | darknova-app/src/App.tsx:25-39 | each saved slice is taken as saved; without saved users the list is the seed list with exactly one admin; missing orders and absences start empty |
| LocalApp.Login | darknova-app/src/App.tsx:53-63 | login succeeds iff some user matches the username ignoring case and the password exactly; the first such user becomes current; on failure nothing changes |
| LocalApp.Logout | darknova-app/src/App.tsx:65-69 | clears the current user and keeps users, orders and absences |
| LocalApp.AddUser | darknova-app/src/App.tsx:71-79 | appends exactly one user with the given id and time, the rest unchanged |
| LocalApp.DeleteUser | darknova-app/src/App.tsx:81-84 | a user remains iff it was there and has another id |
| LocalApp.DeleteUserCount | darknova-app/src/App.tsx:81-84 | the list shrinks by exactly the number of users carrying the id |
| LocalApp.DeleteUndoesAdd | darknova-app/src/App.tsx:71-84 | deleting a user just added under an unused id restores the state |
| LocalApp.FarmerNames | darknova-app/src/App.tsx:94-98 | a name is listed iff some user with role `farmer` has it |
| LocalApp.FarmerNamesOfAppend | darknova-app/src/App.tsx:94-98 | appending a user extends the farmer names by its name exactly when it is a farmer |
| LocalApp.AddOrder | darknova-app/src/App.tsx:86-102 | appends one order with the draft's fields; with auto-assign it is `in_progress` and assigned to every farmer; otherwise it is `open` with the draft's assignees |
| LocalApp.ApplyPatchIdempotent | darknova-app/src/App.tsx:104-106 | applying a partial update twice equals applying it once |
| LocalApp.UpdateOrder | darknova-app/src/App.tsx:104-106 | orders with the id take the patch; every other order and every other slice is unchanged |
| LocalApp.UpdateOrderTwice | darknova-app/src/App.tsx:104-106 | the same update twice is the update once |
| LocalApp.DeleteOrder | darknova-app/src/App.tsx:108-111 | an order remains iff it was there and has another id |
| LocalApp.DeleteUndoesAddOrder | darknova-app/src/App.tsx:86-111 | deleting an order just added under an unused id restores the state |
| LocalApp.WithClaimant | darknova-app/src/App.tsx:133-135 | the name is added once if missing, never duplicated, and the other names keep their order and multiplicity |
| LocalApp.ClaimOrder | darknova-app/src/App.tsx:129-140 | without a user or a matching order nothing changes; otherwise the order moves to `in_progress` with the user among its assignees, whatever its status was, and other orders are untouched |
| LocalApp.ClaimCountsOnce | darknova-app/src/App.tsx:129-140 | the first order with the id gets the user's name appended exactly when it was missing: the name then occurs once, otherwise as often as before, and the old names stay a prefix |
| LocalApp.ClaimIdempotent | darknova-app/src/App.tsx:129-140 | claiming twice equals claiming once |
| LocalApp.CompleteOrder | darknova-app/src/App.tsx:142-145 | orders with the id become `completed` whatever their status; nothing else changes |
| LocalApp.AddAbsence | darknova-app/src/App.tsx:113-122 | appends one `pending` absence with the given id and time |
| LocalApp.UpdateAbsence | darknova-app/src/App.tsx:124-127 | absences with the id take the decision whatever their status; others unchanged |
| LocalApp.LastDecisionWins | darknova-app/src/App.tsx:124-127 | of two decisions on one absence the later is what remains |
| LocalFarmerView.MyOrders | darknova-app/src/sections/FarmerView.tsx:26 | an order is listed iff its assignees include the username |
| LocalFarmerView.AvailableOrders | darknova-app/src/sections/FarmerView.tsx:27 | an order is listed iff it is `open`, whoever it is assigned to |
| LocalFarmerView.CompletedOrders | darknova-app/src/sections/FarmerView.tsx:28-30 | an order is listed iff it is `completed` and assigned to the user |
| LocalFarmerView.CompletedAreMine | darknova-app/src/sections/FarmerView.tsx:26-30 | the completed list is part of the user's own list |
| LocalFarmerView.ClaimMovesToMine | darknova-app/src/sections/FarmerView.tsx:26-27 | after a claim the order is in the claimant's list and not in the available list |
| LocalFarmerView.OverdueIsEarlierDay | darknova-app/src/sections/FarmerView.tsx:71-73 | overdue iff the deadline parses and its local day is before today's |
| LocalFarmerView.IsOverdue | darknova-app/src/sections/FarmerView.tsx:71-73 | a deadline that does not parse is never overdue (every comparison with an invalid date is false) |
| LocalFarmerView.OverdueStays | darknova-app/src/sections/FarmerView.tsx:71-73 | once overdue, a deadline stays overdue as the clock advances |
| LocalFarmerView.OverdueIsPastBeforeToday | darknova-app/src/sections/FarmerView.tsx:71-73 | the marker implies the backend variant's past-deadline test, and differs from it exactly on deadlines earlier today |
| LocalFarmerView.Overdue | darknova-app/src/sections/FarmerView.tsx:76 | the card marker is never set on a completed order and is set on every other overdue order |
| LocalFarmerView.CanComplete | darknova-app/src/sections/FarmerView.tsx:98 | the complete action is offered iff actions are shown and the order is `in_progress` |
| LocalFarmerView.ActiveTasks | darknova-app/src/sections/FarmerView.tsx:184-186 | the active list is a permutation of the user's non-completed orders |
| LocalFarmerView.ActiveTasksByDeadline | darknova-app/src/sections/FarmerView.tsx:184-186 | the active list is ordered by deadline, earliest first |
| LocalFarmerView.AvailableByDeadline | darknova-app/src/sections/FarmerView.tsx:214-215 | the available list is a permutation of the open orders |
| LocalFarmerView.AvailableByDeadlineSorted | darknova-app/src/sections/FarmerView.tsx:214-215 | the available list is ordered by deadline, earliest first |
| LocalFarmerView.CompletedNewestFirst | darknova-app/src/sections/FarmerView.tsx:281-282 | the completed list is a permutation of the user's completed orders |
| LocalFarmerView.CompletedNewestFirstSorted | darknova-app/src/sections/FarmerView.tsx:281-282 | the completed list is ordered by creation time, newest first |
| LocalOrderForm.GuardedRemove | darknova-app/src/sections/FarmOrdersManager.tsx:55-59 | the last item is never removed; with more than one item it removes the indexed one |
| LocalOrderForm.ValidItems | darknova-app/src/sections/FarmOrdersManager.tsx:70 | an item is kept iff it has a block and a positive amount |
| LocalOrderForm.ValidItemsKeepsValid | darknova-app/src/sections/FarmOrdersManager.tsx:70 | the list passes whole iff every item is valid |
| LocalOrderForm.LocalDraft | darknova-app/src/sections/FarmOrdersManager.tsx:76-83 | the order handed on has the valid items and the username as creator, and no note iff the note is empty |
| LocalOrderForm.Submit | darknova-app/src/sections/FarmOrdersManager.tsx:67-92 | without a valid item nothing happens; otherwise one order is added and the form reset |
| LocalOrderForm.SubmitIgnoresDates | darknova-app/src/sections/FarmOrdersManager.tsx:67-74 | the submit handler does not read the dates: given a valid item and empty date fields, it adds an order |
| LocalOrderForm.Display | darknova-app/src/sections/FarmOrdersManager.tsx:329 | orders are shown in reverse insertion order |
| LocalOrderForm.AddedOrderShownFirst | darknova-app/src/sections/FarmOrdersManager.tsx:329 | an order just added heads the list, followed by the earlier display |
| LocalAbsenceView.Submit | darknova-app/src/sections/AbsenceRequests.tsx:34-51 | without both dates nothing happens; otherwise one `pending` absence of the username is added, with no reason iff it is empty, and the form is cleared |
| LocalAbsenceView.SubmittedIsMineAndPending | darknova-app/src/sections/AbsenceRequests.tsx:34-51 | the request just filed shows in the user's list and in the pending list |
| LocalAbsenceView.MyAbsences | darknova-app/src/sections/AbsenceRequests.tsx:84 | an absence is listed iff it carries the username |
| LocalAbsenceView.PendingAbsences | darknova-app/src/sections/AbsenceRequests.tsx:85 | an absence is listed iff it is `pending` |
| LocalAbsenceView.DecidedHasNoActions | darknova-app/src/sections/AbsenceRequests.tsx:103 | a decided absence offers no actions and leaves the pending list |
| LocalAbsenceView.NewestFirst | darknova-app/src/sections/AbsenceRequests.tsx:280 | each tab's list is a permutation of its input |
| LocalAbsenceView.NewestFirstSorted | darknova-app/src/sections/AbsenceRequests.tsx:280 | each tab's list is ordered by request time, newest first |
| LocalDashboard.ComputeStats | darknova-farm-new/src/sections/Dashboard.tsx:27-34 | each figure is the count of its status or role |
| LocalDashboard.StatusFiguresAddUp | darknova-farm-new/src/sections/Dashboard.tsx:27-31 | open, in-progress and completed figures sum to exactly the total |
| LocalDashboard.Claimable | darknova-farm-new/src/sections/Dashboard.tsx:37 | an order is listed iff it is `open` and not assigned to the user |
| LocalDashboard.ClaimableNotMine | darknova-farm-new/src/sections/Dashboard.tsx:36-37 | the available and own lists are disjoint |
| LocalDashboard.ClaimLeavesClaimable | darknova-farm-new/src/sections/Dashboard.tsx:36-37 | after a claim the order moves from available to own |
| LocalDashboard.FirstFive | darknova-farm-new/src/sections/Dashboard.tsx:167 | at most five orders are shown, and they are the first ones |
| LocalDashboard.RecentOrders | darknova-farm-new/src/sections/Dashboard.tsx:257 | the last five orders, most recent first |
| LocalDashboard.AddedOrderIsMostRecent | darknova-farm-new/src/sections/Dashboard.tsx:257 | an order just added heads the recent list |
| LocalUserAdmin.Submit | darknova-app/src/sections/UserManagement.tsx:37-54 | nothing happens if the trimmed name or password is empty; otherwise the trimmed user is added with the current user as creator, and the form resets to role `farmer` |
| LocalUserAdmin.SubmitTrims | darknova-app/src/sections/UserManagement.tsx:40-49 | a blank name adds nobody, and the stored name has no surrounding spaces |
| LocalUserAdmin.UserLeTotalPreorder | darknova-app/src/sections/UserManagement.tsx:87-94 | the comparator is total and transitive |
| LocalUserAdmin.SortedUsers | darknova-app/src/sections/UserManagement.tsx:87-94 | the sorted list is a permutation of the users |
| LocalUserAdmin.SortedUsersOrdered | darknova-app/src/sections/UserManagement.tsx:87-94 | admins come before farmers and farmers before viewers, then by username |
| LocalUserAdmin.DeleteKeepsCurrent | darknova-app/src/sections/UserManagement.tsx:236 | deleting through an offered button never removes the current user |
| Schema.RoleOf | app/src/types/supabase.ts:16 | a role column value is read back iff it is one of the three roles |
| Schema.OrderStatusOf | app/src/types/supabase.ts:40 | an order status is read back iff it is one of the three stored statuses |
| Schema.ProgressStatusOf | app/src/types/supabase.ts:95 | a progress status is read back iff it is one of the four |
| Schema.UnitOf | app/src/types/supabase.ts:73 | a unit is read back iff it is `dk` or `kisten` |
| Schema.AbsenceStatusOf | app/src/types/supabase.ts:146 | an absence status is read back iff it is one of the three |
| Schema.ColumnValuesRoundTrip | app/src/types/supabase.ts:16-155 | every enum value reads back from its column text, and `overdue` is no stored order status |
| Domain.FindProgress | app/src/sections/FarmerView.tsx:28 | a progress entry is found iff the user has one, and it is that user's |
| Domain.LaneOf | app/src/sections/FarmerView.tsx:27-40 | a lane exists iff the user has progress; the active lane holds exactly `accepted` or `in_progress` |
| Domain.CompletedTotalAppend | app/src/sections/FarmerView.tsx:62 | the completed sum grows by the amount of an appended entry |
| Domain.OrderedTotalAppend | app/src/sections/FarmerView.tsx:61 | the ordered sum grows by the amount of an appended item |
| Domain.TotalsIgnoreOrder | app/src/sections/FarmerView.tsx:61-62 | both `reduce` sums depend only on which rows there are, not on their order |
| Domain.CompletedAmount | app/src/sections/FarmerView.tsx:67-70 | 0 without progress or without a matching entry; otherwise exactly the amount of the first entry for the block, whatever later entries hold |
| Domain.CompletedAmountAppend | app/src/sections/FarmerView.tsx:67-70 | an entry appended behind an existing entry for the block is never shown; only a block without entries shows the new amount |
| Domain.CompletedAmountOfRecorded | app/src/sections/FarmerView.tsx:67-70 | when every entry of a block carries one amount, that amount is shown |
| Domain.OrdersOf | app/src/sections/UserProfile.tsx:18-20 | an order is listed iff the user has progress on it |
| Domain.LaneOrders | app/src/sections/Dashboard.tsx:23-37 | an order is listed iff the user's progress on it falls in the lane |
| Domain.LanesPartition | app/src/sections/Dashboard.tsx:23-37 | the lanes are disjoint parts of the user's orders that cover them, and their sizes sum to its size |
| Domain.SubmittedRows | app/src/sections/Dashboard.tsx:39-41 | holds only submitted rows, and every submitted row of every order |
| Domain.SubmittedRowsCount | app/src/sections/Dashboard.tsx:39-41 | its length is the per-order sum of submitted rows |
| Domain.UserName | app/src/sections/FarmOrdersManager.tsx:132-140 | never empty; `Unbekannt` for an unknown id; for the first user with the id, that user's name, or `Unbekannt` when it is empty |
| Domain.ProfileUser | app/src/hooks/useUsers.ts:20-26 | every column of the profile row reaches the user unchanged: the row can be rebuilt from the user |
| Domain.BlockName | app/src/sections/FarmOrdersManager.tsx:100-102 | an unknown block shows its id; any other text is the block's name |
| Domain.BlockNameKnown | darknova-app/src/sections/FarmerView.tsx:66-69 | a catalogued block with a name shows that name |
| Domain.OrderStatusText | darknova-app/src/sections/FarmOrdersManager.tsx:104-112 | the German labels of the three statuses and of `overdue`; unknown text passes through |
| Domain.OrderStatusTextDistinct | darknova-app/src/sections/FarmerView.tsx:42-50 | different statuses get different labels |
| Domain.AbsenceStatusText | darknova-app/src/sections/AbsenceRequests.tsx:62-69 | the German labels of the three statuses; unknown text passes through |
| Domain.AbsenceStatusTextDistinct | darknova-app/src/sections/AbsenceRequests.tsx:62-69 | different statuses get different labels |
| OrderHooks.StoredNotes | app/src/hooks/useOrders.ts:94 | an absent or empty note is stored as null; any other is stored as given |
| OrderHooks.FarmerIdsExact | app/src/hooks/useOrders.ts:116-122 | an id is listed iff a profile with role `farmer` has it |
| OrderHooks.FarmerIds | app/src/hooks/useOrders.ts:116-122 | at most one id per profile; which ids are listed is `FarmerIdsExact` |
| OrderHooks.ItemRows | app/src/hooks/useOrders.ts:104-112 | one row per item, copying block, amount and unit |
| OrderHooks.AcceptedRows | app/src/hooks/useOrders.ts:123-129 | one `accepted` row per user with no timestamps |
| OrderHooks.CreateOrder | app/src/hooks/useOrders.ts:83-135 | nothing without a user or when the order insert fails; otherwise the order row carries the current user as creator, followed by the item rows and the auto-assign rows as far as those inserts succeed |
| OrderHooks.CreateKeepsIds | app/src/hooks/useOrders.ts:83-135 | every row id stays below the next id |
| OrderHooks.Assemble | app/src/hooks/useOrders.ts:29-61 | an assembled order keeps its row's id, creation time and status |
| OrderHooks.AssembleJoins | app/src/hooks/useOrders.ts:29-61 | an order's nested items and progress entries are exactly the rows whose foreign key points at it, each mapped field for field (`ToOrderItem`, `ToProgress`) |
| OrderHooks.ToProgressJoins | app/src/hooks/useOrders.ts:46-58 | a progress entry's completed items are exactly the completed rows pointing at its row; its other fields are the row's |
| OrderHooks.FetchOrders | app/src/hooks/useOrders.ts:11-65 | one entry per order row, and every row's assembly (the row joined with its items and progress) is listed |
| OrderHooks.FetchOrdersOnlyRows | app/src/hooks/useOrders.ts:11-65 | every listed entry is some order row joined with its items and progress |
| OrderHooks.FetchOrdersNewestFirst | app/src/hooks/useOrders.ts:22 | fetched orders are ordered newest first |
| OrderHooks.CreatedItemsReadBack | app/src/hooks/useOrders.ts:104-114 | a created order reads back exactly its items when their insert succeeds, and none otherwise |
| OrderHooks.CreatedProgressReadBack | app/src/hooks/useOrders.ts:116-132 | a created order reads back one fresh `accepted` entry per farmer with auto-assign, and none otherwise |
| OrderHooks.AppendedRowsView | app/src/hooks/useOrders.ts:29-61 | rows appended for a new order read back as fresh `accepted` entries of those users |
| OrderHooks.AcceptedRowsView | app/src/hooks/useOrders.ts:29-61 | fresh rows map to fresh entries of those users in order |
| OrderHooks.ProgressIdsOf | app/src/hooks/useOrders.ts:137-144 | exactly the ids of the order's progress rows |
| OrderHooks.DeleteOrderRemoves | app/src/hooks/useOrders.ts:137-144 | the order and its items, progress and completed entries go; everything else stays |
| OrderHooks.DeleteOrder | app/src/hooks/useOrders.ts:137-144 | a rejected delete changes nothing; profiles, absences and the id counter are never touched; what it removes is `DeleteOrderRemoves` |
| OrderHooks.DeleteKeepsIds | app/src/hooks/useOrders.ts:137-144 | deleting keeps every id below the counter |
| OrderHooks.DeleteUndoesCreate | app/src/hooks/useOrders.ts:83-144 | deleting a just-created order restores the tables |
| OrderHooks.CreatedProgressIds | app/src/hooks/useOrders.ts:116-144 | no older completed entry belongs to a new order's progress |
| OrderHooks.ConfirmOrder | app/src/hooks/useOrders.ts:146-164 | the (order, user) rows become `confirmed` with the time and the admin, whatever their status; nothing else changes |
| OrderHooks.ConfirmKeepsIds | app/src/hooks/useOrders.ts:146-164 | confirming keeps every id below the counter |
| OrderHooks.ConfirmIdempotent | app/src/hooks/useOrders.ts:146-164 | confirming twice equals confirming once |
| FarmerHooks.AcceptOrder | app/src/hooks/useFarmerOrders.ts:9-21 | without a user nothing happens; otherwise one `accepted` row is appended even when one exists, so the row count grows by one |
| FarmerHooks.AcceptKeepsIds | app/src/hooks/useFarmerOrders.ts:9-21 | accepting an existing order (the foreign key rejects any other) keeps every id below the counter |
| FarmerHooks.UpdateProgress | app/src/hooks/useFarmerOrders.ts:23-56 | nothing happens unless exactly one progress row matches; only completed entries change, never the progress status |
| FarmerHooks.UpdateProgressRecords | app/src/hooks/useFarmerOrders.ts:36-55 | afterwards exactly one entry for the block exists and it holds the amount |
| FarmerHooks.UpdateProgressKeepsOthers | app/src/hooks/useFarmerOrders.ts:36-55 | entries of other blocks or rows remain |
| FarmerHooks.UpdateProgressKeepsInvariant | app/src/hooks/useFarmerOrders.ts:23-56 | ids below the counter and at most one entry per block are preserved |
| FarmerHooks.UpdateProgressIdempotent | app/src/hooks/useFarmerOrders.ts:23-56 | repeating the call with the same amount changes nothing |
| FarmerHooks.SameIdSameAmount | app/src/hooks/useFarmerOrders.ts:44-48 | the update by id writes the amount on every entry sharing the id |
| FarmerHooks.Upsert | app/src/hooks/useFarmerOrders.ts:36-55 | with exactly one entry for the block the table keeps its length; otherwise exactly one new entry is appended |
| FarmerHooks.UpsertRecords | app/src/hooks/useFarmerOrders.ts:36-55 | on one table: with at most one entry per block beforehand, the block has exactly one entry afterwards and it holds the amount |
| FarmerHooks.UpsertIdempotent | app/src/hooks/useFarmerOrders.ts:36-55 | on one table: writing the same amount again finds the entry the first write left and changes nothing |
| FarmerHooks.DoubleAcceptBlocksUpdates | app/src/hooks/useFarmerOrders.ts:9-34 | after accepting twice, every progress update does nothing |
| FarmerHooks.DuplicateBlocksGrow | app/src/hooks/useFarmerOrders.ts:37-55 | with two entries for a block already, an update inserts a third |
| FarmerHooks.SubmitOrder | app/src/hooks/useFarmerOrders.ts:58-73 | the (order, user) rows become `submitted` with the time, with no check of completion or prior status |
| FarmerHooks.SubmitKeepsIds | app/src/hooks/useFarmerOrders.ts:58-73 | submitting keeps every id below the counter |
| FarmerHooks.SubmitAfterConfirmReverts | app/src/hooks/useFarmerOrders.ts:58-73 | submitting a confirmed row sets it back to `submitted` and keeps its confirmer |
| FarmerHooks.Lifecycle | app/src/hooks/useFarmerOrders.ts:9-73 | accept, record, submit and confirm leave one `confirmed` row with both timestamps and one completed entry |
| FarmerHooks.AcceptFresh | app/src/hooks/useFarmerOrders.ts:9-21 | a first accept yields the single row for (order, user) |
| FarmerHooks.RecordFresh | app/src/hooks/useFarmerOrders.ts:44-55 | a first update for a row inserts one entry |
| FarmerHooks.StampsFresh | app/src/hooks/useFarmerOrders.ts:58-73 | submit then confirm stamp the fresh row |
| AbsenceHooks.CreateAbsence | app/src/hooks/useAbsences.ts:50-65 | nothing without a user or on failure; otherwise one `pending` row owned by the user, with no date check |
| AbsenceHooks.SetAbsenceStatus | app/src/hooks/useAbsences.ts:67-91 | the request with the id takes the status whatever it had; others unchanged |
| AbsenceHooks.AbsenceWritesKeepIds | app/src/hooks/useAbsences.ts:50-91 | filing, approving and rejecting keep every id below the counter |
| AbsenceHooks.ApproveAbsence | app/src/hooks/useAbsences.ts:67-78 | the request with the id becomes `approved`; others unchanged |
| AbsenceHooks.RejectAbsence | app/src/hooks/useAbsences.ts:80-91 | the request with the id becomes `rejected`, also after approval; others unchanged |
| AbsenceHooks.LaterDecisionWins | app/src/hooks/useAbsences.ts:67-91 | of two decisions the later remains |
| AbsenceHooks.RequesterName | app/src/hooks/useAbsences.ts:25 | never empty; `Unbekannt` without a profile; for the profile with the id, its username, or `Unbekannt` when it is empty |
| AbsenceHooks.RequesterNameAgrees | app/src/hooks/useAbsences.ts:25 | the joined name equals the name the order screens look up in the user list mapped from the same profiles (useUsers.ts lines 20-26) |
| AbsenceHooks.ToRequest | app/src/hooks/useAbsences.ts:22-31 | the row's columns reach the request unchanged and the joined name is never empty |
| AbsenceHooks.FetchAbsences | app/src/hooks/useAbsences.ts:11-35 | exactly one view per absence row, each with a non-empty name |
| AbsenceHooks.FetchAbsencesNewestFirst | app/src/hooks/useAbsences.ts:15 | fetched requests are ordered newest first |
| AbsenceHooks.CreatedAbsenceReadBack | app/src/hooks/useAbsences.ts:11-65 | a request just filed reads back as the user's `pending` request with its dates |
| FarmerView.Available | app/src/sections/FarmerView.tsx:22-25 | an order is listed iff it is `open` and the user has no progress on it |
| FarmerView.Mine | app/src/sections/FarmerView.tsx:27-30 | an order is listed iff the user's progress is `accepted` or `in_progress` |
| FarmerView.SubmittedList | app/src/sections/FarmerView.tsx:32-35 | an order is listed iff the user's progress is `submitted` |
| FarmerView.ConfirmedList | app/src/sections/FarmerView.tsx:37-40 | an order is listed iff the user's progress is `confirmed` |
| FarmerView.TabsPartition | app/src/sections/FarmerView.tsx:22-40 | the four tabs are pairwise disjoint, and the user has progress iff the order is in one of the last three |
| FarmerView.TabsAreLanes | app/src/sections/FarmerView.tsx:27-40 | the three progress tabs are the dashboard's lanes |
| FarmerView.TabsBounded | app/src/sections/FarmerView.tsx:22-40 | the tabs together hold no more orders than there are |
| FarmerView.PastDeadline | app/src/sections/FarmerView.tsx:76-78 | a deadline that does not parse is never past (comparing an invalid date is false) |
| FarmerView.PastDeadlineStays | app/src/sections/FarmerView.tsx:76-78 | once past, a deadline stays past as the clock advances |
| FarmerView.RoundPercent | app/src/sections/FarmerView.tsx:64 | half-up rounding of 100·completed/total; infinite or NaN for a zero total |
| FarmerView.CalculateProgress | app/src/sections/FarmerView.tsx:57-65 | 0 without progress; otherwise the rounded share of the completed sum in the ordered sum |
| FarmerView.SubmitThreshold | app/src/sections/FarmerView.tsx:215 | submit is enabled iff at least 99.5% of the ordered total is done |
| FarmerView.SubmitEnabled | app/src/sections/FarmerView.tsx:215 | enabled exactly when JavaScript's `progress < 100` is false, so `NaN` and `Infinity` enable it and `-Infinity` does not |
| FarmerView.PercentIgnoresRowOrder | app/src/sections/FarmerView.tsx:57-65 | the percentage is the same whatever order the nested selects return the item and completed rows in |
| FarmerView.ZeroTotalSubmittable | app/src/sections/FarmerView.tsx:57-65 | an order with a zero total and a non-negative completed sum can be submitted at once |
| FarmerView.ProgressCanExceedHundred | app/src/sections/FarmerView.tsx:61-64 | entries of other blocks count, so the percentage can be 200 |
| FarmerView.RecordedAmountShown | app/src/sections/FarmerView.tsx:67-70 | an amount recorded through the hook is what the card shows for the block after a fetch |
| FarmerView.OwnProgressFound | app/src/hooks/useOrders.ts:29-61 | the fetched order carries the user's single progress row |
| FarmerView.ShownBlockAmount | app/src/hooks/useOrders.ts:29-61 | a block's single completed entry is the amount read back |
| FarmerView.ProgressInput | app/src/sections/FarmerView.tsx:188 | unreadable input sends 0; otherwise the parsed number |
| FarmerView.ProgressInputRoundTrip | app/src/sections/FarmerView.tsx:188 | any shown amount is read back as itself |
| OrderManager.AddItem | app/src/sections/FarmOrdersManager.tsx:34-36 | appends one blank item and keeps the others |
| OrderManager.RemoveItem | app/src/sections/FarmOrdersManager.tsx:38-40 | drops exactly the indexed item, none if out of range; no emptiness guard |
| OrderManager.RemoveUndoesAdd | app/src/sections/FarmOrdersManager.tsx:34-40 | removing the item just added restores the form |
| OrderManager.RemoveKeepsAnItem | app/src/sections/FarmOrdersManager.tsx:38-40 | when the button is offered at least one item remains; the handler alone can empty a one-item list |
| OrderManager.ChangeItem | app/src/sections/FarmOrdersManager.tsx:42-46 | exactly one field of one item changes |
| OrderManager.LaterEditWins | app/src/sections/FarmOrdersManager.tsx:42-46 | of two edits of one field the later remains |
| OrderManager.AmountInput | app/src/sections/FarmOrdersManager.tsx:192 | never 0; the parsed amount if non-zero, else 1 |
| OrderManager.AmountInputRoundTrip | app/src/sections/FarmOrdersManager.tsx:192 | a shown non-zero amount reads back as itself, and 0 reads as 1 |
| OrderManager.ChangeCategory | app/src/sections/FarmOrdersManager.tsx:48-51 | records the category and clears that item's block only |
| OrderManager.CategoryChangeBlocksSubmit | app/src/sections/FarmOrdersManager.tsx:48-54 | after a category change the form cannot be submitted |
| OrderManager.Draft | app/src/sections/FarmOrdersManager.tsx:56-64 | the full item list with status `open` |
| OrderManager.Submit | app/src/sections/FarmOrdersManager.tsx:53-72 | nothing unless every item has a block and both dates are set; otherwise the order is created and the form reset whatever the outcome |
| OrderManager.SubmitLeavesBlankForm | app/src/sections/FarmOrdersManager.tsx:66-71 | the reset form cannot be submitted again |
| OrderManager.Waiting | app/src/sections/FarmOrdersManager.tsx:133-139 | one entry per submitted row of the order, with the member's name |
| OrderManager.PendingConfirmations | app/src/sections/FarmOrdersManager.tsx:132-140 | every entry is a submitted row with its name, and every submitted row has an entry |
| OrderManager.PendingAreSubmittedRows | app/src/sections/FarmOrdersManager.tsx:132-140 | its rows are exactly the submitted rows in order, as many as the dashboard counts |
| AbsenceView.Submit | app/src/sections/AbsenceRequests.tsx:23-30 | nothing unless both dates and a reason are given; otherwise one `pending` request and the form closes |
| AbsenceView.BackwardsRangeAccepted | app/src/sections/AbsenceRequests.tsx:23-25 | an end before the start is accepted |
| AbsenceView.MyRequests | app/src/sections/AbsenceRequests.tsx:49 | a request is listed iff it is the user's; the profile dialog's absence list (app/src/sections/UserProfile.tsx, line 37) is the same filter |
| AbsenceView.PendingRequests | app/src/sections/AbsenceRequests.tsx:50 | a request is listed iff it is `pending` |
| AbsenceView.DecisionOfferedIff | app/src/sections/AbsenceRequests.tsx:126-165 | decisions are offered iff the user is an admin and the request is pending |
| AbsenceView.DecidedLeavesPending | app/src/sections/AbsenceRequests.tsx:126-165 | after a decision the request leaves the pending list |
| Dashboard.AdminFigures | app/src/sections/Dashboard.tsx:17-41 | each figure is the count of its status or role; open ≤ total; waiting confirmations = submitted rows |
| Dashboard.MemberCounts | app/src/sections/Dashboard.tsx:23-37 | the three lane counts sum to the user's orders |
| Dashboard.Recent | app/src/sections/Dashboard.tsx:166 | the first min(5, n) orders |
| UserProfile.ProfileOrders | app/src/sections/UserProfile.tsx:18-35 | the user's orders, split into three disjoint lanes that cover them |
| UserProfile.ShownAmount | app/src/sections/UserProfile.tsx:138 | 0 without progress; otherwise exactly the amount of the first entry for the block in the member's progress row |
| UserProfile.AbsenceLabel | app/src/sections/UserProfile.tsx:236-237 | Genehmigt, Abgelehnt, and Ausstehend for anything else |
| UserProfile.AbsenceLabelsAgree | app/src/sections/UserProfile.tsx:236-237 | agrees with the local label on the three statuses and differs on unknown text |
| UserAdmin.CreateUser | app/src/sections/UserManagement.tsx:30-36 | a request iff name and password are non-empty, untrimmed, and the form resets to `farmer` |
| UserAdmin.BlankNameAccepted | app/src/sections/UserManagement.tsx:31 | a name of spaces is accepted |
| UserAdmin.ListedUsers | app/src/sections/UserManagement.tsx:56 | every user except the current one |
| UserAdmin.ConfirmDelete | app/src/sections/UserManagement.tsx:43-49 | deletes the staged user only and clears the stage |
| UserAdmin.NoSelfDelete | app/src/sections/UserManagement.tsx:43-56 | the current user cannot be deleted from the list |

## Left out

- The database client, its realtime channels and the user hook `app/src/hooks/useUsers.ts` are not modelled, apart from that hook's mapping of profile rows to users (`Domain.ProfileUser`). Tables are in-memory sequences, and whether a write is accepted is a parameter. The admin user screen's create and delete are modelled up to the request they hand to that hook.
- The authentication context, including the login identifier `username@darknova.app`, is not part of this model.
- localStorage and its JSON round trip are not modelled, because they are I/O. Hydration starts from the already parsed slices.
- Clocks and id generation are parameters: `now`, `id`, and the `nextId` counter.
- Locale date formatting is not modelled, because it is display only.
- Date strings are read through a `parse` or `time` function given as a parameter.
- Invalid dates in sorts are not modelled: `time` is total.
- The local day uses a fixed offset from UTC. Daylight-saving changes are not modelled.
- FarmerView.RoundPercent: exact integer half-up rounding of 100·completed/total. The floating-point evaluation of `Math.round` near .5 is not modelled.
- LocalUserAdmin.SortedUsers: `localeCompare` is modelled as code-unit order of the names. Locale collation is not modelled.
- Text.ToLower lowers ASCII and Latin-1 letters only. Other case mappings of `toLowerCase` are not modelled.
- Text.ParseInt reads optional spaces, a sign and decimal digits. The hexadecimal prefix of `parseInt` is not modelled, because the inputs are number fields.
- Column defaults are not modelled: a unit or amount omitted on insert and an absence status omitted on insert. The hooks always pass these values, except the absence status. The absence status is modelled as its default, `pending`.
- Deleting an order is modelled as removing its items, progress and completed rows. That cascade comes from the database's foreign keys, not from the hook.
- The order of rows with equal timestamps is not modelled. The database decides it, so the model states only the sort order.
- Selects without `.order(...)` are modelled as returning rows in the order they were inserted, with updates made in place. These are the nested `order_items`, `user_order_progress` and `completed_items` of `fetchOrders` (app/src/hooks/useOrders.ts, lines 14-21) and the farmer-profile query of `createOrder` (lines 116-122). The database promises no such order. Which nested rows an order carries is stated independently of order (OrderHooks.AssembleJoins, OrderHooks.ToProgressJoins), and the percentage does not depend on it (FarmerView.PercentIgnoresRowOrder). Statements about the sequence rest on this choice: the nested lists of OrderHooks.FetchOrders, the "first" progress row of Domain.FindProgress, the "first" entry of Domain.CompletedAmount and UserProfile.ShownAmount, and the three read-backs below.
- OrderHooks.CreatedItemsReadBack: states the items read back in the draft's order. Because `order_items (*)` is unordered, the source promises only the same items in some order.
- OrderHooks.CreatedProgressReadBack: states the new entries in the order of the farmer list. The farmer query and the nested progress select are both unordered, so the source promises only one fresh entry per farmer in some order.
- OrderHooks.AppendedRowsView: reads rows appended for a new order back behind the existing ones, in insertion order. The source promises only the same rows in some order.
- Reads are modelled as always succeeding. When `fetchOrders` or `fetchAbsences` fails, the source logs the error and keeps the list it had (useOrders.ts lines 24-27, useAbsences.ts lines 17-20). When the `.single()` lookup of an existing completed row in `updateProgress` fails for a reason other than the row count (useFarmerOrders.ts lines 37-42), the source inserts a second row for the block. The model reaches that state only through an earlier duplicate (FarmerHooks.DuplicateBlocksGrow).
- FarmerView.ProgressInputRoundTrip: holds for every integer in the model. In JavaScript, `parseInt` yields a double that is exact only up to 2^53 in magnitude, and `String(n)` switches to exponent notation from 10^21 on. The amount columns are also bounded database integers. The round trip therefore holds in the source only for amounts within those bounds.
- OrderManager.AmountInputRoundTrip: holds for every integer in the model. As for the progress input, the source's double arithmetic and bounded columns limit it to amounts below 2^53 in magnitude.
- OrderHooks.FarmerIds: its own contract bounds the length only. Which ids are listed is the lemma OrderHooks.FarmerIdsExact, kept separate so that the proofs about `createOrder` stay small.
- OrderHooks.DeleteOrder: its own contract states the frame only. What it removes is the lemma OrderHooks.DeleteOrderRemoves, kept separate for the same reason.
- The block catalog is a parameter (`Block` list). It is not part of this model.
- Rendering, badges, icons and colours are not modelled. The same holds for the delete and confirm dialogs of the admin order screen, and the progress badge fallback `progress?.status \|\| 'accepted'`.
- OrderManager.ChangeItem and OrderManager.ChangeCategory require an index inside the item list. The handlers are only wired to existing rows; an out-of-range index would add a sparse entry in JavaScript.
- LocalAbsenceView.NewestFirst: the "all" tab sorts the absence array in place. The model returns a sorted copy and leaves the stored list unchanged.
- LocalApp.ClaimOrder: the source pushes the name onto the existing `assignedTo` array, which it shares with the previous state. The model builds a new list; the difference is not observable in the rendered state.
- HTML constraint validation is not modelled. The browser refuses to submit a form while a `required` field is empty. This covers the date inputs of darknova-app's order form (FarmOrdersManager.tsx lines 254 and 269) and absence form (AbsenceRequests.tsx lines 180 and 195), and the name and password inputs of its user form (UserManagement.tsx lines 121 and 137). The model states what the submit handlers do when they are called, so LocalOrderForm.SubmitIgnoresDates describes the handler, not what a user can reach through the page.
- The dashboard of `darknova-farm-new` is modelled over the local variant's records, because that directory's type definitions are not part of this model.

## Notes on the code

These are places where the code's behaviour is narrower or broader than a reader might expect. The model follows the code in each.

- `acceptOrder` inserts without checking for an existing row. After a second accept, the (order, user) lookup with `.single()` finds two rows, so every later progress update does nothing (FarmerHooks.DoubleAcceptBlocksUpdates).
- `updateProgress` never changes the progress status. A member's order stays `accepted` while amounts are recorded.
- `approveAbsence` and `rejectAbsence` do not check for a signed-in user or the prior status.
- `confirmOrder` does not check for a prior `submitted` status. `submitOrder` does not check for a prior `confirmed` status either, so a confirmed row can go back to `submitted`.
- The local dashboard's status figures sum to exactly the total, not merely at most the total, because `overdue` is never stored as a status.
