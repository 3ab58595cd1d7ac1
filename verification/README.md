# Kanban task service and user registry, modelled in Dafny

This project models the core of a Kanban task-management backend. The task service
keeps boards, board memberships, columns, cards, card assignments and labels. The
user service keeps a registry of users. Every service call is a pure function from
a store to a `Result`: either the new store (or the value read) or the HTTP failure
the service raises (404, 403, 400, or 500 for an uncaught error).

- `results.dfy` (`Results`): `Option`, the failure kinds (404, 403, 400, 500), and `Result`.
- `ordering.dfy` (`Ordering`): how a set of rows becomes the list an `ORDER BY ... OFFSET ... LIMIT` query returns, and the `MAX(...)` aggregate.
- `task_model.dfy` (`TaskModel`): the records of the task service and the store that holds them. It also holds the referential-integrity invariant `Valid` and the ORM cascades for deleting a board, a column or a card.
- `board_service.dfy` (`BoardService`): creating a board with its owner membership, listing the caller's open boards, reading a board by visibility, and owner-only close-then-delete.
- `column_service.dfy` (`ColumnService`): columns ranked 0, 1, 2, ... within a board. It covers append, move by block shift, archive and unarchive, and permanent delete with compaction. The dense-rank invariant is proved for each of these.
- `card_service.dfy` (`CardService`): cards with gap-spaced real positions within a column. It covers listing, append, move by bisection, archive and unarchive, and permanent delete with unit compaction.
- `user_service.dfy` (`UserService`): registration with a unique email and a hashed password, partial update, and deletion.

Modelling choices:
- The database is a set of maps keyed by row id. Memberships and assignments are keyed by (board, user) and (card, user) pairs, so at most one row exists per pair by construction, as the composite primary keys guarantee.
- Autoincrement ids come from counters in the store.
- `Valid` states the foreign keys and that every key is below its counter. Operations are total, and lemmas take `Valid` as a hypothesis where they need it.
- Card positions are `real`. Column positions are `int`: the column table declares a float, but every write the column service makes is an integer (0, max + 1, ±1, or a non-negative integer from the request).
- The column service appends a column at the highest position plus 1, or 0 for the first column, and moves columns by shifting the ranks in between. It does not use the 65536 gap and bisection that the card service uses.
- The card listing and the sibling list a move works over are ordered by position, and the listing of a user's boards by creation time, newest first. In all three, ties between equal keys are broken by id (SQL leaves that order unspecified).
- A card update is authorized against the destination column's board only, so a member of the destination board can move in a card from a board they do not belong to (`CardService.MoveAuthorizedByDestinationOnly`).
- A negative `new_index` on a card move follows Python indexing. It counts from the end, and an index so negative that the list lookup fails raises an error that surfaces as 500.
- Column id 0 in a card update is falsy in Python. It does not trigger a move, but it is still the column the authorization check looks up.

## Model

| member | source | states |
|---|---|---|
| Ordering.OrderBy | task_management/task-service/app/services/board_service.py:50 | The listing contains exactly the selected rows, each once, ordered by ascending key with ties broken by id. |
| Ordering.Page | task_management/task-service/app/services/board_service.py:51-52 | OFFSET/LIMIT: the page has min(limit, n - skip) entries (0 past the end), and entry i is entry skip + i of the full listing. |
| Ordering.PageKeepsOrder | task_management/task-service/app/services/board_service.py:50-52 | A page of an ordered listing is itself ordered and holds only entries of the listing. |
| Ordering.PagesConcatenate | task_management/task-service/app/services/board_service.py:51-52 | Two consecutive pages together are the page that spans both. |
| TaskModel.DeleteCardCascade | task_management/task-service/app/models/task.py:119-120 | Deleting a card removes it, its assignment rows and its label links, and nothing else. |
| TaskModel.DeleteColumnCascade | task_management/task-service/app/models/task.py:100 | Deleting a column removes it, its cards (archived ones too) and their assignments. Other columns and cards keep their values. |
| TaskModel.DeleteBoardCascade | task_management/task-service/app/models/task.py:67-70 | Deleting a board removes it, its memberships, columns and labels, the cards of those columns, and the assignment rows and label links hanging off them. Everything else is unchanged. |
| TaskModel.DeleteCardPreservesValid | task_management/task-service/app/models/task.py:113-120 | After a card cascade no assignment or label link refers to a missing card. |
| TaskModel.DeleteColumnPreservesValid | task_management/task-service/app/models/task.py:94-100 | After a column cascade no card refers to a missing column and no assignment to a missing card. |
| TaskModel.DeleteBoardPreservesValid | task_management/task-service/app/models/task.py:49-82 | After a board cascade no membership, column, label, card or link is left dangling. |
| BoardService.Create | task_management/task-service/app/services/board_service.py:14-40 | A new board owned by the caller, open, stamped with the creation time, and written together with the caller's "admin" membership. Every other row is unchanged. |
| BoardService.CreateAddsOnlyOwnerMembership | task_management/task-service/app/services/board_service.py:15-33 | On a consistent store the new board takes a fresh id and has exactly one membership, the creator's. The membership table grows by exactly one row. |
| BoardService.CreatePreservesValid | task_management/task-service/app/services/board_service.py:15-33 | Creating a board keeps the store consistent: the owner membership refers to the new board. |
| BoardService.GetMyBoards | task_management/task-service/app/services/board_service.py:42-54 | Only open boards the caller is a member of, each once, newest first, and at most `limit` of them. From offset 0 with enough room, every such board is listed. |
| BoardService.NewestFirstDescends | task_management/task-service/app/services/board_service.py:50 | A listing ordered newest first holds no board twice and has non-increasing creation times. |
| BoardService.MyBoardsPagesConcatenate | task_management/task-service/app/services/board_service.py:50-52 | Paging through the listing loses and repeats nothing: consecutive pages concatenate to the larger page. |
| BoardService.GetBoardDetail | task_management/task-service/app/services/board_service.py:56-73 | A board is returned if and only if it exists and is public or the caller is a member. An unknown id fails 404, and a known one fails 403. |
| BoardService.DefaultBoardHiddenFromOthers | task_management/task-service/app/services/board_service.py:62-71 | A board created with default visibility is refused (403) to a non-member and readable by its creator. |
| BoardService.DeleteBoard | task_management/task-service/app/services/board_service.py:75-105 | Errors are ordered 404, then 403 for anyone but the owner, then 400 when `permanent` disagrees with the closed flag. Closing sets only the flag. Permanent deletion is the board cascade. |
| BoardService.OnlyOwnerDeletes | task_management/task-service/app/services/board_service.py:80-81 | An "admin" member who is not the owner is refused 403 in both modes. |
| BoardService.CloseHidesBoard | task_management/task-service/app/services/board_service.py:98-105 | After closing, the board is in no member's listing and still readable by its members, and closing again fails 400. |
| BoardService.CloseThenDelete | task_management/task-service/app/services/board_service.py:83-105 | An open board cannot be deleted permanently. Once closed it can, afterwards nothing that belonged to it remains, and the store stays consistent throughout. |
| ColumnService.CheckBoardMember | task_management/task-service/app/services/column_service.py:13-27 | The gate passes exactly when a membership row exists, and otherwise fails 403. |
| ColumnService.AppendRank | task_management/task-service/app/services/column_service.py:33-37 | The new position is 0 on a board without columns. Otherwise it lies above every existing position and exactly one above the highest. |
| ColumnService.CreateColumn | task_management/task-service/app/services/column_service.py:30-52 | A non-member fails 403. Otherwise the only change is a new unarchived column of the board at the append rank. |
| ColumnService.Shifted | task_management/task-service/app/services/column_service.py:69-81 | A position inside the window between the old and new rank moves one step toward the old rank; any other position stays. |
| ColumnService.Reposition | task_management/task-service/app/services/column_service.py:64-83 | The moved column takes the new rank, every column of the same board inside the window shifts by one, and all other columns are unchanged. |
| ColumnService.CompactAbove | task_management/task-service/app/services/column_service.py:112-115 | Every column of the board above the removed position drops by exactly 1, and all others are unchanged. |
| ColumnService.UpdateColumn | task_management/task-service/app/services/column_service.py:54-90 | Errors are ordered 404, then 403. The title changes only when given. With a new, different position: a move up lowers the columns in (old, new] by 1 and a move down raises those in [new, old) by 1. Without one, no position changes. |
| ColumnService.DeleteColumn | task_management/task-service/app/services/column_service.py:92-136 | Errors are ordered 404, then 403, then 400 when `permanent` disagrees with the archived flag. Archiving sets only the flag. Permanent deletion removes the column and its cards and compacts the ranks above it in that board only. |
| ColumnService.UnarchiveColumn | task_management/task-service/app/services/column_service.py:138-158 | Errors are ordered 404, then 403, then 400 when the column is not archived. Otherwise only the flag is cleared. |
| ColumnService.ArchiveThenUnarchive | task_management/task-service/app/services/column_service.py:123-154 | Archiving and then unarchiving restores the store exactly, and archiving twice fails 400. |
| ColumnService.DenseIsPermutation | task_management/task-service/app/services/column_service.py:37 | Dense ranks on n columns are exactly the set 0 .. n-1. |
| ColumnService.PermutationIsDense | task_management/task-service/app/services/column_service.py:37 | Conversely, n columns whose ranks are exactly the set 0 .. n-1 have dense ranks: distinct and in range. |
| ColumnService.AppendKeepsDense | task_management/task-service/app/services/column_service.py:37-44 | Adding a column at rank n keeps the ranks dense. |
| ColumnService.AppendRankOfDense | task_management/task-service/app/services/column_service.py:33-37 | On dense ranks the append position max + 1 equals the number of columns of the board. |
| ColumnService.CreateKeepsDense | task_management/task-service/app/services/column_service.py:30-44 | On dense ranks a created column lands at rank n, and the board's ranks stay dense. |
| ColumnService.RetitleKeepsDense | task_management/task-service/app/services/column_service.py:61-62 | Changing anything but the position keeps the ranks dense. |
| ColumnService.RepositionKeepsDense | task_management/task-service/app/services/column_service.py:64-83 | Moving a column to a rank inside 0 .. n-1 keeps the board's ranks a permutation of 0 .. n-1. |
| ColumnService.UpdatedColumnsKeepDense | task_management/task-service/app/services/column_service.py:61-83 | A rename, with or without a move to a rank inside 0 .. n-1, keeps the board's ranks dense. |
| ColumnService.MoveKeepsDense | task_management/task-service/app/services/column_service.py:54-83 | An update that moves within 0 .. n-1, or does not move, keeps the ranks dense. |
| ColumnService.CompactKeepsDense | task_management/task-service/app/services/column_service.py:105-116 | Removing one column and compacting the ranks above it leaves dense ranks on the remaining n - 1 columns. |
| ColumnService.DeleteKeepsDense | task_management/task-service/app/services/column_service.py:98-118 | Permanent deletion keeps the board's ranks dense. |
| ColumnService.ArchiveKeepsDense | task_management/task-service/app/services/column_service.py:123-154 | Archive and unarchive touch no position, so dense ranks stay dense. |
| CardService.CheckColumnBoardMember | task_management/task-service/app/services/card_service.py:38-54 | The gate passes exactly when the column exists, its board exists and the caller holds a membership of that board. Otherwise it fails 404, one answer for all cases. |
| CardService.GetCardsInColumn | task_management/task-service/app/services/card_service.py:14-36 | A member gets exactly the column's unarchived cards, each once, by ascending position. Anyone else gets an empty list, not an error. |
| CardService.AppendPosition | task_management/task-service/app/services/card_service.py:66-70 | In an empty column the new position is 65536. Otherwise it is exactly 65536 above the highest existing position, archived cards included. |
| CardService.CreateCard | task_management/task-service/app/services/card_service.py:56-86 | The call fails 404 exactly when the column is unknown or the caller cannot reach it. Otherwise the only change is a new unarchived card in that column at the append position. |
| CardService.CreateCardListedLast | task_management/task-service/app/services/card_service.py:66-76 | A new card lies strictly above every other card of its column and comes last in the column's listing. |
| CardService.HighestIsListedLast | task_management/task-service/app/services/card_service.py:14-36 | An unarchived card strictly above every other card of its column comes last in a member's listing of that column. |
| CardService.CreateCardPreservesValid | task_management/task-service/app/services/card_service.py:72-77 | On a consistent store the new card takes a fresh id and the store stays consistent. |
| CardService.AllocateAtIndex | task_management/task-service/app/services/card_service.py:111-125 | A move with no siblings gets 65536. Slot 0 gets half the first sibling, a slot at or past the end gets 65536 past the last, and any other slot gets the midpoint of its two neighbours. It fails (500) exactly when a negative slot makes the list lookup fail. |
| CardService.NegativeIndexCountsFromEnd | task_management/task-service/app/services/card_service.py:122-125 | A negative slot that does not fail behaves as the slot that many places from the end. |
| CardService.AllocationLandsAtRank | task_management/task-service/app/services/card_service.py:111-128 | Over strictly ascending positive sibling positions and a slot i >= 0, the new position is above the first min(i, n) siblings and below the rest. |
| CardService.SiblingsOf | task_management/task-service/app/services/card_service.py:104-109 | The siblings of a move are exactly the target column's other cards, archived included, by ascending position. |
| CardService.UpdateCard | task_management/task-service/app/services/card_service.py:88-136 | The call fails 404 for an unknown card or an unreachable target column, and 500 only when the slot lookup fails. The title and description change only when given. On a move the card takes the target column and the allocated position; otherwise column and position are unchanged. No other card changes. |
| CardService.PositionFieldIgnored | task_management/task-service/app/services/card_service.py:88-128 | The `position` field of an update payload has no effect on the outcome. |
| CardService.MoveAuthorizedByDestinationOnly | task_management/task-service/app/services/card_service.py:93-94 | Reaching the destination column is enough to move a card there. Membership of the card's current board is not checked. |
| CardService.SiblingsAscend | task_management/task-service/app/services/card_service.py:104-109 | When the target column's other cards hold distinct positive positions, the sorted sibling positions ascend strictly from above zero. |
| CardService.MoveLandsAtRank | task_management/task-service/app/services/card_service.py:101-128 | A move of an existing card to a column the caller can reach, whose other cards hold distinct positive positions, succeeds and puts the card in that column. This covers a move to slot i >= 0, and a move to another column without a slot, which goes to slot 0. The card lies above the first min(i, n) siblings and below the rest. |
| CardService.PlacedAtRank | task_management/task-service/app/services/card_service.py:104-128 | When a card takes the position allocated for slot i >= 0 among distinct positive sibling positions, and no sibling moves, it lies above the first min(i, n) siblings and below the rest. |
| CardService.MovePlacement | task_management/task-service/app/services/card_service.py:127-128 | A moved card takes the target column and the allocated position, and no other card changes. |
| CardService.CompactAbove | task_management/task-service/app/services/card_service.py:157-160 | Every card of the column above the deleted position drops by exactly 1, and all others are unchanged. |
| CardService.DeleteCard | task_management/task-service/app/services/card_service.py:138-180 | Errors are ordered 404, then 400 when `permanent` disagrees with the archived flag. Archiving sets only the flag. Permanent deletion removes the card and its assignments and lowers by exactly 1 the cards above it in its column. Cards at or below it, and cards in other columns, are unchanged. |
| CardService.UnarchiveCard | task_management/task-service/app/services/card_service.py:182-202 | Errors are ordered 404, then 400 when the card is not archived. Otherwise only the flag is cleared; column and position are untouched. |
| CardService.ArchiveHidesCard | task_management/task-service/app/services/card_service.py:167-196 | An archived card is in no listing. Unarchiving restores the store exactly, and archiving twice fails 400. |
| CardService.CompactionKeepsOrderWhenGapsWide | task_management/task-service/app/services/card_service.py:152-160 | If the column's positions are distinct and every card above the deleted one lies at least 1 above it, the unit compaction keeps the relative order of the remaining cards. |
| CardService.UpdateCardPreservesValid | task_management/task-service/app/services/card_service.py:93-128 | An update never leaves a card in a missing column. |
| CardService.DeleteCardKeepsValid | task_management/task-service/app/services/card_service.py:145-177 | Archiving and permanent deletion leave no card, assignment or label link dangling. |
| CardService.UnarchiveCardPreservesValid | task_management/task-service/app/services/card_service.py:195-196 | Unarchiving keeps the store consistent. |
| UserService.CreateUser | task_management/user-service/app/services/user_service.py:13-37 | The call fails 400 exactly when the email is already registered, and then nothing is stored. Otherwise the only change is a new active user with role "user", the given email and names, and the hash of the password. |
| UserService.CreateUserPreservesValid | task_management/user-service/app/services/user_service.py:15-33 | Registration takes a fresh id, keeps emails unique, and a second registration with the same email fails 400. |
| UserService.UpdateUser | task_management/user-service/app/services/user_service.py:39-55 | An unknown id fails 404. An email held by another user fails 500 at commit. Otherwise exactly the explicitly set fields change, and no other user or field does. |
| UserService.UpdateUserProperties | task_management/user-service/app/services/user_service.py:44-55 | An update keeps emails unique, an empty payload changes nothing, and applying the same payload twice equals applying it once. |
| UserService.DeleteUser | task_management/user-service/app/services/user_service.py:57-67 | An unknown id fails 404. Otherwise exactly that user is removed and every other user is unchanged. |
| UserService.DeleteUserFreesEmail | task_management/user-service/app/services/user_service.py:57-64 | After deletion the registry stays valid, deleting or updating the same id fails 404, and the email can be registered again under a new id. |

## Left out

- Commit failures: every service rolls back and answers 500 when the database commit fails. The model has no failing database, so a failure result carries no store and the board create's all-or-nothing behaviour is structural, because both rows are written in one step. The one 500 modelled in the user service is the email unique constraint that an update can violate at commit.
- Timestamps other than a board's creation time (`joined_at`, `assigned_at`, `updated_at`, a card or column `created_at`) are not modelled. A board's creation time is a parameter of `BoardService.Create`.
- IEEE floating point: card positions are exact reals, so precision loss after repeated bisection is not modelled.
- CardService.CompactionKeepsOrderWhenGapsWide: the unit compaction after a permanent card delete can reorder cards when the cards above lie less than 1 apart. The order property is stated only under that precondition, not unconditionally.
- CardService.MoveLandsAtRank: the rank property is stated for a slot >= 0 (given, or 0 on a move to another column without a slot) over distinct positive positions only. With a negative slot, ties, or a first sibling at or below zero, halving or bisecting can place the card elsewhere.
- ColumnService.MoveKeepsDense: a column move to a position >= n is accepted by the code (the schema only demands >= 0) and leaves a gap, so the dense-rank claim excludes it.
- Concurrency: no locking exists in the source, and races between reading positions and writing them are not modelled.
- The role defaults "member" for a membership and "assignee" for an assignment are kept as constants only. No operation of this core creates a membership or an assignment without an explicit role.
- Card assignments and labels exist only as rows that the cascades delete; no operation of this core adds them.
- The password hash is a function parameter of `UserService.CreateUser`; the hashing library itself is a foreign call.
- The user update payload schema `UserUpdate` is imported by the user service (task_management/user-service/app/services/user_service.py:6) but not defined in task_management/user-service/app/schemas/user.py, so as written the module fails at import and no user operation can run. The model assumes the evidently intended schema: it patches email, first name and last name, each either unset or explicitly set, and leaves role and active flag untouched.
- HTTP routing, authentication tokens, message publishing, caching, logging and tracing are infrastructure around the core and are not modelled. So are the admin queries and the database seed.
- BoardService.GetMyBoards: `skip` and `limit` are natural numbers in the model. The source takes them as unchecked integers, and a negative value reaches the database's OFFSET/LIMIT, whose answer (an error surfacing as 500, or no limit) depends on the database engine, which is not part of this model.
- Listing results are returned as ids rather than rows with their eagerly loaded labels and assignments.
