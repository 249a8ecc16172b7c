# Openlaunch verification model

A Dafny model of the stateful core of Openlaunch, with proofs of what that core promises. Its centre is the chat
history store: a chat is a tree of messages kept as a mutable dictionary that holds every link twice (`parentId` on
the child, `childrenIds` on the parent) next to a cursor `currentId`, and mirrored into the rows of a second table.
The other modules model the per-key config store, the automation queue, the folder forest, the in-process task
registry, access grants with group membership, glob search over files, and the model-unload loop.

What the source changes in place is a class whose methods are proved against a function of the old state
(`ChatHistory`, `ChatMessageTable`, `ChatStore`, `FolderTable`, `TaskRegistry`, `AutomationTable`, `GrantTable`,
`Config`, `ConfigTable`). The lemmas then say what those functions keep, over one call or over a whole run.

## Layout

| files | contents |
|---|---|
| `Basics`, `Forest` | sequences, ordered dictionaries; parent maps, ancestry, acyclicity, heights |
| `History`, `MergeHistory` | the message tree: deletion, cursor walk, upsert, cursor repair; merging two histories |
| `ChatMessages`, `Chats`, `Healing` | the row table, the two stores together, reads that heal gaps in the rows |
| `ChatTurn`, `FreshTurns`, `Regeneration`, `Continuation`, `NewChat` | writing a turn, when it keeps the tree, asking again, continuing an answer, a new chat |
| `ChatUpdate`, `ChatRuns` | saving a client history, whole runs |
| `ConfigPaths`, `ConfigStore`, `ConfigStartup`, `ConfigRepair`, `ConfigKeys` | config dictionaries and dotted keys, lookups and upserts, startup normalization |
| `Automations`, `Folders`, `Tasks` | claiming with several workers, folder walks and deletion, the task registry |
| `AccessGrants`, `LegacyAccess` | access queries and membership; the legacy format |
| `Files`, `ModelUnload` | glob patterns compiled to LIKE; the base-model chain |

`dafny verify dfyconfig.toml` checks everything.

## Reading the model

- A dictionary whose iteration order matters is a `Dict`: a key sequence and a map.
- `Linked` says `childrenIds` is the exact, duplicate-free inverse of `parentId`; `Tree` adds acyclicity; `Closed` that
  every named parent is present; `Mirrors` that the rows are those of the messages, each with the parent, role and fields of its message; `Sound`
  all of these with a role on every message.
- A committed method is one step. The order in which the database returns rows, the clock, uuids, the rescheduled
  times (`next_run_ns`) and the users that exist are parameters; where a result depends on one, it is stated for
  every value, or the assumption is a precondition (rescheduled times lie after the claim).

## What the code does differently from what one might expect

- A chat turn without assistants leaves `currentId` on the parent of the user message, not on that message
  (`ChatTurn.TurnKeepsTree`). A new chat starts with its cursor on the first assistant, a later turn ends on the last.
- Asking again with a stale child list breaks the tree: the list the client sends replaces the stored one
  (`Regeneration.StaleListBreaks`, and exactly when in `Regeneration.RepeatKeepsTreeIff`). The parent links survive, and
  the map rebuilt from rows is still a tree (`ChatRuns.StaleTurnRows`). Naming another parent for a stored message that has one always breaks it
  (`Regeneration.TakenChildBreaks`, exactly when in `Regeneration.MoveKeepsTreeIff`).
- Continuing an answer that already has a reply cuts the reply off (`Continuation.AnsweredAnswerBreaks`, exactly when in
  `Continuation.ContinueKeepsTreeIff`).
- Loading a chat repairs a bad cursor and saves it, so even a deletion of an unknown message or a read that has to look
  at the blob can move the cursor (`Chats.LoadMoves`, exactly when in `Chats.LoadStaysIff`).
- Merging can close a cycle (`MergeHistory.MergeCanCloseACycle`); `MergeHistory.MergeTreeIff` is the exact condition.
  Neither the cursor nor, with entries that are not messages, the set of messages is associative
  (`MergeHistory.GroupingLosesTheCursor`, `MergeHistory.GroupingLosesAMessage`, each with its exact condition beside it).
- Composite row ids of chats with ids of different length can collide (`ChatMessages.KeysCanCollide`),
  exactly if one id begins with the other and a dash (`ChatMessages.KeysMeetIff`).
- `get_many` answers a key that has a default, no row and no alias from the row of the empty key, if that key is
  requested along with it (`ConfigStore.EmptyKeyAnswers`, exactly when in `ConfigStore.GetManyAgreesIff`).
- A connection key led by digits, such as a host address, is cut at its first dot when its rows are reassembled
  (`ConfigPaths.AddressKeyCut`, in general in `ConfigPaths.DigitLedKeyCut`). A listed field after another one is taken for
  the only field, the first becoming part of the key (`ConfigPaths.ExtraParamMisread`); `ConfigPaths.NamedKeyRecoveredIff`
  is the exact condition.
- A read heals only parents whose blob message has a role; one without a role stays unresolved however often the
  chat is read (`Healing.RolelessParent`, in general in `Healing.ReadsHeal`).
- With a public write grant, a document the read-only filter shows can be written
  (`AccessGrants.ReadOnlyYetWritable`, exactly when in `AccessGrants.ReadOnlyMeans`).
- Users with a pending role appear in the reverse user list through direct and group grants, but not through public ones
  (`AccessGrants.PendingListed`, exactly when in `AccessGrants.ReverseAgrees`).
- The legacy form drops every other grant when a public read grant is present (`LegacyAccess.WriterLost`,
  exactly when in `LegacyAccess.GrantsRoundTrip`), and a public file comes back private (`LegacyAccess.PublicFileLost`).
- Tasks created without an item stay listed under it forever (`Tasks.FalsyStaysListed`).

## Model

| member | source | states |
|---|---|---|
| `History.ChatHistory.DeleteMessage` | backend/openlaunch/models/chats.py:577-614 | Deleting a message of a tree keeps it a tree, returns the message and its present children as deleted, leaves exactly the path contraction of the old history and puts the cursor where following last children ends; an unknown id changes nothing |
| `History.DeleteKeepsTree` | backend/openlaunch/models/chats.py:583-602 | Deletion removes exactly the message and its children, keeps `parentId` and `childrenIds` exact duplicate-free inverses and acyclic, makes no orphan, and changes nothing in a survivor but its links |
| `History.DeleteKeepsAncestry` | backend/openlaunch/models/chats.py:583-602 | For any two survivors, one is an ancestor of the other afterwards exactly when it was before |
| `Forest.ContractionKeepsAncestry` | backend/openlaunch/models/chats.py:592-602 | The graph fact behind it: redirecting every link into the removed set to the removed message's parent keeps ancestry among survivors, in both directions |
| `History.GrandkidsSurvive` | backend/openlaunch/models/chats.py:585-590 | The adopted grandchildren are survivors, each listed once, and are exactly the messages whose parent is removed |
| `History.AdoptionOrder` | backend/openlaunch/models/chats.py:592-595 | After a deletion the parent lists the message's siblings in their old order and after them the grandchildren, those of an earlier child first, those of one child in its order |
| `History.DeleteKeepsOrder` | backend/openlaunch/models/chats.py:600-602 | The survivors keep their key order |
| `History.ChatHistory.Relink` | backend/openlaunch/models/chats.py:592-598 | The first half of a deletion, in place: the parent drops the message and adopts the grandchildren, each of which is re-parented; all other messages stay |
| `History.ChatHistory.PopAll` | backend/openlaunch/models/chats.py:600-602 | Popping the doomed ids one by one, in any order, removes exactly that set and keeps the key order |
| `History.ChatHistory.WalkToLeaf` | backend/openlaunch/models/chats.py:604-613 | The walk terminates on every tree (tree height is the measure) and sets the cursor to its end |
| `History.CursorIsLeaf` | backend/openlaunch/models/chats.py:604-613 | After the walk the cursor is a childless message of the history, at or below the parent if there is one; it is None exactly where the walk has no message to start from |
| `History.CursorFollowsLastChildren` | backend/openlaunch/models/chats.py:604-613 | The walk leaves every message through its last child: of each message from the start of the walk down to the cursor, the last entry of its child list is the cursor or above it |
| `History.CursorBelowLastRoot` | backend/openlaunch/models/chats.py:605-609 | With a null parent the cursor is at or below the root that comes after all other roots in key order |
| `History.CursorNoneWhenEmpty` | backend/openlaunch/models/chats.py:604-613 | In a history without orphans, the cursor is None after a deletion exactly when no message is left |
| `History.CycleNeverSettles` | backend/openlaunch/models/chats.py:610-612 | Acyclicity is needed: from a message that last children lead back to, no number of steps ends the walk |
| `History.ChatHistory.Upsert` | backend/openlaunch/models/chats.py:717-761 | An upsert overlays a stored message key by key or creates it, and moves the cursor to it; no other message changes |
| `History.EditTakesEffect` | backend/openlaunch/models/chats.py:720-724 | For a stored id every key of the patch reads back the patch's value, every other key its stored one, and each of parent, children, role, id, timestamp and output role likewise |
| `History.NewTakesContents` | backend/openlaunch/models/chats.py:750-757 | A new message has the patch's own fields, children and output role, its id and timestamp where truthy, else the key and the current time |
| `History.NewTakesRole` | backend/openlaunch/models/chats.py:735-748 | Its role is the patch's, else the one in its output, else `user` below an assistant and `assistant` anywhere else |
| `History.NewTakesParent` | backend/openlaunch/models/chats.py:726-732 | It hangs below the parent it names, else below the first message, in key order, that lists it, else nowhere |
| `History.UpsertTouchesOne` | backend/openlaunch/models/chats.py:717-759 | No other message changes, and a new one comes last in key order |
| `History.ChatHistory.FindListing` | backend/openlaunch/models/chats.py:728-732 | A message without a parent of its own is looked up in the child lists: the result is the first message, in key order, that lists it |
| `History.FirstListingExact` | backend/openlaunch/models/chats.py:728-732 | That search finds a message listing the id if there is one, and None only if none lists it |
| `History.NewWithoutParentIsRoot` | backend/openlaunch/models/chats.py:726-732 | In a history with exact links, a new message that names no parent becomes a root |
| `History.ChatHistory.RepairCursor` | backend/openlaunch/models/chats.py:299-349 | A good cursor stays; any other moves to the latest leaf if that is a different message, and the result says whether it moved |
| `History.ChatHistory.FindLatestLeaf` | backend/openlaunch/models/chats.py:333-343 | The candidate is a childless message with a role whose timestamp is the latest, the first in key order among equals; None only if there is no candidate |
| `History.RepairIdempotent` | backend/openlaunch/models/chats.py:299-349 | A second repair never changes anything, and a cursor that was moved is on a childless message |
| `History.CursorKept` | backend/openlaunch/models/chats.py:308-331 | A repair keeps a cursor on a message with id and role, unless it is an assistant's output on a root without timestamp among several messages |
| `History.CursorMoved` | backend/openlaunch/models/chats.py:318-349 | Every other cursor, that one included, moves to the childless message with a role and the latest timestamp, the first of equals |
| `History.CursorStuck` | backend/openlaunch/models/chats.py:333-346 | Without such a message a repair moves nothing |
| `History.RepairsIs` | backend/openlaunch/models/chats.py:299-349 | The cursor after a repair is a function of the history and the old cursor: a repair has one outcome |
| `History.LatestLeafInExact` | backend/openlaunch/models/chats.py:333-343 | The search function gives the childless message with a role and the latest timestamp, the first of equals |
| `MergeHistory.MergeHistories` | backend/openlaunch/models/chats.py:555-574 | The two loops of a merge compute the merged history: incoming messages win, entries that are not messages go, child lists are rebuilt |
| `MergeHistory.Relink` | backend/openlaunch/models/chats.py:561-566 | Appending each message to its parent in key order gives every message exactly the keys naming it, in that order |
| `MergeHistory.MergeLinks` | backend/openlaunch/models/chats.py:555-574 | Whatever child lists came in, the merged ones are the exact duplicate-free inverse of the parent links in merged key order, and the cursor is a merged message or None |
| `MergeHistory.MergedMessage` | backend/openlaunch/models/chats.py:556-559 | Entry by entry the incoming one is kept, else the existing one, if it is a message, with all its contents but the child list |
| `MergeHistory.MergedCursorIs` | backend/openlaunch/models/chats.py:568-574 | The cursor is the incoming one if that is a merged message, else the existing one if that is, else null; of other keys the incoming value is kept |
| `MergeHistory.MergedKeyOrder` | backend/openlaunch/models/chats.py:558-559 | Existing messages come first in their order, then the new ones in theirs |
| `MergeHistory.MergedChildOrder` | backend/openlaunch/models/chats.py:563-566 | Each message lists exactly those that name it, in the merged key order |
| `MergeHistory.MergeIdempotent` | backend/openlaunch/models/chats.py:555-574 | Merging the same incoming history again changes nothing |
| `MergeHistory.MergeAssociative` | backend/openlaunch/models/chats.py:555-574 | When all entries are messages, merging is associative on messages, parents, key order and child order |
| `MergeHistory.MergeAssociativeIff` | backend/openlaunch/models/chats.py:558-559 | With entries that are not messages, which messages survive is associative if and only if none of the first history is overridden by such an entry |
| `MergeHistory.GroupingLosesAMessage` | backend/openlaunch/models/chats.py:558-559 | Three histories whose groupings keep different messages |
| `MergeHistory.MergeCursorAssociativeIff` | backend/openlaunch/models/chats.py:568-572 | The exact condition on keys and cursors under which the merged cursor does not depend on the grouping |
| `MergeHistory.GroupingLosesTheCursor` | backend/openlaunch/models/chats.py:568-572 | Three histories of one message each: one grouping keeps the cursor, the other loses it |
| `MergeHistory.MergeKeepsTree` | backend/openlaunch/models/chats.py:555-574 | Two acyclic histories merge into a tree whenever the incoming messages name parents only among themselves; a corollary of the exact condition |
| `MergeHistory.MergeTreeIff` | backend/openlaunch/models/chats.py:555-574 | For any two histories: the merged messages are a tree if and only if the existing links left in place are acyclic and so is jumping among the incoming messages alone, each going to the first incoming message at or above its parent |
| `MergeHistory.MergeAcyclicIff` | backend/openlaunch/models/chats.py:558-566 | The same for acyclicity, on unchecked entries |
| `MergeHistory.MergeBelowKeepsTree` | backend/openlaunch/models/chats.py:555-574 | The ordinary merge: acyclic histories merge into a tree if no existing message left in place names an incoming one |
| `Forest.OverlayAcyclicIff` | backend/openlaunch/models/chats.py:558-566 | The graph fact behind it: laying one forest over another closes no cycle if and only if the jumps among the upper nodes have none |
| `MergeHistory.MergeCanCloseACycle` | backend/openlaunch/models/chats.py:558-566 | Without that condition it need not: two acyclic histories whose merge has a cycle |
| `MergeHistory.MergedCycle` | backend/openlaunch/models/chats.py:558-566 | A whole family of such merges: an incoming message that names an untouched child of its own id as parent |
| `ChatMessages.ChatMessageTable.UpsertMessage` | backend/openlaunch/models/chat_messages.py:160-239 | Writing a message inserts or updates exactly the row of its composite id; a parent or role the message does not have is left alone, or gets its default in a new row |
| `ChatMessages.RowTakesMessage` | backend/openlaunch/models/chat_messages.py:176-236 | Field by field, what the message has reads back from its row and the rest is as it was; the same for parent and role, with their defaults in a new row |
| `ChatMessages.ChatMessageTable.DeleteMessageIds` | backend/openlaunch/models/chat_messages.py:405-421 | Deleting messages removes exactly the rows of this chat with their composite ids |
| `ChatMessages.DeletesOwnRows` | backend/openlaunch/models/chat_messages.py:414-419 | Exactly the chat's own rows under those composite ids go; a row another chat holds under one of them stays |
| `ChatMessages.BuildMap` | backend/openlaunch/models/chat_messages.py:280-326 | The loops over the rows build the map whose child lists are rebuilt from the parent links |
| `ChatMessages.LinkChildren` | backend/openlaunch/models/chat_messages.py:309-324 | The linking loop gives each message exactly the keys that name it as a non-empty parent, each once, in map order |
| `ChatMessages.RowReadBack` | backend/openlaunch/models/chat_messages.py:287-307 | For the last listed row of an id, the map read has that id with the role, parent and fields of the row; a row without the prefix stands for its own key |
| `ChatMessages.ReadKeys` | backend/openlaunch/models/chat_messages.py:287-307 | The map has its messages in row order, under their ids without the prefix |
| `ChatMessages.ReadChildOrder` | backend/openlaunch/models/chat_messages.py:311-319 | Each message lists exactly the messages that name it, in that order |
| `ChatMessages.RebuiltFromMirror` | backend/openlaunch/models/chat_messages.py:265-326 | Rows that mirror a tree give back its messages with their ids, parents, roles and every field, and for each message a permutation of its children, in whatever order the rows are read |
| `ChatMessages.RowsRebuildTree` | backend/openlaunch/models/chat_messages.py:265-326 | Whatever the child lists of the history, rows that mirror acyclic parents give back a tree over the same messages and parents |
| `ChatMessages.UpsertKeepsMirror` | backend/openlaunch/models/chat_messages.py:160-239 | If the rows mirror a history, they mirror it after a message was written to both |
| `ChatMessages.AbsentParentIsNull` | backend/openlaunch/models/chat_messages.py:181-182 | Where the mirrored history has no parent for a message, writing it without the key does what writing null does |
| `ChatMessages.OtherChatsUntouched` | backend/openlaunch/models/chat_messages.py:160-239 | Writes and deletions for one chat leave the rows of other chats alone as long as those do not use its key prefix |
| `ChatMessages.KeysOfEqualLengthChatsApart` | backend/openlaunch/models/chat_messages.py:173-174 | Composite ids of chats with ids of equal length (uuids) never meet |
| `ChatMessages.KeysMeetIff` | backend/openlaunch/models/chat_messages.py:173-174 | Two chats can claim one row if and only if they are the same or one id begins with the other and a dash |
| `ChatMessages.KeysCanCollide` | backend/openlaunch/models/chat_messages.py:173-174 | With chat ids of different length two chats can claim one row |
| `Chats.ChatStore.Upsert` | backend/openlaunch/models/chats.py:704-774 | One upsert writes the history and the row of that message |
| `Chats.ChatStore.Delete` | backend/openlaunch/models/chats.py:776-794 | A deletion contracts the history, settles the cursor, backfills the survivors and removes the rows of the deleted messages; an unknown id changes nothing but the cursor, which loading repairs |
| `Chats.ChatStore.GetMessagesMap` | backend/openlaunch/models/chats.py:644-695 | A read returns the rows' map, enriched by blob messages for unresolved parents, and writes rows for exactly those (for all blob messages if there are no rows); the cursor is repaired exactly when the blob is loaded |
| `Chats.ReadGives` | backend/openlaunch/models/chats.py:654-695 | Message by message: if rows are listed, their messages, and from the blob exactly the parents they name but do not hold; if none are, the blob |
| `Chats.HasGapsIff` | backend/openlaunch/models/chats.py:656-667 | The blob is loaded exactly if no row is listed or a listed message names a parent that is not |
| `Chats.ChatStore.Load` | backend/openlaunch/models/chats.py:1212-1233 | Loading a chat repairs and saves its cursor, and changes nothing else |
| `Chats.DeletedCursorStays` | backend/openlaunch/models/chats.py:299-349 | The next load leaves the cursor where a deletion put it, if the remaining messages have ids and timestamps |
| `Chats.LoadStaysIff` | backend/openlaunch/models/chats.py:299-349 | For a tree of messages with ids, roles and timestamps, loading leaves the cursor alone if and only if it is on a message or there is no message |
| `Chats.LoadStaysByLeaf` | backend/openlaunch/models/chats.py:299-349 | For any history: if and only if the cursor is good, or the latest leaf is missing, unnamed or the cursor itself |
| `Chats.LoadMoves` | backend/openlaunch/models/chats.py:299-349 | A concrete case: one message and a null cursor; loading, and so deleting an unknown id, moves the cursor |
| `Chats.Backfill` | backend/openlaunch/models/chats.py:616-631 | Backfilling in any order writes exactly the rows of the listed messages that carry a role |
| `Chats.DeleteKeepsSound` | backend/openlaunch/models/chats.py:776-794 | A deletion keeps everything a chat relies on: a closed tree, roles, and rows that mirror the history |
| `Chats.DeleteKeepsRows` | backend/openlaunch/models/chats.py:787-792 | After backfill and row deletion the rows mirror the contracted history |
| `Chats.UpsertKeepsRows` | backend/openlaunch/models/chats.py:763-770 | After any upsert the rows still mirror the history |
| `Healing.ReadsHeal` | backend/openlaunch/models/chats.py:644-695 | Over any run of reads, rows only grow and only by messages of the blob with a role; after as many reads as there are such messages without a row, every unresolved parent is absent from the blob or has no role, and such a parent stays unresolved for good |
| `Healing.RolelessParent` | backend/openlaunch/models/chats.py:616-622 | A concrete case: a parent without a role that no number of reads finds |
| `Healing.ReadProgress` | backend/openlaunch/models/chats.py:656-682 | A read changes nothing if it has nothing to fetch; otherwise it closes part of the gap; nothing to fetch means healed |
| `Healing.ReadsReachFixpoint` | backend/openlaunch/models/chats.py:656-682 | Within that many reads a fixpoint is reached |
| `Healing.ReadRefines` | backend/openlaunch/models/chats.py:644-695 | A read of the table does to the rows' parent links exactly what the abstract read does, and keeps every row |
| `Healing.WantedIsFetched` | backend/openlaunch/models/chats.py:543-552 | What a read looks up does not depend on the order in which the database lists the rows |
| `ChatTurn.WriteTurn` | backend/openlaunch/main.py:1389-1474 | The history-writing steps of a turn, in order, on the live store: user message, its parent's link, its own links, one placeholder per assistant |
| `ChatTurn.WriteUser` | backend/openlaunch/main.py:1389-1418 | The user message is saved and its parent, if present, comes to list it |
| `ChatTurn.WriteLinks` | backend/openlaunch/main.py:1438-1454 | The user message comes to list all assistants, none twice |
| `ChatTurn.WritePlaceholders` | backend/openlaunch/main.py:1456-1474 | One placeholder is written per entry with a message id, in order |
| `ChatTurn.CollectMissing` | backend/openlaunch/main.py:1446-1449 | The appending loop adds exactly the assistants not yet listed, in order |
| `ChatTurn.TurnKeepsTree` | backend/openlaunch/main.py:1389-1474 | A whole turn with fresh ids turns a closed tree into a closed tree, adds exactly the user message, the assistants and the links to them, and leaves the cursor on the last assistant (with none, on the user message's parent, or on that message if it has no parent) |
| `ChatTurn.UserContents` | backend/openlaunch/main.py:1391-1454 | A turn stores the new user message with the client's fields, id, role and timestamp, and lists the client's children and then the missing assistants in order |
| `ChatTurn.PlaceholderContents` | backend/openlaunch/main.py:1461-1473 | Each new placeholder holds exactly the fields and the time of its entry and the role of an assistant |
| `FreshTurns.FreshTurnIff` | backend/openlaunch/main.py:1389-1474 | A turn of new messages leaves a well-formed history if and only if the parent it names is null or present and the client lists each child once and only assistants of the turn |
| `ChatTurn.HalfwayDangles` | backend/openlaunch/main.py:1442-1474 | Between the links and the placeholders the history is not a tree, unless there are no assistants |
| `ChatTurn.LinksReady` | backend/openlaunch/main.py:1389-1454 | At that point the only defect is the children still to be written, all listed under the user message |
| `ChatTurn.PlaceholdersSaved` | backend/openlaunch/main.py:1456-1474 | From any such state, writing the placeholders ends with no defect, whatever was pending |
| `ChatTurn.LinksCursor` | backend/openlaunch/main.py:1408-1454 | Where the cursor is before the placeholders: on the last message that was linked |
| `ChatTurn.TurnCursorStays` | backend/openlaunch/models/chats.py:299-349 | The next load leaves the cursor on the last assistant of a turn |
| `Regeneration.RepeatKeepsTreeIff` | backend/openlaunch/main.py:1389-1474 | Asking again for a stored user message keeps the tree if and only if the child list the client sends is up to date: every stored child once, and otherwise only assistants of this turn |
| `Regeneration.StaleListBreaks` | backend/openlaunch/main.py:1389-1474 | A concrete case: an empty client list over a stored answer |
| `Regeneration.MoveKeepsTreeIff` | backend/openlaunch/main.py:1389-1474 | Sent with another parent than the stored one, the history stays well-formed if and only if the message was a root, the new parent is a message outside its subtree, and the child list is up to date |
| `Regeneration.TakenChildBreaks` | backend/openlaunch/main.py:1389-1474 | A concrete case: a stored child sent with parent null |
| `Regeneration.MoveCursor` | backend/openlaunch/main.py:1389-1474 | The cursor then ends on the last assistant or, with none, on the new parent |
| `Regeneration.RepeatKeepsParents` | backend/openlaunch/main.py:1389-1474 | Even with a stale list no parent link changes, no cycle arises, and the assistants hang below the user message |
| `Regeneration.RepeatWrites` | backend/openlaunch/main.py:1389-1474 | A repeated turn changes the user message and adds the placeholders, and touches no other message; the cursor ends on the last assistant |
| `Regeneration.AnsweredContents` | backend/openlaunch/main.py:1391-1454 | Key by key a repeated turn stores what the client sends of the user message, and otherwise what was there |
| `Continuation.ContinueKeepsTreeIff` | backend/openlaunch/main.py:1389-1474 | A turn that names a stored answer keeps the tree if and only if that answer is childless, hangs below the user message or is a root, and the client's list has all other children; the cursor ends on the answer |
| `Continuation.AnsweredAnswerBreaks` | backend/openlaunch/main.py:1456-1474 | A concrete case: continuing an answer that was answered in turn cuts its child off |
| `ChatRuns.RunMirrors` | backend/openlaunch/models/chats.py:704-794 | Over any run of turns, repeated and continued turns, edits, deletions and saved client histories, the map rebuilt from the rows is a tree with the messages of the history, their parents, roles and every field, and for each a permutation of its children |
| `ChatRuns.RunKeepsSound` | backend/openlaunch/models/chats.py:704-794 | Every state of such a run is sound: closed tree, roles, exact mirror |
| `ChatRuns.RunKeepsCursor` | backend/openlaunch/models/chats.py:704-794 | In every state of such a run the cursor is a message or None |
| `ChatRuns.StaleTurnRows` | backend/openlaunch/main.py:1389-1474 | Even where a stale child list breaks the history, the rows give back a tree: the old one with the new assistants below the user message |
| `ChatRuns.TurnKeepsSound` | backend/openlaunch/main.py:1389-1474 | A turn keeps both stores sound |
| `ChatRuns.ReadChangesNothing` | backend/openlaunch/models/chats.py:644-695 | Reading a sound chat finds every parent and writes no row |
| `ChatRuns.EditKeepsSound` | backend/openlaunch/models/chats.py:720-724 | An upsert that touches no link and blanks no role keeps both stores sound |
| `ChatUpdate.UpdateChat` | backend/openlaunch/routers/chats.py:1206-1229 | Saving a client history merges it over the loaded one and writes the rows of every merged message with a role; the cursor is the client's if it names a saved message, else the loaded one if that does, else null |
| `ChatUpdate.SavedMessage` | backend/openlaunch/routers/chats.py:1216-1223 | Message by message the client's is saved where it sent one, else the stored one, with all contents but the child list |
| `ChatUpdate.UpdatedIsValid` | backend/openlaunch/routers/chats.py:1206-1229 | Whatever comes in, the saved history has exact links and its cursor is a message or None |
| `ChatUpdate.UpdateTreeIff` | backend/openlaunch/routers/chats.py:1206-1229 | Saving keeps a tree a tree if and only if jumping among the incoming messages closes no cycle |
| `ChatUpdate.UpdateKeepsSound` | backend/openlaunch/routers/chats.py:1206-1229 | Under that condition, and with roles and known parents, saving keeps both stores sound |
| `NewChat.NewChatSound` | backend/openlaunch/main.py:1237-1287 | Whatever child list the client sends, a new chat is sound from the start, holds exactly the user message and the assistants, and has its cursor on the first assistant |
| `NewChat.NewChatContents` | backend/openlaunch/main.py:1245-1262 | The user message is stored with the client's contents, listing the assistants in order, and each assistant with those of its entry |
| `NewChat.NewChatRunMirrors` | backend/openlaunch/models/chats.py:351-390 | From the creation of a chat on, whatever run follows, the rows give back its tree with roles and fields, and the cursor is a message or None |
| `NewChat.BuildHistory` | backend/openlaunch/main.py:1239-1262 | The loop that builds the first history |
| `NewChat.InsertNewChat` | backend/openlaunch/models/chats.py:375-388 | Inserting the chat mirrors exactly its messages with a role |
| `NewChat.FirstRowsMirror` | backend/openlaunch/models/chats.py:375-388 | Those rows mirror the first history if no row uses the chat's id or key prefix yet |
| `Folders.FolderTable.SubtreeIds` | backend/openlaunch/models/folders.py:251-268 | The stack walk returns exactly the folder and everything below it, each once, and nothing for a folder the user does not own |
| `Folders.FolderTable.ChildrenBelow` | backend/openlaunch/models/folders.py:193-214 | The recursive walk returns exactly what lies below, each once, every folder after all folders below it |
| `Folders.FolderTable.WalksAgree` | backend/openlaunch/models/folders.py:193-268 | On an acyclic forest the stack walk lists the folder and what the recursive walk lists, as multisets |
| `Folders.FolderTable.DeleteFolder` | backend/openlaunch/models/folders.py:366-397 | Deletion removes and returns exactly the subtree, and in every state committed on the way no surviving folder points at a removed parent |
| `Folders.FolderTable.DeleteBelow` | backend/openlaunch/models/folders.py:380-391 | The recursive deletion removes exactly what lies below, one commit a folder, each leaving no orphan |
| `Folders.FolderTable.MoveFolder` | backend/openlaunch/models/folders.py:270-293 | A move changes one parent link and nothing else; on an acyclic forest it keeps it acyclic if and only if the new parent is null or outside the moved subtree |
| `Folders.FolderTable.MoveIsSafe` | backend/openlaunch/models/folders.py:251-293 | The id list of the subtree walk decides beforehand whether a move keeps the forest acyclic |
| `Forest.ReparentAcyclicIff` | backend/openlaunch/models/folders.py:270-293 | The graph fact behind it, for any acyclic forest |
| `Folders.CyclicWalkNeverEnds` | backend/openlaunch/models/folders.py:260-266 | Acyclicity is needed: with a cycle below the folder the stack never empties |
| `Folders.CommitOne` | backend/openlaunch/models/folders.py:386-393 | A commit that completes a subtree leaves no survivor with a removed parent |
| `Tasks.TaskRegistry.CreateTask` | backend/openlaunch/tasks.py:104-124 | A created task joins the task table and the end of its item's list |
| `Tasks.TaskRegistry.CleanupTask` | backend/openlaunch/tasks.py:88-101 | Clean-up takes the task out of both tables and drops an emptied list; a falsy item's list is not touched |
| `Tasks.TaskRegistry.StopTask` | backend/openlaunch/tasks.py:165-167 | Stopping takes the task out of the task table only, and says whether it was there |
| `Tasks.TaskRegistry.FinishChatTask` | backend/openlaunch/main.py:1602-1614 | The finalizer cleans its task up and reports the chat inactive exactly when no other task is listed for it |
| `Tasks.TaskRegistry.HasActiveTasks` | backend/openlaunch/tasks.py:198-201 | A chat is active exactly when its list is not empty |
| `Tasks.RegistryInvariant` | backend/openlaunch/tasks.py:88-179 | Over every interleaving of create, stop, finalizer and done-callback, item lists are non-empty, duplicate-free and disjoint, and a task with an item is listed under it exactly until it is cleaned |
| `Tasks.RunConsistent` | backend/openlaunch/tasks.py:88-179 | Every item lists exactly its tasks still to be cleaned, in creation order |
| `Tasks.CleanTwice` | backend/openlaunch/tasks.py:88-101 | A second clean-up changes nothing |
| `Tasks.QuiescentEmpty` | backend/openlaunch/tasks.py:88-101 | When every task was cleaned the task table is empty and no item has a list; both tables are empty if and only if every task had an item that is neither null nor empty |
| `Tasks.FalsyStaysListed` | backend/openlaunch/tasks.py:97-101 | A task created without an item stays listed under it, whatever happens afterwards |
| `Tasks.LastFinalizerReports` | backend/openlaunch/main.py:1602-1667 | Of the tasks fanned out for one chat, the finalizer that finds the chat inactive is exactly the last one |
| `Tasks.FanPending` | backend/openlaunch/main.py:1602-1667 | At any time the chat's pending tasks are the ones of the fan not yet finalized |
| `Files.FivePassesAreOne` | backend/openlaunch/models/files.py:290-296 | The five sequential replacements equal one translation character by character |
| `Files.TranslationKeepsMeaning` | backend/openlaunch/models/files.py:275-296 | LIKE with backslash escape accepts a name exactly when the glob does, for every glob, name and case folding |
| `Files.PercentMeansStar` | backend/openlaunch/models/files.py:325-327 | The pattern is `%` exactly for the glob `*` |
| `Files.SearchKeepsGlobMatches` | backend/openlaunch/models/files.py:325-327 | A search keeps exactly the names the glob matches: the skipped filter would have accepted everything |
| `AccessGrants.BatchAgrees` | backend/openlaunch/models/access_grants.py:557-611 | The batch query, with its own list of conditions, returns exactly the requested ids the single query accepts |
| `AccessGrants.FilterAgrees` | backend/openlaunch/models/access_grants.py:658-765 | For a caller with an id the SQL filter accepts exactly the documents owned by or accessible to the caller |
| `AccessGrants.FilterWithoutCaller` | backend/openlaunch/models/access_grants.py:676-765 | Without a caller the filter accepts everything if no groups are given, else exactly what is public or granted to one of them |
| `AccessGrants.AccessByGrants` | backend/openlaunch/models/access_grants.py:497-555 | Access is a public grant, one's own, or one of a group |
| `AccessGrants.ReadOnlyMeans` | backend/openlaunch/models/access_grants.py:767-875 | Without a public write grant the read-only filter accepts exactly what is neither owned nor public and can be read but not written; with one, everything it accepts can be written too |
| `AccessGrants.ReadOnlyYetWritable` | backend/openlaunch/models/access_grants.py:767-875 | A concrete case: shown as read-only, and writable |
| `AccessGrants.UsersWithAccess` | backend/openlaunch/models/access_grants.py:635-656 | The loops over the grants collect the named users and group members, or all users that are not pending if a grant is public |
| `AccessGrants.ReverseAgrees` | backend/openlaunch/models/access_grants.py:613-656 | An existing user is listed exactly when that user has access, except that public access does not list pending users |
| `AccessGrants.PendingListed` | backend/openlaunch/models/access_grants.py:637-656 | A concrete case: a pending user is listed through a direct grant and no longer once there is a public one as well |
| `AccessGrants.ReverseAgreesFor` | backend/openlaunch/models/groups.py:343-351 | Reading a group's members and reading a user's groups give the same membership relation, so both directions of access agree |
| `AccessGrants.SharedFolders` | backend/openlaunch/models/folders.py:185-191 | The fold keeps for each folder a granted permission, `write` whenever there is one, for any order of the grants |
| `AccessGrants.SharedFoldersAgree` | backend/openlaunch/models/folders.py:159-191 | A folder is shared for writing exactly when the user has write access, and listed exactly when there is access of some kind |
| `AccessGrants.SyncGroups` | backend/openlaunch/models/groups.py:514-569 | Afterwards the user is in exactly the groups with one of the names; rows of other users and rows that are still right are kept, and a new row with a new id is made only where there was none |
| `LegacyAccess.ConvertToGrants` | backend/openlaunch/models/access_grants.py:78-142 | The loops convert a legacy value to its grants in order |
| `LegacyAccess.GrantsOfLegacy` | backend/openlaunch/models/access_grants.py:114-142 | A structured value grants exactly its group ids and user ids, each with the permission it is under |
| `LegacyAccess.GrantsInOrder` | backend/openlaunch/models/access_grants.py:114-142 | In order: groups before users, readers before writers |
| `LegacyAccess.GrantsOfSimple` | backend/openlaunch/models/access_grants.py:95-112 | None is public reading except for files, and {} is private |
| `LegacyAccess.ConvertFromGrants` | backend/openlaunch/models/access_grants.py:232-274 | The loop collects grants into the legacy value, a public reader making it None |
| `LegacyAccess.LegacyOfGrants` | backend/openlaunch/models/access_grants.py:247-274 | No grants are {}, a public reader makes None, and otherwise each list holds exactly the principals of its kind with its permission |
| `LegacyAccess.LegacyRoundTrip` | backend/openlaunch/models/access_grants.py:78-274 | What comes back of every legacy value: None and {} for non-files as themselves, a structured value with an id and no wildcard reader as itself with each list deduplicated in order, any other one as {} or None |
| `LegacyAccess.GrantsRoundTrip` | backend/openlaunch/models/access_grants.py:78-274 | Valid grants return as the same set if and only if public read does not occur, or comes alone and not for a file |
| `LegacyAccess.PublicFileLost` | backend/openlaunch/models/access_grants.py:95-108 | A concrete case: a public file becomes private |
| `LegacyAccess.WriterLost` | backend/openlaunch/models/access_grants.py:271-272 | A concrete case: public read with a writer beside it, who does not come back |
| `LegacyAccess.NormalizedExact` | backend/openlaunch/models/access_grants.py:145-181 | Normalizing keeps exactly the valid grants, each once |
| `LegacyAccess.DedupExact` | backend/openlaunch/models/access_grants.py:264-269 | Deduplication keeps exactly the ids, each once |
| `LegacyAccess.DedupOrder` | backend/openlaunch/models/access_grants.py:264-269 | Of two ids the one seen first comes first |
| `LegacyAccess.GrantTable.SetAccessGrants` | backend/openlaunch/models/access_grants.py:400-435 | Afterwards the resource has exactly the valid grants of the payload, and no other resource's grants change |
| `Automations.AutomationTable.ClaimDue` | backend/openlaunch/models/automations.py:256-299 | A claim sets the last run of exactly the picked rows to now and their next run to the rescheduled time, after which they are no longer due; nothing else changes |
| `Automations.ClaimIsLockThenCommit` | backend/openlaunch/models/automations.py:264-297 | An atomic claim is a lock followed by its commit in the worker model |
| `Automations.AutomationTable.Insert` | backend/openlaunch/models/automations.py:120-143 | An insertion is the corresponding step of the worker model; the row is due exactly if active and the first time has come, and no other row becomes or stops being due |
| `Automations.AutomationTable.UpdateById` | backend/openlaunch/models/automations.py:208-228 | An update is the corresponding step of the worker model; the row becomes due exactly if it is active and the given time has come, and no other row becomes or stops being due |
| `Automations.AutomationTable.Toggle` | backend/openlaunch/models/automations.py:230-245 | Toggling is the corresponding step of the worker model; a row toggled off is never due, one toggled on exactly when the given time has come, and no other row becomes or stops being due |
| `Automations.SelectionExists` | backend/openlaunch/models/automations.py:264-279 | The query always has an answer: due unlocked rows, earliest first, as many as the limit allows |
| `Automations.ClaimsExclusive` | backend/openlaunch/models/automations.py:256-299 | Over any interleaving of lock and commit steps with other writes, no two workers hold one automation, and the claims of each have strictly increasing times |
| `Automations.RunSafe` | backend/openlaunch/models/automations.py:256-299 | The invariant behind it: held rows are still due for the claim that holds them, and each row records the last of its claims |
| `Automations.DrainsInOrder` | backend/openlaunch/models/automations.py:256-299 | Successive claims at one time take each row at most once and earliest first, and leave exactly the rest due |
| `Automations.DrainsInCeil` | backend/openlaunch/models/automations.py:256-299 | Every due row has been claimed if and only if at least ceil(n / limit) calls were made |
| `Automations.BatchSize` | backend/openlaunch/models/automations.py:265-279 | A call takes as many rows as the limit, or all that are left |
| `ConfigPaths.AssignLeaf` | backend/openlaunch/models/config.py:83-91 | Assigning at a path no leaf is in the way of adds that leaf and changes no other |
| `ConfigPaths.AssignAnywhere` | backend/openlaunch/models/config.py:83-91 | Wherever it goes, assigning a leaf puts it at its path, replaces whatever leaf was on the way, and changes no other |
| `ConfigPaths.AssignOver` | backend/openlaunch/models/config.py:83-91 | Assigning the leaves of one dictionary onto another puts them all there, replaces what is on their ways and keeps the rest |
| `ConfigPaths.Reassembles` | backend/openlaunch/models/config.py:83-91 | Assigning the flattened leaves of a nested dictionary without empty inner dictionaries, in any order, rebuilds it |
| `ConfigPaths.SplitJoin` | backend/openlaunch/models/config.py:348 | Splitting a dotted key of dot-free parts gives the parts back |
| `ConfigPaths.SplitFragment` | backend/openlaunch/models/config.py:58-80 | The search over the listed fields finds the last marker of any of them and cuts there |
| `ConfigPaths.FindLast` | backend/openlaunch/models/config.py:67-69 | The last place where a field starts right after a dot, or -1 |
| `ConfigPaths.DigitKeyRecovered` | backend/openlaunch/models/config.py:62-64 | A connection key made of digits is recovered with whatever path follows |
| `ConfigPaths.NamedKeyRecoveredIff` | backend/openlaunch/models/config.py:58-80 | Any other key followed by a listed field is recovered if and only if it is not led by digits and no listed field follows a later dot |
| `ConfigPaths.NamedKeyWithOneField` | backend/openlaunch/models/config.py:66-78 | A key not led by digits, followed by one listed field, is always recovered |
| `ConfigPaths.DigitLedKeyCut` | backend/openlaunch/models/config.py:62-64 | A key led by digits but not made of them is cut at its first dot |
| `ConfigPaths.TwoFieldsMisread` | backend/openlaunch/models/config.py:66-78 | Two listed fields after a key: the first is taken for part of the key |
| `ConfigPaths.ExtraParamMisread` | backend/openlaunch/models/config.py:66-78 | An example: the maximum of tokens among the extra parameters of a connection |
| `ConfigPaths.AddressKeyCut` | backend/openlaunch/models/config.py:62-64 | An example: the key of a host address keeps only its first number |
| `ConfigStore.GetManyAgreesIff` | backend/openlaunch/models/config.py:140-178 | For each requested key the batch lookup gives what the single lookup finds and omits it if that finds nothing, if and only if the key is not answered by the row of the empty key |
| `ConfigStore.EmptyKeyAnswers` | backend/openlaunch/models/config.py:168-173 | A concrete case: a key with a default, requested along with the empty key, gets the row of the latter |
| `ConfigStore.GetManyAgrees` | backend/openlaunch/models/config.py:151-178 | So on any request without that key, or with no such row, the two lookups are the same map |
| `ConfigStore.UpsertReads` | backend/openlaunch/models/config.py:208-231 | After an upsert every updated key reads back its value and every other key is unchanged except through its alias |
| `ConfigStore.WithoutPersistence` | backend/openlaunch/models/config.py:132-145 | With persistence off, or for a key beginning `oauth.` without OAuth persistence, reads do not look at the table and an upsert changes the default and not the row |
| `ConfigStore.WithPersistence` | backend/openlaunch/models/config.py:132-149 | In all other cases a stored row answers, then the row of the old name of `openlaunch.url`, then the default, and an upsert writes the row and not the default |
| `ConfigStore.RunReads` | backend/openlaunch/models/config.py:208-231 | Over any run of upserts the store refines one logical map: a key's last write, or its alias's for a key without a row, or what was there |
| `ConfigStore.Config.Get` | backend/openlaunch/models/config.py:140-149 | A lookup returns the row, the alias's row, the default or the caller's default, in that order |
| `ConfigStore.Config.Upsert` | backend/openlaunch/models/config.py:208-231 | Each update goes to the table or to the defaults, according to whether its key persists |
| `ConfigStartup.ConfigTable.RenamePrefix` | backend/openlaunch/models/config.py:275-300 | Afterwards no row is under the old prefix, each suffix is under the new one, an existing value there wins, and nothing else changes |
| `ConfigStartup.ConfigTable.MoveRows` | backend/openlaunch/models/config.py:287-298 | The loop moves or drops one old row at a time and keeps all others |
| `ConfigStartup.RenameKeepsSuffixes` | backend/openlaunch/models/config.py:290-298 | No suffix is lost, and the value that was first under the new prefix is the one kept |
| `ConfigStartup.RenameTouchesNothingElse` | backend/openlaunch/models/config.py:282-298 | Every row under neither prefix stays as it was |
| `ConfigRepair.RepairOne` | backend/openlaunch/models/config.py:319-368 | The loops over one config's rows assign each row whose fragment splits onto the stored dictionary, and name exactly those rows as used |
| `ConfigRepair.FragmentIs` | backend/openlaunch/models/config.py:333-338 | The fragment of a key is what follows the first prefix it carries and a dot |
| `ConfigRepair.BlockedConnection` | backend/openlaunch/models/config.py:350-354 | A connection that holds something other than a dictionary keeps it, and no row for it is used |
| `ConfigRepair.FlattenedOverStored` | backend/openlaunch/models/config.py:328-368 | Over a stored dictionary the flattened leaves win, stored leaves on their ways are replaced, and every other stored leaf stays |
| `ConfigRepair.RepairTouchesNothingElse` | backend/openlaunch/models/config.py:309-374 | A repair leaves every row alone but those of the configs and those under their prefixes |
| `ConfigRepair.PlaceRows` | backend/openlaunch/models/config.py:332-358 | The row loop assigns each row whose path is found onto the dictionary in order and collects exactly those rows |
| `ConfigRepair.Repair` | backend/openlaunch/models/config.py:309-374 | All configs are repaired in order and exactly the used rows are deleted |
| `ConfigRepair.RepairBringsBack` | backend/openlaunch/models/config.py:309-374 | The repair of all configs undoes the flattening of each: its row holds the dictionary the rows came from, whatever their order, and none of those rows is left |
| `ConfigRepair.FlatteningUndone` | backend/openlaunch/models/config.py:309-374 | Stated on the dictionary alone: with dot-free keys (or, for API configs, digit keys or single listed fields) and one row for each leaf, the repair brings it back and leaves none of the rows |
| `ConfigRepair.FlattenedComesBack` | backend/openlaunch/models/config.py:319-368 | The same for the repair of one config |
| `ConfigRepair.RecoveredPaths` | backend/openlaunch/models/config.py:342-357 | Which flattened keys give their path back: dot-free parts, and for API configs a digit key, or one not led by digits with one listed field |
| `ConfigRepair.RepairSettles` | backend/openlaunch/models/config.py:309-374 | After a repair no flattened row is left that a further repair could use |
| `ConfigRepair.SeedDefaults` | backend/openlaunch/models/config.py:251-273 | Seeding appends the missing defaults in their order and changes no stored value |
| `ConfigRepair.SeedRegisteredDefaults` | backend/openlaunch/config.py:40-43 | Startup renames, repairs and seeds, in that order |
| `ConfigRepair.NormalizeIdempotent` | backend/openlaunch/config.py:40-43 | Startup normalization is idempotent on any stored config if no default key lies under a rewritten prefix |
| `ConfigRepair.NormalizedIsClean` | backend/openlaunch/config.py:40-43 | Afterwards no row is under the old prefix, every config is settled and every default has a row |
| `ConfigKeys.StartupIdempotent` | backend/openlaunch/config.py:40-43 | The same for the actual prefixes and the twelve actual dictionary configs |
| `ConfigKeys.ConfigsSeparated` | backend/openlaunch/models/config.py:24-38 | No config key lies under a prefix of any config, and keys are distinct, so the repairs do not interfere |
| `ConfigKeys.RenameIsSafe` | backend/openlaunch/config.py:41 | `rag.web` and `web` are not nested, and no config key lies under the old prefix |
| `ModelUnload.ResolveOwned` | backend/openlaunch/main.py:896-907 | The base-model loop stops on every chain, cyclic ones too, and ends on the first owned model exactly when the chain has one |
| `ModelUnload.ChainStep` | backend/openlaunch/main.py:904-907 | The chain goes on exactly to the non-empty base model a stored model names |
| `ModelUnload.CycleCovers` | backend/openlaunch/main.py:896-907 | Once a chain revisits a model, it meets no new ones |

## Left out

- In-place aliasing of dictionaries: merged histories, nested `_assign_path` dictionaries and the loaded blob are values here, so a mutation shared through two references is not captured.
- Absent against falsy: a missing, null or empty `role`, `id` or output role is one value, a missing timestamp is 0, a missing `childrenIds` is the empty list, and a missing `parentId` is null (rows tell the two apart).
- Keys in snake case inside a message (`parent_id`, `model_id`) as an alternative to camel case; messages carry camel-case keys.
- `messages` entries that are not dictionaries: modelled in merging only, elsewhere every entry is a message.
- Message content and the remaining row columns (usage merging, timestamps, status, sources): one map of fields stands for them; null-character sanitizing is left out.
- Chat-level effects of a turn (title, models, files, tags, events) and one clock value per turn instead of one per write.
- Failed writes: the `try`/`except` around row writes and folder walks, which log and go on, or return nothing.
- ConfigRepair.FlattenedComesBack: a stored `{}` is changed in place and the same object is assigned back to its row, which a JSON column without change tracking may not write although the flattened rows are deleted; the model writes it.
- ConfigRepair.RepairBringsBack: the same case of a stored `{}`.
- ConfigRepair.FlattenedOverStored: the same for any stored dictionary.
- ConfigRepair.RepairOne: likewise any stored dictionary of a config counts as written once it was changed.
- Session behaviour of the ORM: identity map, flush order, change detection on JSON columns, rollback.
- LIKE details of config prefixes: `_` and `%` inside a prefix and case folding; a prefix query is exact prefix matching.
- Unicode digits accepted by `isdigit`: digits are 0 to 9.
- The content of the default config: idempotence of startup assumes that no default key lies under a rewritten prefix.
- `get_namespace`, `get_all`, `delete` and `clear` of the config store: filters and deletions over the same maps.
- Redis mode of the task registry, where other steps can intervene between two commands of one clean-up.
- `stop_item_tasks`: it iterates the live list that clean-up shortens, so it need not stop every task; the cancellation that `stop_task` waits for is the later done-callback step.
- Tasks.LastFinalizerReports: assumes that no other task is created for the chat while the fan runs, and that each finalizer runs once and before its task's done-callback.
- Claiming on databases without row locks: one atomic claim; rows inserted while another claim is in progress are steps of the interleaving.
- `set_access_control`, `grant_access`, `revoke_access` and the unique constraint on grants: single-row writes over the same set.
- Providers, HTTP routes, authentication, sockets, webhooks, the frontend, and the simple tables (tags, feedback, functions, memories, calendar): they would add only easy members.
