# Cloud file server: verified model

A Dafny model of the state-carrying parts of a cloud file server and its
client, with proofs of what they keep. Each part has a value-level
specification in functions, an imperative model that refines it where the
source changes things in place, and theorems over all runs.

* **Virtual file system** (`Tables`, `Subtree`, `Commands`, `Database`,
  `Navigation`, `FileSystemRuns`, `ForestRuns`, `ForestExamples`, `Creation`). Three
  tables: a forest of rows with a redundant path column, a content store with
  link counts, and each user's current directory. `Database.Store` holds the
  tables and issues the statements; the recursive removal goes child by child
  through the children's own paths, as the server does.
* **Path resolver** (`PathStrings`, `PathHandler`). A growing stack and a
  growing ring buffer of components, and what they compute.
* **Time wheel** (`WheelSpec`, `WheelAgreement`, `WheelTick`, `WheelEnds`,
  `WheelRuns`, `WheelReuse`, `WheelExpiry`, `WheelCost`, `WheelExamples` on
  values; `HashChains`, `SlotRings`, `TimeWheels` on the heap). Sixty circular
  doubly linked rings and a resizable chained hash table that has to agree with
  them.
* **Transfers** (`ByteStream`, `Frames`, `FileTransfer`, `Uploads`, `CloudRuns`).
  Exact sending and receiving over short reads, command frames, resumed uploads
  and downloads, any number of upload sessions on one content store, and that
  store and the tables together.
* **Task queue and worker pool** (`TaskQueues`, `WorkerPool`, `PoolProgress`). The
  linked list behind the mutex, and the threads around it one step at a time.
* **Configuration table** (`ConfigTable`). Linear probing with wrap-around.

`dafny verify dfyconfig.toml` checks everything.

What the model takes as given:

* A command handler is one step on the tables. Statements succeed apart from
  constraint rejections, which change nothing but do not stop the handler.
* Keys are handed out in increasing order from 1. Rows of a result set without
  an order are taken in key order where the source keeps the last of them
  (`get_hashId`), and in any order everywhere else.
* A text that does not fit its 32-character column is rejected, as the strict
  SQL mode does. Equality of texts is equality of characters; the collation of
  the schema also identifies letters that differ in case or accent.
* Times are numbers handed to the commands. A content hash stands for one
  content.
* Descriptors and timeouts of the wheel are not negative, and integers do not
  overflow: link counts, table sizes and ids stay far below 2^31.
* A receive returns at least one byte while there is one. A write to a file
  and a splice out of a pipe take everything they are given.

Where parts of the source turned out not to keep what the rest relies on, the
code is modelled as it is, an input is given, and the exact condition is proved:

* `mkdir` with more than one component (`MkdirKeepsTree`,
  `NestedMkdirBreaksTree`) and uploads under a name with a slash in it, such as
  `puts a/b` (`UploadKeepsTree`, `NestedPutsBreaksTree`), store rows whose path
  is not their parent's path and their name. `cd` finds a new directory by the
  argument it was made with exactly when that is names without a superfluous
  slash behind one leading ".." at most (`MkdirThenCdExactly`).
* `rmdir` above rows of others leaves them without a parent, can report failure
  for what it removed, and removes rows in which others stand (`RmdirKeepsTree`,
  `RmdirExactly`, `TallyExactly`, `RmdirLeavesOrphan`).
* Link counts are no longer exact after rejected rows or duplicate hashes
  (`StepExactly`, `RefusedUploadBreaksCounts`). No content that a file still
  references is offered for deletion all the same: in every run, with any
  arguments, the counts cover the references (`RunsStaySafe`).
* A user whose row has been removed goes on with the empty path; uploads then
  name user 0, whom there is not, and only their counts remain
  (`StrandedUploads`).
* In the wheel, `removeUser` and `updateUserTimeout` look for a descriptor in
  the ring of the first node of its bucket, which may be another's
  (`RemoveWorksExactly`, `CrowdedBucket`). A tick over such a ring can go round
  for ever (`TickReturnsExactly`, `TickReturnsUnlessStuck`, `TickCanHang`).
  The server closes connections without taking them out of the wheel
  (server/bussiness.c:43-47 and 55-60), adds whatever descriptor it accepts
  (server/main.c:130-140), and so adds descriptors that still wait. While
  descriptors are smaller than the table, every tick ends all the same
  (`RunsStayCovered`, `EveryTickEnds`), but such an addition breaks the agreement
  (`AddAgreesExactly`), which only new descriptors keep (`RunsStayInRange`), and
  the new client is evicted at its predecessor's turn (`ClosedAtSoonerTurn`,
  `ReuseEvictsEarly`).
* The pipe of a large transfer takes bytes queued behind the file
  (`SpliceStopsExactly`). A stored file can so grow beyond its content, with the
  client's next message behind it (`LargeUploadSpoils`), and does exactly when
  some upload writes past the end (`RunsWithinExactly`).
* The pipe sender and both receivers never end when they are promised more bytes
  than there are (`PipeSendEndsExactly`, `ReceivingEndsExactly`).
* The shutdown flag is lowered outside the mutex (`ShutdownEndsExactly`,
  `ShutdownCanHang`).
* A configuration key inserted again in its home slot is stored a second time
  behind it (`InsertKeepsForm`, `SecondInsertHidden`), and in a full table the
  probes end only for keys it holds (`InsertEndsExactly`, `FindEndsExactly`).

## Model

| member | source | states |
|---|---|---|
| `PathStrings.SplitOfJoin` | server/path_handler.c:50-80 | Splitting a joined path at its slashes gives back the component list, with or without a leading slash |
| `PathStrings.NormaliseIdempotent` | server/path_handler.c:50-80 | Splitting and rejoining a path is idempotent, and is the identity exactly on the canonical paths |
| `PathStrings.WholePathComponents` | server/path_handler.c:234-325 | For relative input the resolver fails exactly when there are more leading ".." than components in the current path; otherwise the components are the current path without its last k followed by the input without its first k |
| `PathStrings.BuffersSuffice` | server/path_handler.c:297-325 | The 512-byte result buffer holds every relative result whose inputs fit their 128-byte copies, and an absolute one exactly up to 511 bytes |
| `PathHandler.PathStack.Push` | server/path_handler.c:26-32 | Pushing appends to the contents, through any reallocation |
| `PathHandler.PathStack.Pop` | server/path_handler.c:34-40 | Popping takes the last item, and reports an empty stack without changing it |
| `PathHandler.PathQueue.Resize` | server/path_handler.c:119-132 | Doubling a wrapped ring buffer keeps the items and their order |
| `PathHandler.PathQueue.Enqueue` | server/path_handler.c:135-142 | The ring buffer appends to a FIFO sequence, wrapped or grown |
| `PathHandler.PathQueue.Dequeue` | server/path_handler.c:145-153 | The ring buffer takes from the front of that sequence, and reports emptiness |
| `PathHandler.NextToken` | server/path_handler.c:50-58 | One tokenizer call yields the next component and leaves the rest, or finds none |
| `PathHandler.PushPath` | server/path_handler.c:50-58 | All components of a path are pushed in order |
| `PathHandler.EnqueuePath` | server/path_handler.c:172-180 | All components of a path are enqueued in order |
| `PathHandler.PathFromStack` | server/path_handler.c:60-80 | Rebuilds "/a/b/c" from bottom to top and never outgrows the bytes computed for it |
| `PathHandler.PathFromQueue` | server/path_handler.c:182-204 | Rebuilds "a/b/c" from front to rear and never outgrows the bytes computed for it |
| `PathHandler.ClimbInOneGo` | server/path_handler.c:255-265 | Taking ".." off one by one amounts to dropping all k of them and the last k components at once, failing exactly when k is too large |
| `PathHandler.ClimbDots` | server/path_handler.c:255-265 | The loop over stack and queue does that climb, and fails when the stack runs out first |
| `PathHandler.ResolvePath` | server/path_handler.c:234-271 | Both halves of the resolved path, or failure |
| `PathHandler.GetWholePath` | server/path_handler.c:297-325 | The resolver built on stack and queue computes the whole path that the file system theorems are about |
| `Tables.DropSound` | server/db_opration.c:105-232 | Removing any set of rows, with its link count updates, keeps unique paths, parents before children, linked files, covering counts and the meaning of the deletion time |
| `Tables.DropTwice` | server/rmdir.c:83-97 | Removing disjoint row sets one after the other is removing their union, counts and times included |
| `Tables.DropExactly` | server/db_opration.c:164-285 | Removing rows takes them out and changes nothing else but the links: each content loses as many as they held on it, and one that comes to zero is stamped with the time |
| `Tables.DropFile` | server/rm.c:56-80 | Unlinking one file changes one content row, whose count was at least 1 |
| `Database.Store.DelFileInV` | server/db_opration.c:105-162 | Deletes exactly the caller's file at the path and returns its content key, or -1 and no change when there is none |
| `Database.Store.DelFileInG` | server/db_opration.c:164-211 | Takes one link off one content row and reports what is left |
| `Database.Store.GetLastTime` | server/db_opration.c:287-305 | Offers exactly the contents with a deletion time |
| `Database.Store.DelDirV` | server/db_opration.c:310-368 | Deletes exactly the caller's directory at the path and returns its key, or -1 and no change |
| `Database.Store.GetDirContents` | server/db_opration.c:370-392 | Lists every child of a directory once, in whatever order |
| `Database.Store.UpdDirInU` | server/db_opration.c:400-459 | Moves the user to the directory row with the path and returns 1, or returns 0 when there is none |
| `Database.Store.RmCommand` | server/rm.c:50-87 | Returns -1 and changes nothing exactly when the caller has no such file; otherwise returns 0, unlinks it, decrements its content and stamps the time when that reaches zero. The -1 of the count query never occurs |
| `Database.Store.RmdirCommand` | server/rmdir.c:54-105 | Terminates. Returns -1 and changes nothing when the caller has no such directory; otherwise removes exactly the rows below it reached through rows of the caller, lowers each content by its removed references, and returns the tally of what it met |
| `Database.Store.RemoveContents` | server/rmdir.c:76-97 | The loop over the children, whatever their order, handles each child's own part and adds up what each yields |
| `Subtree.TallyExactly` | server/rmdir.c:54-105 | The number returned is the number of files and empty directories below the directory if and only if the removal meets no directory of somebody else |
| `Subtree.WholeSubtreeOwned` | server/rmdir.c:54-105 | When everything below is the caller's, the removed rows are exactly the directory and its descendants, and the number is right |
| `Subtree.ChildHandled` | server/rmdir.c:83-97 | The command issued for one child by its own path does exactly that child's part of the removal, whatever siblings went before |
| `Subtree.AllChildrenDone` | server/rmdir.c:83-104 | With every child handled the removal and its count are complete |
| `Database.Store.InsertRow` | CloudinessServer_2024-08-10_142108.sql:101-116 | An insert is accepted exactly when path is new, texts fit 32 characters and the foreign keys exist, and then adds the row under the next key; a rejected one changes nothing |
| `FileSystemRuns.NewContentUnreferenced` | server/dataTransfer.c:262-273 | A new content row has a key of its own, one link and no deletion time; no file references it, the search for its hash finds it rather than an older row, and all other rows are as before |
| `Tables.BumpMakesRoom` | server/dataTransfer.c:243-261 | A new link leaves every content with the hash, and no other, room for one more reference and without a deletion time, and the counts still cover the references |
| `Database.Store.GetHashId` | server/dataTransfer.c:150-184 | The last row with the hash, or 0 |
| `Database.Store.AddVirtualRow` | server/dataTransfer.c:125-149 | Adds the file row of an upload under the current directory, subject to the constraints |
| `Database.Store.ExitFile` | server/dataTransfer.c:58-114 | The hash of the content of a row with the joined path, or none exactly when no row with a stored content has it |
| `Commands.AfterLastSlash` | server/mkdir.c:244-275 | The text after the last slash: no slash in it, and a slash or nothing before it |
| `Commands.OneSlashBetween` | server/mkdir.c:149-175 | mkdir composes its path with one slash between the two parts, whether or not the first ends in one |
| `Database.Store.MkdirCommand` | server/mkdir.c:301-345 | Inserts a directory row under the current directory, with the path text mkdir composes |
| `Database.Store.PutsTables` | server/puts.c:65-89 | The table updates that end an upload, instant or transferred |
| `Database.Store.CdCommand` | server/cd.c:16-56 | Resolves, strips one slash, looks the directory up by text and moves the user there; replies with the new path exactly on success, and changes nothing otherwise, nor ever anything of another user |
| `Database.Store.RmPath` | server/rm.c:15-48 | Removes the file the argument leads to and returns 0, or, when it leads to none, returns -1 and changes nothing |
| `Database.Store.RmdirPath` | server/rmdir.c:17-52 | Removes the subtree of the directory the argument leads to and returns the tally that is sent to the client, or, when it leads to none, returns -1 and changes nothing |
| `Navigation.PathIsJoinedNames` | server/dataTransfer.c:125-149 | In a well-kept table every row's path is the joined names on the way down to it |
| `Navigation.TextRefinesTree` | server/cd.c:29-46 | Relative cd by path text finds exactly the row found by climbing k parent keys and descending by name, owned by the user, or fails when that walk does |
| `Navigation.AbsoluteNeedsCanonical` | server/cd.c:29-46 | Absolute cd succeeds exactly when the text, less one trailing slash, is canonical and the walk from the top ends at a directory of the user |
| `Navigation.RemovalRefinesTree` | server/rmdir.c:34-43 | Relative rm and rmdir by path text find exactly the row found by climbing and descending, except that an input of nothing but ".." finds none, because its trailing slash stays |
| `Navigation.RemovalNeedsCanonical` | server/rm.c:31-40 | Absolute rm and rmdir find a row exactly when the text is canonical as it stands and the walk from the top ends at such a row of the user |
| `Navigation.RemovesTarget` | server/rm.c:50-87 | What is found is what is removed: the file alone, or all that is reached below the directory; without a find nothing changes |
| `Navigation.PwdAfterCd` | server/pwd.c:17-30 | The path pwd reports after a successful cd is the text that was looked up, and the canonical path of the new directory |
| `Navigation.CdMoves` | server/cd.c:16-56 | cd moves its user to the directory found, which is one of their own, and changes nothing else; where none is found it changes nothing |
| `Creation.MkdirMakes` | server/mkdir.c:205-345 | For every argument of names, with one leading ".." or none and no superfluous slash: when there is room, the row made belongs to the user and stands in the current directory, its path is what the resolver makes of the argument, cd with the argument finds it, and all else is as before; otherwise nothing changes |
| `Creation.MkdirThenCdExactly` | server/mkdir.c:205-242 | For every argument whose row is accepted, cd with the same argument finds the new row if and only if the argument is of that kind |
| `Creation.SentMakes` | server/dataTransfer.c:125-149 | A transferred file gets a content of its own with one link and, when there is room, a file row of the user in the current directory, which rm finds when the name is a single component; all else is as before |
| `Creation.InstantMakes` | server/dataTransfer.c:125-261 | An instant upload makes no content, gives every content with the hash one more link, and, when there is one and room, makes such a file row of the latest of them |
| `Creation.StrandedUser` | server/db_opration.c:32-63 | A user whose row has been removed makes no rows; uploads only count, and inputs are resolved against the empty path |
| `ForestRuns.InsertTree` | server/mkdir.c:278-299 | An accepted insert keeps the forest exactly when the row's path is its parent's path, a slash and its name |
| `ForestRuns.MkdirKeepsTree` | server/mkdir.c:205-242 | mkdir keeps the forest exactly when the argument is one component (or leads back into the current directory), or the row is refused |
| `ForestExamples.NestedMkdirBreaksTree` | server/mkdir.c:212-223 | A start state in which "mkdir a/b" stores a row whose path is not its parent's path and its name |
| `ForestRuns.UploadKeepsTree` | server/dataTransfer.c:125-149 | An upload keeps the forest exactly when its name is a single component or its row is refused |
| `ForestExamples.NestedPutsBreaksTree` | server/dataTransfer.c:125-149 | The same start state broken by an upload under the name "a/b" |
| `ForestRuns.RmdirKeepsTree` | server/rmdir.c:54-105 | Removing a directory keeps the forest exactly when everything below it is the caller's |
| `ForestRuns.RmdirExactly` | server/rmdir.c:54-105 | It keeps the forest and a directory for every user to stand in exactly when besides nobody stands in what is removed |
| `ForestExamples.RmdirLeavesOrphan` | server/rmdir.c:43-51 | A start state in which a user removes the directory above another's home: the home is left without a parent, and the number returned is the -1 reported as failure |
| `FileSystemRuns.StepKeepsSafe` | server/puts.c:65-89 | Every command of any user, wherever it stands or when its row is gone, accepted or rejected and with any argument, keeps unique paths, parents before children, linked files, fresh keys, counts that cover the references, and the deletion time exactly at zero links |
| `ForestRuns.StepConsistentExactly` | server/puts.c:65-89 | A command keeps the whole state consistent, paths and places of users included, if and only if its row fits or is refused, or what it removes is all the caller's with nobody in it |
| `FileSystemRuns.RunsStaySafe` | server/dataTransfer.c:125-184 | The same as for one command after every run of every length, by whatever users there are |
| `ForestRuns.RunsConsistentExactly` | server/dataTransfer.c:125-184 | Every state of a run from a consistent start is consistent if and only if each command is of that kind where it is given |
| `ForestRuns.StartIsConsistent` | CloudinessServer_2024-08-10_142108.sql:101-116 | Tables with nothing but directories and users at home are a consistent start with exact counts |
| `ForestRuns.CdAfterEveryRun` | server/cd.c:29-46 | After every such run, cd by text is cd by tree |
| `FileSystemRuns.OfferedContentIsUnreferenced` | server/db_opration.c:287-305 | After every run, by whatever users and with any arguments, no file references a content that is offered for physical deletion |
| `FileSystemRuns.StepExactly` | server/puts.c:67-88 | With exact counts, a command leaves them exact if and only if its file row is placed and accepted and (for an instant upload) its hash has one row, or none |
| `ForestExamples.RefusedUploadBreaksCounts` | server/puts.c:80-88 | A start state in which an upload is refused by the unique path and leaves a content that counts a link nobody holds |
| `ForestExamples.StrandedUploads` | server/db_opration.c:32-63 | A start state in which a user removes the directory it stands in; its next upload adds no file row and leaves a content that counts a link nobody holds |
| `FileSystemRuns.CleanIsRight` | server/puts.c:67-88 | That condition holds in particular when no insert is rejected and no hash has two rows |
| `FileSystemRuns.CleanRunsStayExact` | server/rm.c:57-80 | The counts equal the references in every state of a run each of whose commands meets that condition |
| `FileSystemRuns.ExactRunsAreClean` | server/rm.c:57-80 | And only of such runs |
| `FileSystemRuns.UploadThenDownload` | server/dataTransfer.c:58-149 | What an accepted upload stored under a name, whatever the name, is what a download of that name is served from |
| `CloudRuns.EventKeepsWhole` | server/puts.c:45-92 | Every command, every step of an upload and every end of one, with the row its end adds, keeps tables safe, stored files aligned with their contents, and the whole content of every content row stored |
| `CloudRuns.HistoriesStayWhole` | server/puts.c:45-92 | The same after every history of interleaved commands and uploads, finished or given up |
| `CloudRuns.FilesAreStored` | server/puts.c:45-92 | From tables without contents and an empty store: in every state reached, the content row of every file row names a stored file that begins with the whole content, and is that content if and only if no upload has written past its end |
| `CloudRuns.DownloadsAreStored` | server/gets.c:24-67 | And so does what any download is served from |
| `CloudRuns.UploadedIsServed` | server/puts.c:45-92 | From every reachable state in which the stored file is shorter than the content, whatever else is under way: a history of one upload, in chunks of any size, under a name that is accepted, after which a download of that name is served from a file that is the content |
| `CloudRuns.InstantIsServed` | server/puts.c:57-77 | The same without a byte sent when a file of the length of the content is stored and has a row |
| `CloudRuns.CommandsHappen` | server/bussiness.c:82-160 | Any run of other commands can happen whatever uploads are under way |
| `WheelSpec.BucketIsRemainder` | server/timeWheel.c:20-22 | The bucket of a descriptor is its remainder by the table size |
| `WheelAgreement.ResizeKeepsMapping` | server/timeWheel.c:33-54 | Resizing keeps every node once and in its right bucket, and the descriptor-to-slot mapping, for any collisions |
| `WheelAgreement.ResizeTurnsChains` | server/timeWheel.c:40-50 | A resize leaves in each bucket the nodes of one old bucket that belong there, in the opposite order |
| `WheelAgreement.AddAgreesExactly` | server/timeWheel.c:123-140 | Adding a descriptor keeps rings and table in agreement (fd maps to i exactly when fd occurs once in ring i, and the count is the number of nodes) if and only if it is not waiting already |
| `WheelAgreement.DetachKeepsAgree` | server/timeWheel.c:161-172 | Taking a descriptor out of the ring it is in and out of its chain keeps the agreement |
| `WheelAgreement.RemoveWorksExactly` | server/timeWheel.c:143-172 | removeUser and updateUserTimeout of a waiting descriptor keep the agreement if and only if the first node of its bucket names the ring it is in |
| `WheelExamples.CrowdedBucket` | server/timeWheel.c:161-172 | Descriptors 0 and 128 in a new wheel: removing the older one leaves it in its ring without an entry |
| `WheelRuns.AloneInBucket` | server/timeWheel.c:161-167 | While descriptors stay below the table size, a waiting one heads its bucket and the bucket of any other is empty |
| `WheelRuns.RemoveIsDetach` | server/timeWheel.c:161-172 | So removal finds the right ring, and does nothing for strangers |
| `WheelTick.TickReturnsExactly` | server/timeWheel.c:178-190 | The loop of a tick of an agreeing wheel ends if and only if the ring is empty, its first node is not found in it, or every node is; found means that the first entry left in its bucket when its turn comes names the current slot. (`TickReturnsUnlessStuck` is about all other wheels) |
| `WheelEnds.TickReturnsUnlessStuck` | server/timeWheel.c:178-190 | On any wheel at all, the loop of a tick ends if and only if it does not come to go round nodes that no visit removes, with the first node of the ring unlinked; which of the two shows within (nodes + entries + 1)(2 ring length + 1) visits |
| `WheelReuse.CoveredTickReturns` | server/timeWheel.c:178-190 | Every tick ends when every node of every ring has an entry and descriptors are below the table size, whether rings and table agree or not |
| `WheelExamples.TickCanHang` | server/timeWheel.c:178-190 | A wheel built with three additions whose tick never ends |
| `WheelTick.EverybodyIsVisited` | server/timeWheel.c:178-190 | In any wheel at all, a tick that ends has closed the whole ring in order, and behind that only members of it again |
| `WheelTick.TickKeepsAgree` | server/timeWheel.c:175-194 | A tick that ends takes exactly the current ring out of both structures and moves on one slot, also when some nodes stay in the ring until it is forgotten |
| `WheelTick.TickEvicts` | server/timeWheel.c:175-194 | After such a tick exactly the users of the current slot are gone |
| `WheelTick.EndOfTick` | server/timeWheel.c:178-190 | It closes each user of the ring once, in order, and the last of two or more a second time exactly when they all leave the ring; the extra pass removes nobody |
| `WheelRuns.TickReturnsInRange` | server/timeWheel.c:178-190 | With rings and table in agreement and descriptors below the table size, a tick closes each user of the ring in order and the last of two or more twice |
| `WheelRuns.OpKeepsExactly` | server/timeWheel.c:123-194 | An operation keeps rings and table in agreement if and only if it adds nobody who is waiting and removes or refreshes nobody whose bucket is headed by a node of another ring |
| `WheelRuns.RunsAgreeExactly` | server/timeWheel.c:123-194 | They agree in every state of a run if and only if each of its operations is of that kind |
| `WheelRuns.RunsStayInRange` | server/timeWheel.c:123-194 | In particular they do in runs that add only new descriptors below the table size |
| `WheelRuns.EmptyInRange` | server/timeWheel.c:197-211 | A new wheel agrees, and nobody in it is beyond the table |
| `WheelReuse.OpKeepsCovered` | server/timeWheel.c:123-194 | Every operation on descriptors below the table size, waiting or not, happens, keeps an entry for every node and all descriptors below the size |
| `WheelReuse.RunsStayCovered` | server/timeWheel.c:123-194 | So in every run of such operations, reuse of waiting descriptors included, every tick ends |
| `WheelReuse.EveryTickEnds` | server/timeWheel.c:197-211 | From a new wheel every run on descriptors below the table size of the moment, and so every run on descriptors below 128, has only ticks that end |
| `WheelExpiry.ClosedExactly` | server/timeWheel.c:123-194 | In every run of any wheel, agreeing or not, a descriptor left alone is closed by the first tick that reaches a slot it waits in and by no earlier one, and never if it waits nowhere |
| `WheelExpiry.ClosedAtSoonerTurn` | server/timeWheel.c:123-140 | Added with timeout t to any wheel, it is closed by the sooner of tick number (t mod 60) + 1 and the turn it was still waiting for |
| `WheelExamples.FortyFiveTicks` | server/main.c:130-140 | With the server's timeout of 45, a descriptor added to a new wheel and left alone is closed by a run exactly when it has 46 ticks or more |
| `WheelExamples.ReuseEvictsEarly` | server/timeWheel.c:123-194 | A descriptor used again with timeout 45 while its old entry has one tick to go is closed by the second tick |
| `WheelExpiry.GoneAfterItsTurn` | server/timeWheel.c:175-194 | A descriptor that waits in one slot only is in the wheel until that slot's turn and nowhere afterwards |
| `WheelExpiry.ExactExpiry` | server/timeWheel.c:123-194 | A new user added, or one refreshed where that works, with timeout t and then left alone is closed by tick number (t mod 60) + 1 and by no earlier one and is gone from then on, whatever happens to others; a refresh also enters one who did not wait, when its bucket holds another |
| `WheelCost.AddCounted` | server/timeWheel.c:57-69 | An addition counts one more and doubles the table exactly when it is three quarters full |
| `WheelCost.ResizesAreAmortised` | server/timeWheel.c:33-69 | Over every run from a new wheel, with any descriptors, the table is at most three quarters full, has size 128 doubled some number of times, and all resizes together move at most two nodes per insertion |
| `WheelCost.CreditPaysForMoves` | server/timeWheel.c:33-69 | The amortised bound from any wheel whose count is right, by the potential max(0, 2 count - 3/4 size) |
| `HashChains.Rehang` | server/timeWheel.c:43-48 | One node moves from the front of an old chain to the front of its new one; all other chains stay |
| `HashChains.MoveBucket` | server/timeWheel.c:41-49 | The inner loop moves one whole chain, as the value-level function says |
| `HashChains.Walk` | server/timeWheel.c:72-88 | The search along a chain stops at the first node with the descriptor; without that node the chain is what deletion makes of it |
| `HashChains.MoveAll` | server/timeWheel.c:40-50 | The outer loop moves all chains, bucket by bucket, each node of the table once |
| `HashChains.Unlink` | server/timeWheel.c:75-81 | Unlinking the node after prev, or the first, leaves the chain without it |
| `SlotRings.Append` | server/timeWheel.c:130-137 | Linking a node in before the head makes a closed cycle with it at the end |
| `SlotRings.FindInRing` | server/timeWheel.c:99-118 | Going round from the head finds the first node with the descriptor, or none after one round |
| `SlotRings.Unlink` | server/timeWheel.c:104-115 | Unlinking a node leaves the closed cycle of the others and the node with null links |
| `TimeWheels.TimeWheel.constructor` | server/timeWheel.c:197-211 | Builds the empty wheel |
| `TimeWheels.TimeWheel.ResizeHashTable` | server/timeWheel.c:33-54 | The two loops over buckets and chains compute the doubled table of the value-level function, moving every node once |
| `TimeWheels.TimeWheel.InsertToHashTable` | server/timeWheel.c:57-69 | Resizes when three quarters full, prepends a node and counts it; moves as many nodes as the cost bound charges |
| `TimeWheels.TimeWheel.DeleteFromHashTable` | server/timeWheel.c:72-89 | Unlinks the first node with the descriptor and lowers the count, or changes nothing |
| `TimeWheels.TimeWheel.RemoveUserFromList` | server/timeWheel.c:92-120 | Takes the first node with the descriptor out of the ring; removed nodes have null links |
| `TimeWheels.TimeWheel.AddUser` | server/timeWheel.c:123-140 | Does to the linked lists what the value-level addition does, at the cost charged for it |
| `TimeWheels.TimeWheel.UpdateUserTimeout` | server/timeWheel.c:143-158 | Does to the linked lists what the value-level update does, at the cost charged for it |
| `TimeWheels.TimeWheel.RemoveUser` | server/timeWheel.c:161-172 | Does to the linked lists what the value-level removal does |
| `TimeWheels.TimeWheel.VisitNode` | server/timeWheel.c:180-189 | One pass of the loop on any wheel is one step of the value-level loop: who is removed, who is still linked, and whether the next pointer read before leads to the first node, to no node or to which |
| `TimeWheels.TimeWheel.VisitAll` | server/timeWheel.c:178-190 | The do-while loop ends whenever the value-level loop does, with the same wheel and having closed the same users |
| `TimeWheels.TimeWheel.Tick` | server/timeWheel.c:175-194 | On every wheel on which its loop ends, does what the value-level tick does and closes the users it closes, in order |
| `ByteStream.Channel.SendN` | server/server.c:68-84 | Sends all bytes in order, however little each send accepts |
| `ByteStream.Channel.RecvN` | server/server.c:87-106 | Receives exactly the bytes asked for, or what there is, under any schedule of short receives, and leaves the rest |
| `ByteStream.AnySplit` | server/server.c:87-106 | The schedules it does so under are all there are: a receive may yield any number of bytes up to what is there and asked for, and the next go on in any way |
| `ByteStream.NumberRoundTrip` | client/puts.c:35-63 | A number written as little-endian bytes reads back |
| `ByteStream.SignedRoundTrip` | server/puts.c:25-62 | So does a signed one |
| `ByteStream.LaterBytesCountMore` | client/puts.c:35-63 | Numbers are little-endian: every further byte counts 256 times as much |
| `Frames.FrameRoundTrip` | client/client.c:179-193 | A frame decodes to its message and leaves what is behind it |
| `Frames.HandleMessage` | server/bussiness.c:36-77 | Reading one frame off a connection is the decoding function, on every byte string: closed, enqueued or dropped, and how much is consumed |
| `Frames.HandledExactly` | server/bussiness.c:36-77 | Closed exactly when at most four bytes are left; dropped exactly when the length is negative or promises content and none follows; otherwise a task with the type from the second four bytes and as much of the content as there is |
| `Frames.HandleAll` | server/bussiness.c:29-78 | A stream of frames is handled to the same sequence of messages |
| `Frames.Conversation` | client/client.c:138-193 | Any sequence of messages arrives as sent, for every fragmentation |
| `FileTransfer.SendBlocks` | client/puts.c:113-126 | The block loop sends the rest of the file up to the first block end at or behind the length |
| `FileTransfer.SendThroughPipe` | client/puts.c:83-108 | The pipe loop does the same in larger pieces, on every file as long as announced |
| `FileTransfer.SentLengthExactly` | client/puts.c:83-127 | Up to 1024000 bytes go in blocks of 1000 and more in pieces of 4096: all there is, or up to the first end of a piece at or behind the length |
| `FileTransfer.PipeSendEndsExactly` | client/puts.c:87-105 | The pipe loop ends if and only if the file is as long as announced |
| `FileTransfer.SendFile` | server/gets.c:79-127 | Sends exactly the rest of the file when the announced length is that rest |
| `FileTransfer.RecvBlocks` | server/puts.c:131-143 | The block loop writes exactly the announced bytes and leaves the stream at the message boundary |
| `FileTransfer.ReceivingEndsExactly` | server/puts.c:111-143 | The block loop and, under every schedule, the pipe loop end if and only if the announced bytes arrive |
| `FileTransfer.RecvThroughPipe` | server/puts.c:101-127 | The pipe loop writes the bytes it takes, which can be more than announced |
| `FileTransfer.RecvFile` | client/gets.c:60-111 | Writes what it takes off the stream at the file position, exactly the announced bytes when nothing is queued behind them |
| `FileTransfer.WriteAtExactly` | server/puts.c:57-58 | What is written is there, what is not written over stays |
| `FileTransfer.SpliceStopsExactly` | server/puts.c:111-125 | The pipe stops at the end of the file under every schedule if and only if nothing is queued behind the file |
| `FileTransfer.Overshoot` | server/puts.c:111-125 | Otherwise some schedule makes it take more |
| `FileTransfer.OnlyLargeOvershoots` | server/puts.c:101-143 | With something queued behind the file, some schedule makes a receiver take more than announced if and only if more than 1024000 bytes are announced |
| `FileTransfer.OnePass` | server/puts.c:111-125 | A pass takes at most 4096 bytes, and may take any number up to that |
| `FileTransfer.Puts` | server/puts.c:25-93 | A whole upload leaves the stored file with what it had and the rest of the content from there on, and is instant exactly when the sizes are equal |
| `FileTransfer.Gets` | client/gets.c:10-55 | A whole download leaves the local file with what it had and the rest of the content from there on |
| `FileTransfer.ResumedIsContent` | client/gets.c:33-46 | That is the content if and only if the receiver had a prefix of it |
| `Uploads.StepKeeps` | server/puts.c:45-92 | Every step of every session, whatever is queued behind the file it receives, keeps each stored file a prefix of its content or the content a prefix of it, every session writing within or at the end of its file, finished ones with the whole content stored, and no file gets shorter |
| `Uploads.RunsStayAligned` | server/puts.c:45-92 | The same after every run of any number of concurrent or abandoned sessions |
| `Uploads.StepWithinExactly` | server/puts.c:111-125 | A stored file is no longer than its content after a step if and only if it was not before and the step does not write past the end |
| `Uploads.RunsWithinExactly` | server/puts.c:111-125 | After a run a stored file is a prefix of its content if and only if it was before and no step of the run has written past the end |
| `Uploads.StoreWithinExactly` | server/puts.c:111-125 | The whole store consists of prefixes if and only if no write of the run goes past any end |
| `Uploads.LargeUploadSpoils` | server/puts.c:111-125 | For every content longer than 1024000 bytes and every message behind it, some run from an empty store leaves a stored file of the content and the first byte of the message |
| `Uploads.FinishedMeansStored` | server/puts.c:65-92 | A session that is over, by transfer or instantly, left a file that begins with the whole content, and is the content if and only if nobody has written past its end |
| `Uploads.UninterruptedUpload` | server/puts.c:45-92 | A session that is not interrupted writes, in chunks of any size, what a whole upload leaves in the stored file |
| `Uploads.InstantUpload` | server/puts.c:57-77 | A session on a file of the length of the content ends at once and leaves all files as they were |
| `Uploads.OverlongEnds` | server/puts.c:65-92 | A session on a file that has outgrown the content announces a negative length and ends as one that was sent, without writing |
| `TaskQueues.TaskQueue.Append` | server/task_queue.c:43-60 | The linked list appends to a FIFO sequence and keeps its length, as the pool's step for it says |
| `TaskQueues.TaskQueue.TakeFirst` | server/task_queue.c:71-86 | Behind the waiting loop a worker takes the first task, or none once the flag is down: the pool's step of that worker |
| `TaskQueues.TaskQueue.LowerFlag` | server/task_queue.c:89-97 | Lowering the flag is the pool's step for it |
| `WorkerPool.StepKeepsWorkers` | server/task_queue.c:63-97 | One thread at a time has the mutex, who waits has seen an empty queue, and nobody passes the waiting loop on an empty queue while the flag is up |
| `WorkerPool.StepAttends` | server/task_queue.c:43-69 | While somebody sleeps, no more tasks wait than there are workers awake, or a signal due, to look at them |
| `WorkerPool.NoLostWakeup` | server/task_queue.c:43-69 | With all workers asleep and no signal due the queue is empty, in every state any pool can reach before shutdown |
| `WorkerPool.ExactlyOnceInOrder` | server/thread_pool.c:5-21 | What was enqueued is what was dequeued, in order, followed by the queue; each dequeued task is executed or in one worker's hands; nobody takes from an empty queue |
| `PoolProgress.TakesFirst` | server/task_queue.c:68-79 | A worker that finds a task has the first one in hand two steps later, and has executed it and is back at the lock after a third |
| `PoolProgress.SleepsAndWakes` | server/task_queue.c:68-70 | A worker that finds none sleeps, and can be woken by a signal or spuriously to look again |
| `PoolProgress.TasksGetDone` | server/thread_pool.c:5-21 | From every state a pool with workers can reach before its flag goes down, some run of the workers, without new tasks or spurious wakeups, executes everything that was enqueued and empties the queue |
| `PoolProgress.TasksDoGetDone` | server/thread_pool.c:5-21 | And every such run does: it has at most 4 queued + 7 workers + 9 steps, and where nobody can go on all has been executed |
| `PoolProgress.WorkIsBounded` | server/task_queue.c:43-97 | Every run without new tasks and spurious wakeups, the shutdown included, is bounded by the work there is at its start |
| `PoolProgress.WorkerGoesOn` | server/task_queue.c:63-86 | Nothing holds a worker back but the mutex in other hands, or a sleep from which it can wake spuriously |
| `PoolProgress.MainGoesOn` | server/thread_pool.c:53-69 | Nothing the workers do holds the main thread back, but the mutex in their hands before it appends, a task in the queue before it lowers the flag, and workers yet to exit before the joins return |
| `PoolProgress.QueuesUp` | server/task_queue.c:43-60 | Any tasks can be waiting at once |
| `WorkerPool.StoppedMeansDone` | server/thread_pool.c:53-69 | Once the joins have returned, every task ever enqueued has been executed |
| `WorkerPool.ShutdownEndsExactly` | server/task_queue.c:89-97 | The shutdown can end without spurious wakeups if and only if, at the broadcast, no worker is between its decision to wait and its waiting |
| `WorkerPool.ShutdownDoesEnd` | server/thread_pool.c:53-69 | And then every run of it ends, within four steps per worker and the return of the joins |
| `WorkerPool.ShutdownCanHang` | server/task_queue.c:89-97 | One worker that has just found the queue empty is enough for it to hang |
| `PoolProgress.CanAlwaysStop` | server/thread_pool.c:53-69 | From every reachable state between two tasks, whatever waits, some run without spurious wakeups executes all that was enqueued and ends with the joins returned |
| `PoolProgress.WholeLife` | server/thread_pool.c:5-69 | For every pool size and all tasks there is a run from start to stop in which some wait all at once and the others come one by one, and each is executed once |
| `ConfigTable.ComputeHash` | server/hashtable.c:4-10 | The loop computes the 32-bit hash with signed characters, reduced to a slot |
| `ConfigTable.HashIsBase33` | server/hashtable.c:4-10 | The hash is the key read as a number to the base 33, its characters signed, as a 32-bit number modulo 100: wrapping around at every character is wrapping around once |
| `ConfigTable.StepIsModulus` | server/hashtable.c:22-26 | Probing goes on by one slot, round the end |
| `ConfigTable.InsertEndsExactly` | server/hashtable.c:22-37 | The probe loop of an insertion ends if and only if a slot is free or holds the key; the home slot is compared only after a whole round |
| `ConfigTable.FindEndsExactly` | server/hashtable.c:40-49 | The probe loop of a search ends if and only if a slot is free or holds the key |
| `ConfigTable.HashTable.Insert` | server/hashtable.c:22-37 | Whenever it ends, the probe loop writes what the value-level insertion writes; the size counts used slots |
| `ConfigTable.HashTable.Find` | server/hashtable.c:40-49 | Whenever it ends, the probe loop returns what the value-level lookup returns |
| `ConfigTable.InsertKeepsForm` | server/hashtable.c:22-37 | The table stays a map if and only if the key was not in its home slot, or no other slot was free |
| `ConfigTable.SecondInsertHidden` | server/hashtable.c:22-37 | Every key inserted twice into an empty table is stored twice and keeps its first value |
| `ConfigTable.FindsInserted` | server/hashtable.c:22-49 | A search after an insertion finds the new value, unless the key was in its home slot with another slot free, where the old value hides it |
| `ConfigTable.FindsOthers` | server/hashtable.c:22-49 | Every other key is found, or not found, as before |
| `ConfigTable.TableIsMap` | server/hashtable.c:13-49 | After fewer than a hundred insertions of distinct non-empty keys, wrap-around included, every key inserted is found with its value and no other is |

## Left out

- Interleaving of the SQL statements of different workers: the handlers take no lock across their updates, so the link count theorems hold for handlers that run one at a time.
- Connection handling: MySQL client calls, query text, pooling, sockets, epoll, process and signal handling, logging, login, registration and password hashing.
- `ls`, client menus and the command words: display and parsing without state.
- `real_del` and `get_hash`: physical deletion is not called by any command; the model stops at which contents are offered for it.
- `linked_list.c`: the list of connected users is not part of this model.
- `erase` and `destroyHashTable` in `server/hashtable.c`, `destroyTimeWheel`: tearing down, or not used by any command.
- Null pointers: where the resolver or a path query returns NULL the handlers go on and crash; the model lets the command fail without a change to the tables.
- Memory lifetime: freed nodes and rows stay valid objects. The extra pass of a tick reads a node that C has freed, and closes its descriptor a second time, which the model shows as a second close.
- `..` behind ordinary names in a path: kept as a name, as the source's own note says; no row has that name.
- RmdirCommand: the number returned counts files of others below the directory and subtracts one for each directory of others, as the code does; `TallyExactly` says when it is files plus empty directories.
- The size column of a resumed upload: the source records the length sent last; the model carries the number through without a claim about it.
- Early exits of transfers: a client file that cannot be opened, a name without a row, or a stored file that cannot be opened end the exchange early; no stored content and no table changes.
- SendThroughPipe: stated for files as long as announced, on which alone the source's loop ends (`PipeSendEndsExactly`); assumes that what went into the pipe comes out of it in one splice.
- RecvBlocks: stated for streams that hold the announced bytes, on which alone the source's loop ends (`ReceivingEndsExactly`); behind the end of a shorter one it does not advance.
- HandleMessage: contents longer than 1000 bytes, which overrun the source's buffer, are decoded as if it were larger; the theorems are about contents that fit.
- Tick: stated for wheels on which its loop ends, which `TickReturnsExactly` tells for agreeing wheels and `TickReturnsUnlessStuck` for all.
- ShutdownEndsExactly: says nothing about spurious wakeups, which can end a shutdown that hangs.
- Find: keys longer than 49 bytes overrun their slot in the source and are not distinguished here.
