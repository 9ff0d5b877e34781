# A verified model of the Delta Chat core

The project models the parts of the Delta Chat core library whose correctness is least visible in the code, and proves
properties of them for all inputs, all runs or all interleavings:

- the case-insensitive hash table on one doubly linked list (`HashTable`, with `StrHash`, `Segments`, `Bits`), and the
  overlay of protected headers built on it (`HeaderOverlay`);
- the SMTP worker: the handshake that suspends it, its wake-up flags, its job queue and the messages the queue sends
  (`SmtpThread`, `SmtpExclusion`, `SmtpDelivery`);
- the cursor that remembers which messages of an IMAP folder are done (`ImapCursor`, `ImapNoGap`);
- the Autocrypt state of a peer, from the key objects in memory to the rows of the table, and the decision to encrypt
  (`PeerState`, `PeerTable`, `PeerConvergence`, `E2ee`);
- the codecs and small stores: the Autocrypt header (`AHeader`), base64 (`Base64`), the packed parameters
  (`ParamStore`), decimal numbers (`Decimal`), the CRC-24 of OpenPGP (`Crc24`);
- read receipts (`Receipts`).

`dafny verify dfyconfig.toml` checks everything.

## How the code is modelled

Code that changes fields, buffers or pointers is a class or a loop, and each method is proved equal to a function of
its inputs or of the old state; the properties are then proved of these functions. Threads are a state machine whose
steps are the sections under the mutex, the single SQL statements and the single attempts to perform a job; a run is
any sequence of enabled steps, so the theorems over runs hold for all interleavings. A table is a map or a sequence of
rows. The network, the server, OpenPGP, the clock and the online check are parameters of the steps, that is, anything
they might answer is allowed. A C string is a sequence of characters without the terminating NUL, a `char` standing for
one octet. A pointer that may be NULL is an `Option`. `int32_t`, `uint32_t` and the 24 and 31 bit arithmetic are written
out with remainders and recursively defined bitwise operations. Allocation is taken to succeed.

## What turned out

- All keys that the hash table takes for equal to a key have its hash exactly if the key has no NUL before its last
  octet: the comparison stops at a NUL, the hash does not (`StrHash.HashAgreesWithCompareIff`).
- The flag that jobs are needed is overwritten when a failed job asks for a pause; only the separate condition flag
  keeps the wake-up (`SmtpExclusion.NeededFlagIsNotEnough`).
- `last_online_state == is_online;` (src/dc_job.c:647) compares and does not assign, so no failed attempt is ever
  counted and a job is never given up (`SmtpDelivery.NeverGivenUp`). The branch that gives up (src/dc_job.c:661-666) is
  in the model and is never taken.
- "Exactly one job for each pending message" needs fresh message ids. The tables are declared without AUTOINCREMENT, so
  the id of a deleted last message is given out again, and the new message may then also have the job of the old one
  (`SmtpDelivery.InheritedJob`). That two job rows of one message cannot come about, now or later, holds exactly if
  every message got an id that no old job and no old sender has (`SmtpDelivery.StaysSingleThroughoutIff`).
- A message without a job gets stuck. The one step that makes one is an attempt at its only job that reaches the server
  while no account address is configured (src/dc_job.c:320-325): the job is dropped and the message stays pending
  (`SmtpDelivery.NothingStuckThroughoutIff`, `SmtpDelivery.StuckWithoutAddress`).
- The cursor of a folder can move down: a call whose range lies behind the last message reads that message once more
  (`ImapCursor.CursorMovesDownIff`, and in a run `ImapNoGap.CursorMovesDown`). No message is missed by it
  (`ImapNoGap.NoGap`).
- The gossip time is stored with 64 bits and loaded with 32 (src/dc_apeerstate.c:86). Loading undoes saving, and gossip
  converges, exactly as far as this does no harm (`PeerTable.LoadAfterSaveIff`, `PeerConvergence.ConvergenceIff`).
- An address survives printing, folding and parsing of the Autocrypt header exactly if it is normalized, passes the
  rough check, does not begin with `=` and has no semicolon, space or tab (`AHeader.RoundTripIff`).
- The comment at src/dc_apeerstate.c:476 says that the verified state is reset when a fingerprint changes. The code does
  not do that, and neither does the model. Within one object a verified key is the same key object as the key it was
  verified by, so a key applied to that object later also changes the verified key, without its fingerprint
  (`PeerState.PeerObject.ApplyHeader`, exact condition in `PeerTable.ChangeKeepsIff`); the callers load, change and save,
  and over their transactions only verifying a key of a peer changes the verified key of that peer
  (`PeerTable.RunKeeps`).

## Model

| member | source | states |
|---|---|---|
| CStrings.LowerIff | src/dc_hash.c:51-67 | two characters fold alike exactly if they are the same or the two cases of one ASCII letter |
| CStrings.EqualNoCaseIff | src/dc_hash.c:74-81 | folded texts are equal exactly if the texts have one length and agree so at every position |
| CStrings.TrimOfPadded | src/dc_tools.c:81-123 | trimming takes away the white space at both ends and nothing else |
| StrHash.NoCaseHash | src/dc_hash.c:88-97 | the hashing loop computes the mixed, masked hash of the folded key |
| StrHash.StrNICmp | src/dc_hash.c:74-81 | the comparison is 0 exactly if the strings agree up to case in the first n octets or up to a common NUL |
| StrHash.StrCompare | src/dc_hash.c:200-204 | two keys compare equal exactly if their lengths agree and the comparison finds no difference |
| StrHash.SameKeyIsEqualNoCase | src/dc_hash.c:74-81 | for a key without a NUL before its last octet, comparing equal is being equal after case folding |
| StrHash.FoldDeterminesMix | src/dc_hash.c:88-97 | keys with the same folding have the same hash |
| StrHash.LastLetterMatters | src/dc_hash.c:88-97 | two keys that differ only in a last letter, `a` or `b`, have different hashes |
| StrHash.HashAgreesWithCompareIff | src/dc_hash.c:74-97 | all keys that compare equal to a key have its hash, if and only if the key has no NUL before its last octet |
| StrHash.HashBits | src/dc_hash.c:88-97 | one more letter changes each of the 31 bits of the hash to the sum, modulo 2, of the bit, the bit three below it and the bit of the lower-case letter; the empty key has hash 0, and every hash is below 2^31 |
| StrHash.SameKeySameSlot | src/dc_hash.c:420-421 | keys that compare equal are searched in the same bucket, for every table size |
| Bits.MaskIsRemainder | src/dc_hash.c:421 | masking with a power of two minus one is the remainder, so a bucket number is below the table size |
| Segments.InsertKeepsContiguous | src/dc_hash.c:272-295 | inserting before the head of a bucket keeps every bucket one contiguous stretch of the list |
| Segments.RemoveKeepsContiguous | src/dc_hash.c:362-396 | removing a node keeps every bucket one contiguous stretch of the list |
| Segments.CountsCoverList | src/dc_hash.c:272-295 | the counts of the buckets add up to the length of the list |
| HashTable.Table.LinkBefore | src/dc_hash.c:276-291 | the pointers after linking run through the old list with the new node at its place, both ways |
| HashTable.Table.InsertElement | src/dc_hash.c:272-295 | the list and all buckets agree again, with exactly the new node added |
| HashTable.Table.Rehash | src/dc_hash.c:303-322 | rebuilding the buckets for a new size keeps all nodes and restores the agreement of list and buckets |
| HashTable.Table.FindElement | src/dc_hash.c:330-355 | walking one bucket finds the node of the folded key, or nothing exactly if there is none in the whole table |
| HashTable.Table.Unlink | src/dc_hash.c:367-375 | the pointers run through the old list without the node, both ways |
| HashTable.Table.RemoveElement | src/dc_hash.c:362-403 | exactly the node is gone, and list and buckets agree |
| HashTable.Table.Find | src/dc_hash.c:411-425 | the answer is that of the partial map over folded keys, for every spelling of the key that differs in case alone |
| HashTable.Table.Insert | src/dc_hash.c:443-519 | the map is updated, or the key removed for no data, and the previous data is returned; resizing, from 0 to 8 buckets and then twice as many whenever the count exceeds them, is not visible in the map |
| HashTable.Table.Clear | src/dc_hash.c:134-156 | the map is empty |
| HashTable.Run | src/dc_hash.c:411-519 | every sequence of find, insert, delete and clear answers what it answers on a partial map over folded keys |
| HashTable.RunOnNew | src/dc_hash.c:411-519 | on a new table each operation answers what the last operation before it stored for a key that is the same up to the case of ASCII letters, and nothing exactly if there is none or it deleted or cleared |
| HashTable.BucketsPartitionList | src/dc_hash.c:272-322 | in every table next and prev are inverse on one acyclic list, the buckets are disjoint stretches holding exactly the nodes of their slot, the counts sum to the count, which is at most the size, and the size is 0 or a power of two |
| HeaderOverlay.HashHeader | src/dc_mimeparser.c:1399-1454 | merging a header list into the table is filing its fields one after another |
| HeaderOverlay.SetUpHeader | src/dc_mimeparser.c:1501-1503 | the header table is that of the root fields followed by the protected fields |
| HeaderOverlay.LookupField | src/dc_mimeparser.c:1693-1696 | looking up a name answers from the merged map |
| HeaderOverlay.LookupIsWinner | src/dc_mimeparser.c:1399-1454 | a name is found exactly if a field has it; found is the last standard or Chat- field of the name, or, if there is none, the first field of the name |
| HeaderOverlay.WinnerIsUnique | src/dc_mimeparser.c:1399-1454 | there is only one such field |
| HeaderOverlay.LookupOfStandard | src/dc_mimeparser.c:1399-1454 | looking up `From`, `Date` and the ten other standard names, in any case, finds the last field of that type |
| HeaderOverlay.LookupOfOptional | src/dc_mimeparser.c:1399-1454 | looking up any other name finds the last field that bears it if the name begins with `Chat-` and goes on, and else the first |
| HeaderOverlay.LookupOfNone | src/dc_mimeparser.c:1399-1454 | a name that no field has is not found |
| SmtpThread.Context.InterruptSmtpIdle | src/dc_job.c:961-971 | an interrupt asks for jobs at once and sets the condition flag |
| SmtpThread.Context.EnterIdle | src/dc_job.c:886-910 | the idle function returns, waits or spins exactly as its flags say, with the flags it leaves behind |
| SmtpThread.Context.ContinueIdle | src/dc_job.c:896-907 | the same after a wait that was signalled, woke spuriously or timed out |
| SmtpThread.Context.PollIdle | src/dc_job.c:449-457 | a suspending call goes on only if the SMTP thread idles, and then clears the needed flag |
| SmtpExclusion.HandshakeAlways | src/dc_job.c:439-461 | in all runs the idle mark is set exactly while the SMTP thread is in its idle loop, the suspend flag exactly while a suspending call or job is under way |
| SmtpExclusion.ExclusiveJobRunsAlone | src/dc_job.c:587-617 | from the return of the suspending call to the end of the suspension no step of the SMTP jobs is possible, in any interleaving |
| SmtpExclusion.SuspendWaitsForJobs | src/dc_job.c:446-460 | a suspending call returns exactly when the SMTP thread is blocked in its wait |
| SmtpExclusion.NoticedKept | src/dc_job.c:469-502 | every step keeps every job row known to the last selection, still to be signalled, flagged, or seen by the next selection |
| SmtpExclusion.NoLostWakeup | src/dc_job.c:886-910 | the thread never waits with the flag unset while there is a row whose adding was completed after the last selection |
| SmtpExclusion.NoWaitWithNewJob | src/dc_job.c:886-910 | with such a row the idle function returns at once |
| SmtpExclusion.NeededFlagIsNotEnough | src/dc_job.c:655-659 | a run in which a retry overwrites the request of a new job, and without the condition flag the thread would wait |
| SmtpExclusion.RequestAfter | src/dc_job.c:961-971 | the needed flag after every step: an interrupt asks at once, a round or a suspending call takes the request back, a failed job asks for a pause, nothing else touches it |
| SmtpExclusion.ConditionAfter | src/dc_job.c:886-910 | the condition flag is set by an interrupt alone and consumed exactly by the wake-up that leaves the idle function |
| SmtpExclusion.IdleIff | src/dc_job.c:886-910 | the idle function returns exactly on a request at once, or on the condition or after the time if it is not suspended; otherwise it waits, or spins exactly if it is suspended with the condition set |
| SmtpExclusion.SuspensionAfter | src/dc_job.c:439-461 | when the suspend flag is set and when a suspending call is let in |
| SmtpExclusion.BookkeepingAfter | src/dc_job.c:469-502 | after every step, who still has to interrupt, which rows the last selection saw, and which messages wait for their sender |
| SmtpExclusion.RestsWithoutWork | src/dc_job.c:852-913 | without due jobs and a new interrupt the thread waits after one empty round, whatever request brought it out of the idle function |
| SmtpExclusion.SelectedIff | src/dc_job.c:485-494 | a new job is in a selection exactly from the end of its delay on, and at once without a delay |
| SmtpExclusion.NewJobComesLast | src/dc_job.c:571 | a new job comes behind all jobs of its kind added before |
| SmtpExclusion.SelectionsAgree | src/dc_job.c:571-573 | the table determines the actions of a selection and their order, messages before receipts |
| SmtpDelivery.RowsHoldKept | src/dc_job.c:573-583 | the rows of a selection stay in the table, with the same action and message, until it is their turn |
| SmtpDelivery.NothingStuckIff | src/dc_job.c:301-396 | a step leaves a pending message without a job, if and only if it is an attempt at the only job of a message that reaches the server and finds no account address |
| SmtpDelivery.NothingStuckThroughoutIff | src/dc_job.c:320-325 | through a whole run every pending message has its sender or a job that will still send it, if and only if no step of the run is such an attempt |
| SmtpDelivery.NoStuckMessage | src/dc_chat.c:2042-2061 | after every run without such an attempt every pending message whose sender is done has a job row that will still send it |
| SmtpDelivery.ConfiguredDropsNoJob | src/dc_job.c:320-325 | no step is such an attempt as long as the address is configured |
| SmtpDelivery.NeverGivenUp | src/dc_job.c:619-667 | a job that failed in a way worth retrying keeps its row, due at once, and its message stays as it was |
| SmtpDelivery.AttemptRecords | src/dc_job.c:301-396 | which attempts record their message as delivered, which as failed, and that all others record nothing |
| SmtpDelivery.SentIsDelivered | src/dc_job.c:370-376 | a mail the server took, or that has no recipients, is recorded as delivered |
| SmtpDelivery.OnlyAttemptsRecord | src/dc_job.c:594-671 | no step but an attempt changes the state of a message that stays |
| SmtpDelivery.AttemptEnds | src/dc_job.c:594-671 | a refused mail is tried once more at once; after the last attempt its job stays exactly if there was no connection, the file is not complete or the mail was refused, is due at once but for the file, and a pause follows exactly if it stays for another reason and the host is online; other jobs are not touched |
| SmtpDelivery.GivesUpIff | src/dc_job.c:644-667 | on any state, reached or not: a job is given up, and its message failed, exactly at five failures counted online in succession; below that it stays with the new count |
| SmtpDelivery.DeliveredMeansSent | src/dc_job.c:301-396 | whatever message is delivered at the end of a run and was not at its start, some step of the run was an attempt at its own job in which the server took it, not in plain text if encryption was guaranteed, or it had no recipients |
| SmtpDelivery.FreshIdIff | src/dc_chat.c:2042-2061 | after a step no way to go on with fresh ids ever makes two job rows of one message, if and only if the step inserts no message or one with an id that no old job and no old sender has |
| SmtpDelivery.StaysSingleThroughoutIff | src/dc_chat.c:2060-2061 | the same at every point of a run, if and only if every message of the run got such an id |
| SmtpDelivery.ExactlyOneJob | src/dc_chat.c:2042-2061 | with fresh ids, and no job dropped, every pending message whose sender is done has exactly one job row |
| SmtpDelivery.JobEndsWithRecord | src/dc_job.c:301-396 | with fresh ids, and no job dropped, the row of a sending job disappears only when its message is delivered, failed or gone |
| SmtpDelivery.InheritedJob | src/dc_chat.c:2060-2061 | a run after which a pending message has two jobs, one of them of a deleted message with the same id |
| SmtpDelivery.StuckWithoutAddress | src/dc_job.c:320-325 | a run without a configured address after which a message is pending and no job is left |
| ImapCursor.CursorRoundTrip | src/dc_imap.c:94-129 | the stored text of a cursor reads back as the cursor, for all 32 bit values, whatever follows a second colon |
| ImapCursor.NoColonIsNoCursor | src/dc_imap.c:104-116 | an entry without a colon reads as no cursor |
| ImapCursor.KeyIsInjective | src/dc_imap.c:99 | every folder has an entry of its own |
| ImapCursor.Imap.GetLastSeen | src/dc_imap.c:94-119 | reading the stored cursor of a folder, with zeros for a missing or malformed entry |
| ImapCursor.Imap.SetLastSeen | src/dc_imap.c:122-129 | only the entry of the folder changes, it reads back as the cursor, and the cursors of all other folders stay |
| ImapCursor.Imap.FetchSingleMsg | src/dc_imap.c:668-726 | the verdict is "later" exactly if the message could not be fetched and the connection is to be renewed; it is received exactly if it has a body and is not deleted |
| ImapCursor.Imap.ReadList | src/dc_imap.c:819-839 | the loop over the list counts messages and errors and finds the largest UID with a final verdict |
| ImapCursor.Imap.FetchFromSingleFolder | src/dc_imap.c:729-859 | the cursor stored, the messages received, the count returned and whether the connection is to be renewed, for all answers of a server; the cursors of all other folders stay |
| ImapCursor.StartsIff | src/dc_imap.c:755-803 | a call gets to reading exactly if the folder is selected and its UIDVALIDITY is the stored one, or not 0 with a last message in a folder not reported empty; from where it then reads |
| ImapCursor.ReconnectIff | src/dc_imap.c:755-859 | the connection is to be renewed exactly if it was, or a command the call sent lost the stream |
| ImapCursor.CursorAfterCall | src/dc_imap.c:819-843 | the cursor stays where the call started if a message was lost on a broken connection or none was read, and else is at the largest message read, in whatever order the server lists them |
| ImapCursor.ReadNext | src/dc_imap.c:819-839 | the listed messages are counted and received one after the other, in the order of the listing |
| ImapCursor.NewValidityReads | src/dc_imap.c:765-803 | in a folder seen for the first time nothing of what is there is read, after a change of the UIDVALIDITY just the last message, once more; the cursor is then at the last message |
| ImapCursor.BrokenFetchKeepsCursor | src/dc_imap.c:828-843 | a call in which the connection broke on a message leaves the cursor where it started |
| ImapCursor.ReceivedIff | src/dc_imap.c:711-717 | received are exactly the listed messages not yet seen that have a body and are not deleted |
| ImapCursor.CursorMovesDownIff | src/dc_imap.c:805-843 | a call makes the cursor smaller under the same UIDVALIDITY, if and only if there are messages, all of them are below the cursor, and the last one got a final verdict |
| ImapCursor.RangeBehind | src/dc_imap.c:805-816 | a listing from the cursor on is the last message alone, or ascending messages without the one at the cursor, up to the last one |
| ImapCursor.CalledFrom | src/dc_imap.c:805-843 | on an unchanging mailbox a call moves the cursor to the last message and reads nothing exactly if it was there already |
| ImapCursor.Quiescence | src/dc_imap.c:755-859 | on an unchanging mailbox, from any stored cursor and after a change of the UIDVALIDITY too, the call after a call reads nothing and leaves the cursor alone |
| ImapCursor.Imap.FetchUntilQuiet | src/dc_imap.c:921-923 | the fetch loop on an unchanging mailbox ends after at most two calls |
| ImapNoGap.RangeCovers | src/dc_imap.c:805-816 | a listing leaves out no message between the cursor and the last message listed, also if the range is turned round |
| ImapNoGap.NoGap | src/dc_imap.c:668-843 | in all runs with appends, deletions, resets and errors, every message on the server above the baseline and not above the cursor got a final verdict |
| ImapNoGap.AppendedIsJudged | src/dc_imap.c:668-843 | in all runs every message that comes after the folder was first read, under the same UIDVALIDITY, and is still there got a final verdict once the cursor has reached it |
| ImapNoGap.JudgedMeansRead | src/dc_imap.c:668-726 | a verdict comes only from a step that fetched this very message under its UIDVALIDITY, and that brought it, or brought nothing on a connection that was not broken |
| ImapNoGap.CallIsRun | src/dc_imap.c:729-859 | a call of the fetch function is a run of the machine and stores the same cursor |
| ImapNoGap.CursorMovesDown | src/dc_imap.c:819-843 | a run from a start without any cursor in which the cursor gets smaller under the same UIDVALIDITY |
| PeerState.PeerObject.RecalcFingerprint | src/dc_apeerstate.c:482-536 | both fingerprints are those of their keys; the flags say what changed |
| PeerState.PeerObject.InitFromHeader | src/dc_apeerstate.c:347-365 | a new peer of a header |
| PeerState.PeerObject.InitFromGossip | src/dc_apeerstate.c:368-384 | a new peer of a gossiped header |
| PeerState.PeerObject.DegradeEncryption | src/dc_apeerstate.c:387-402 | the preference is reset, and pausing is noted if it was mutual |
| PeerState.PeerObject.ApplyHeader | src/dc_apeerstate.c:405-442 | the whole new state of the object, including the verified key if it shares its object with the public key |
| PeerState.PeerObject.ApplyGossip | src/dc_apeerstate.c:445-470 | the same for the gossip lane |
| PeerState.PeerObject.SetVerified | src/dc_apeerstate.c:559-595 | the lane with the given fingerprint becomes the verified one, by sharing its key object |
| PeerState.PeerObject.PeekKey | src/dc_apeerstate.c:319-339 | the key to be used, or none if a key object has no data |
| PeerState.PeerObject.SetFromRow | src/dc_apeerstate.c:78-107 | a loaded peer is the row, with key objects of its own and a gossip time of 32 bits |
| PeerState.PeerObject.SaveToRow | src/dc_apeerstate.c:172-233 | the row after a save that writes everything, the times, or nothing |
| PeerTable.SelectiveSaveIsFull | src/dc_apeerstate.c:172-233 | after any sequence of changes to a loaded peer, the selective save leaves a row that loads like one written in full |
| PeerTable.LoadAfterSaveIff | src/dc_apeerstate.c:78-107 | loading what was saved gives the peer in memory, if and only if its gossip time fits into 32 bits |
| PeerTable.ChangeKeepsIff | src/dc_apeerstate.c:405-470 | a change to a peer in memory keeps each fingerprint that of its key, if and only if it does not write a key of another fingerprint into a key that is also the verified one |
| PeerTable.TransactionKeeps | src/dc_e2ee.c:852-873 | every transaction keeps of every row: each fingerprint is that of its key, 0 <= last Autocrypt time <= last time, the Autocrypt time does not decrease, only verifying a key of the row changes its verified key; and all rows but one are untouched |
| PeerTable.TransactionEvents | src/dc_apeerstate.c:387-536 | encryption paused is raised exactly when the row leaves mutual, fingerprint changed exactly when a non-empty fingerprint is replaced by a different or empty one |
| PeerTable.MailWithoutHeader | src/dc_e2ee.c:862-867 | a mail without a header, newer than the last header and no report, resets the preference, sets the time, keeps the keys and pauses encryption exactly if it was mutual; any other mail without a header changes nothing |
| PeerTable.MailWithHeader | src/dc_apeerstate.c:405-442 | a mail with a newer header sets both times, the preference and the public key with its fingerprint and nothing else; an older one changes nothing |
| PeerTable.GossipOnRow | src/dc_apeerstate.c:445-470 | gossip newer than the loaded time sets the gossiped key with its fingerprint and its time and nothing else; older gossip changes nothing |
| PeerTable.ScanOnRow | src/dc_securejoin.c:180-200 | scanning the fingerprint of the public key verifies this key and prefers encryption, nothing else; another fingerprint changes nothing |
| PeerTable.VerifyGossipOnRow | src/dc_receive_imf.c:640-647 | gossip from a verified sender verifies the gossiped key if it has a fingerprint, and changes nothing else |
| PeerTable.FirstRow | src/dc_apeerstate.c:347-384 | the whole row that the first header or gossip makes, and that nothing else makes one |
| PeerTable.HeaderIgnoredIff | src/dc_apeerstate.c:405-420 | a header changes nothing in a peer exactly if it is of another address, has no key or is not newer |
| PeerTable.GossipIgnoredIff | src/dc_apeerstate.c:445-460 | the same for gossip |
| PeerTable.ConfirmingSavesTimes | src/dc_apeerstate.c:405-442 | a newer header marks the times alone to be saved exactly if it has the key and the preference that are there |
| PeerTable.PeekedIff | src/dc_apeerstate.c:319-339 | on any peer: no key is handed out while a key has no data; else the verified key where demanded, and otherwise the public before the gossiped one |
| PeerTable.VerifiedIff | src/dc_apeerstate.c:559-595 | verifying succeeds exactly if the fingerprint is that of the key meant; then that key is the verified one, and nothing else changes |
| PeerTable.RunKeeps | src/dc_e2ee.c:728-873 | the same over every run of received mails, gossip, scans and verified gossip: the verified key of a row stays unless a step of the run verifies a key of this very row |
| PeerConvergence.Settles | src/dc_apeerstate.c:405-470 | after any mails with headers and any gossip of one address, in any order, the row says what the newest of each says |
| PeerConvergence.OrderDoesNotMatter | src/dc_apeerstate.c:347-470 | every order and interleaving of the same news ends with the same keys, fingerprints, preference and times |
| PeerConvergence.ConvergenceIff | src/dc_apeerstate.c:445-470 | all orders end with the newest gossip, if and only if every older gossip time is at most what the newest one loads as |
| PeerConvergence.SmallTimesFit | src/dc_apeerstate.c:86 | the condition holds for all times below 2^31 |
| E2ee.Encrypt | src/dc_e2ee.c:337-390 | encrypts exactly if not forced plain, wanted or guaranteed, the own keys are there, and each recipient that is not the sender in any case has a usable key; the keyring then has just one such key for each of them, in their order, and then the own key |
| E2ee.KeyForIff | src/dc_e2ee.c:356-375 | the key for a recipient, in any spelling of their address: none without a row or without a mutual or guaranteed message, else the verified key where demanded, and otherwise the public key, or without one the gossiped key |
| E2ee.DemandedKeyIsVerified | src/dc_apeerstate.c:319-339 | where verified keys are demanded, the key is the verified one, with its own fingerprint |
| E2ee.VerifiedKeyringIsStable | src/dc_e2ee.c:356-380 | no run without a verification of this very recipient changes the key used for them in a guaranteed message under verified keys |
| E2ee.KeyAfterNews | src/dc_e2ee.c:365-371 | after any news about a peer, in any order, the key used is that of the newest header, or without one that of the newest gossip, as far as the preference or a guarantee allows |
| AHeader.InsertBreaks | src/dc_tools.c:543-575 | the loop puts the breaker after every full block that is not the last character |
| AHeader.BrokenIntoBlocks | src/dc_tools.c:543-575 | the result is blocks of exactly the given length, joined by the breaker |
| AHeader.AHeader.Render | src/dc_aheader.c:65-100 | the printed header, or nothing without an address or a key |
| AHeader.RenderedBlocks | src/dc_aheader.c:65-100 | the printed header has the address, the preference if mutual, and the base64 text of the key cut into blocks of 78 characters with a space between them |
| AHeader.NormalizedOfPadded | src/dc_contact.c:463-474 | normalizing takes away white space around an address and one `mailto:` with the white space behind it |
| AHeader.NormalizedIff | src/dc_contact.c:463-474 | an address is normalized exactly if it has no white space at its ends and does not begin with `mailto:` |
| AHeader.AHeader.Add | src/dc_aheader.c:108-157 | the effect of one attribute, and whether it makes the header invalid |
| AHeader.Scan | src/dc_aheader.c:187-213 | one round of the tokenizer finds the next attribute, and moves forward if there is one |
| AHeader.ReadsAttribute | src/dc_aheader.c:187-213 | an attribute is read whatever separators stand before it, blanks before its equal sign, and blanks and equal signs before its value, up to the next semicolon or the end, and the value is trimmed |
| AHeader.ReadsName | src/dc_aheader.c:187-213 | an attribute without an equal sign is read without a value, and blanks and semicolons behind it are skipped |
| AHeader.ReadsNothing | src/dc_aheader.c:187-213 | separators alone are no attribute |
| AHeader.AHeader.SetFromString | src/dc_aheader.c:163-232 | the parser ends on every string with the parsed header, or with an empty object on any failure |
| AHeader.ParsedIff | src/dc_aheader.c:108-232 | a text is a header, if and only if all its attributes are known and it has just one address and one key, both well-formed; and which fields it then has |
| AHeader.KeySurvives | src/dc_key.c:139-159 | a key printed in base64 with breaks, folded anywhere and trimmed still decodes to itself |
| AHeader.ParseUndoesPrint | src/dc_aheader.c:65-232 | every folding of the printed header parses to the same address, key and preference |
| AHeader.RoundTripIff | src/dc_aheader.c:65-232 | a header survives all foldings, if and only if its preference is not "reset" and its address has three characters, an at sign and a dot, no semicolon, space or tab, no white space at its ends, and begins neither with an equal sign nor with `mailto:` |
| Base64.EncodeBase64 | libs/libetpan/src/data-types/base64.c:58-116 | the encoding loop gives the base64 text of section 4 of RFC 4648 |
| Base64.AlphabetIff | libs/libetpan/src/data-types/base64.c:40-56 | a character has the value of its place in the alphabet of RFC 4648, and no other character has a value |
| Base64.EncodedBits | libs/libetpan/src/data-types/base64.c:58-116 | the text has four characters for every three octets or fewer, one or two equal signs at its end as octets are missing, and its values are the bits of the octets, six by six, filled up with zeros |
| Base64.ParseBody | libs/libetpan/src/low-level/mime/mailmime_content.c:1615-1724 | the decoder skips everything outside the alphabet and decodes the rest in fours |
| Base64.DecodedBits | libs/libetpan/src/low-level/mime/mailmime_content.c:1615-1724 | any values decode to the octets of their bits, three for four; of a rest of two or three values come as many octets as they fill, and a single one gives one octet filled up with zeros |
| Base64.DecodeOfEncode | src/dc_key.c:139-159 | decoding undoes encoding |
| ParamStore.FindParam | src/dc_param.c:30-60 | the pointers to the line of a key, or none exactly if there is no such line |
| ParamStore.FoundIff | src/dc_param.c:30-60 | in any text, well-formed or not, the line found is the first one that begins with the key and an equal sign |
| ParamStore.Param.Get | src/dc_param.c:194-218 | the right-trimmed value of the line, or the default |
| ParamStore.Param.GetInt | src/dc_param.c:230-243 | the value read as a number and cut to 32 bits |
| ParamStore.Param.Set | src/dc_param.c:255-311 | the text after cutting the old line out, trimming at the cut and putting the new line in |
| ParamStore.PutInJoin | src/dc_param.c:255-311 | on well-formed text this is setting or clearing the key in the list of entries |
| ParamStore.GotInJoin | src/dc_param.c:194-218 | on well-formed text the value is that of the entry of the key |
| ParamStore.PutThenGet | src/dc_param.c:194-311 | a set key reads back as its value without white space at the end, a cleared key is gone, all others read as before, and the text stays well-formed |
| ParamStore.BuiltTextIsMap | src/dc_param.c:255-311 | a text built from nothing by any sequence of settings is well-formed, and each key reads as it was set last |
| ParamStore.IntRoundTrip | src/dc_param.c:230-330 | every 32 bit integer that is set is read back |
| Decimal.AtolOfPrint | src/dc_param.c:240 | reading a printed number gives the number, whatever non-digit follows |
| Decimal.AtolOfText | src/dc_param.c:240 | white space before the number and a plus sign are skipped |
| Decimal.AtolOfNoNumber | src/dc_param.c:240 | 0 is read where no number begins |
| Decimal.PrintIsDecimal | src/dc_param.c:318-331 | numbers are printed in decimal |
| Decimal.ConversionsAreModular | src/dc_param.c:240 | a number is cut to 32 bits modulo 2^32 |
| Crc24.CrcOctets | src/dc_key.c:319-333 | the two loops compute the accumulated checksum |
| Crc24.AccumulatorStaysBelow | src/dc_key.c:319-333 | between octets the accumulator is below 2^24, so the final mask changes nothing |
| Crc24.GeneratorIs | src/dc_key.c:319-333 | the 24 lower coefficients of the generator polynomial of section 6.1 of RFC 4880 |
| Crc24.InitialIs | src/dc_key.c:319-333 | the bits of the initial value |
| Crc24.CrcIsRemainder | src/dc_key.c:319-333 | the checksum is the remainder of the initial value and the message, shifted, by the generator polynomial of section 6.1 of RFC 4880 |
| Crc24.RemainderIsUnique | src/dc_key.c:319-333 | a polynomial has only one such remainder |
| Crc24.CrcIsAffine | src/dc_key.c:319-333 | xoring three messages of one length xors their checksums |
| Receipts.Store.MdnFromExt | src/dc_msg.c:1653-1746 | the tables after one receipt, and whether the message is now read |
| Receipts.OneRowPerReader | src/dc_msg.c:1684-1703 | whatever receipts come, there is at most one row for a message and a contact |
| Receipts.ReadIff | src/dc_msg.c:1705-1746 | after any receipts a pending or delivered message counts as read, if and only if one of them was for it from an ordinary contact and it is in a normal chat, or twice the different readers before and now are at least the members of the group, or the chat is gone; otherwise its state stays |
| Receipts.FoundIff | src/dc_msg.c:1663-1680 | the message a receipt is for is the first own one with its Message-ID |
| Receipts.ReportedIff | src/dc_msg.c:1705-1746 | a receipt is reported as the last one needed exactly if it changes the state, and it changes the state of this message alone |
| Receipts.RowAddedIff | src/dc_msg.c:1684-1703 | a receipt adds a row, with its time, exactly if it is from an ordinary contact, for a pending or delivered own message, and the first of this contact for it |
| Receipts.OrderDoesNotMatter | src/dc_msg.c:1653-1746 | the state of a message depends only on the set of its readers, not on order or repetition |

## Left out

- Liveness of the suspended SMTP thread: with the suspend flag and the condition flag both set the idle loop spins with
  the mutex held; the model has that state and proves safety only. The length of the timed waits is not modelled.
- A bound on the retries of a job: there is none, see above.
- `dc_set_msg_failed()` has no definition in the repository; the model takes it to record the failed state.
- An attempt to send is one step: a message deleted and replaced by one of the same id within a single attempt is not
  modelled. Jobs of the IMAP thread are modelled only as far as they suspend the SMTP thread; a backup import that
  replaces the whole database is not.
- Receipts.ReadIff: takes the members of a chat as fixed; changes of the state by other code between the receipts are not
  modelled.
- PeerTable.SelectiveSaveIsFull: takes rows whose key columns hold no empty blob, which is all the code ever writes.
- PeerConvergence.Settles: takes the sender and the gossiped address to be those of one row, positive times and no mail
  that degrades encryption; with degrading, the outcome depends on the order by design. The spelling of the address is
  that of the first message.
- ParamStore.PutThenGet: takes keys that are not white space, as all DC_PARAM constants are, and values without a
  newline; other values break the format.
- HashTable.Run: takes keys without a NUL before their last octet. With any other key two keys that compare equal may hash
  differently, and the table is no map (`StrHash.HashAgreesWithCompareIff`).
- HashTable.Table.Insert: the copying of keys is not modelled. The copy of an empty key has no terminator, so hashing it
  again reads what is behind it (src/dc_hash.c:91, 485-494).
- HashTable.Table.Find: only the string keys are modelled, the other key classes and the release of memory are not; counts
  are unbounded.
- IMAP idle, the list of all folders, servers without a UIDVALIDITY in `ImapNoGap`, and the use of the SELECT answer
  across calls; UIDs beyond what a server may give out, and servers that give out a UID twice or lower a UIDVALIDITY.
- The MIME tree, signing and encrypting, rendering of mails, own-key generation, autoconfiguration, import and export,
  stock strings and the command line.
- The search for the one Autocrypt header of the sender among several, which only compares addresses and counts.
