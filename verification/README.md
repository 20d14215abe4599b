# Verified model of the Work Stack core algorithms

This project models the parts of Work Stack that carry its guarantees and proves what they promise, in Dafny 4.11.
`dafny verify dfyconfig.toml` checks everything.

| file | what it models |
|---|---|
| `DependencyCycles.dfy` | the quality gate's depth-first search for dependency cycles |
| `CheckpointClient.dfy` | the running-server checkpoint: one POST, at most one identical replay, over a network that loses and delays |
| `BackendSelection.dfy` | writer lease, recovery journal and running owner, as steps of many commands interleaved with other writers |
| `Observations.dfy`, `Rfc3339.dfy` | the bounded observation cache, ordered by exact RFC 3339 instants |
| `Base45.dfy`, `Sqr1Frames.dfy` | the offline transfer tool: Base45 (section 4 of RFC 9285), framing, and two restorers |
| `PlanningPack.dfy`, `CoreContext.dfy`, `Shrinking.dfy` | the two views of `agent context`: building, shrinking to 32 KiB, validating |
| `Calendar.dfy` | the transport's previous-day arithmetic and the 31-day window, against the library's day numbers |
| `UnlinkPolicy.dfy`, `UnlinkReceipts.dfy` | unlink and undo plans, and the append-only receipt ledger |
| `PathPatterns.dfy`, `Fnmatch.dfy` | the `**` path matcher, its shortcut, and the shell patterns of one segment |
| `CheckpointFacts.dfy` | the resume snapshot: which audit row is selected, and the version it is frozen against |
| `GitBatch.dfy` | the `git cat-file --batch` reader |
| `DistReplace.dfy` | installing a built tree by two renames that may fail |
| `Orders.dfy`, `Text.dfy`, `Wrappers.dfy` | sorting, string operations and result types the others share |

Code that updates state in place is a class or a method with a loop, tied by its `ensures` to a function; the theorems
are about that function. Pure code is functions. Interleaved code is a state machine whose runs are sequences of steps.

Conventions. An exception is a `Result` or `Option`. SHA-256, CRC-32, JSON rendering, what a bracket set
of a shell pattern admits, and the protocol validators of the observation cache are function parameters, so every
theorem holds for any such function; where one needs more, the assumption is a named predicate in its `requires`:
`Observations.Normalizing` (what a validator returns it accepts unchanged), `UnlinkReceipts.Faithful` (parsing undoes
serializing), `UnlinkReceipts.SpellsLongId` (a receipt's text spells out its Capture id) and `Sqr1Frames.NoCollision`
(SHA-256 tells two given archives apart). The owner of
`CheckpointClient` is itself an assumption: a ledger keyed by Idempotency-Key that replays a recorded key before it
considers any refusal.

Where the code and its intent differ, the model follows the code and the difference is a theorem:

* `restore` undoes `make_frames` only if the archive is not empty, the chunk size is at least 1 and the archive's name
  has no `:` (`Sqr1Frames.RoundTripExactly`). The Base45 alphabet contains `:`, so `safe_name` keeps it.
* The path shortcut for a pattern ending in a double star does not look for wildcards in its prefix; it is right on every
  path exactly when no prefix segment has a `*`, a `?` or a bracket set that closes
  (`PathPatterns.ShortcutBySpelling`; `PathPatterns.TwoStarsRefuseAPath` gives a path it misjudges).
* A receipt whose canonical text is longer than 8192 characters is recorded but never found again
  (`UnlinkReceipts.RecordedIsFound`). The field patterns do not exclude it: a Capture id may have any number of digits
  (`UnlinkReceipts.OverlongIsLost`).
* An undo restores the links only if they were sorted and named the task once (`UnlinkPolicy.RestoredLinks`).
* The built planning answer is sure to pass its own validator exactly when no id occurs twice among the five least
  objective ids the Task lists and the material holds, nor among the five least ids of linked Captures
  (`PlanningPack.AlwaysValidExactly`; `PlanningPack.ListedTwiceRefused` gives a material that is built and refused).
* "Failed" excludes the entry only after a single send with a status outside 200 to 299; after a replay the first POST
  may still arrive (`CheckpointClient.FailedMeans`, `CheckpointClient.RefusedReplayDecidesNothing`).
* Before 0001-01-31 the local backend raises while the transport asks for dates that do not exist
  (`Calendar.WindowsAgree`).
* Checkpoint facts depend on the order of the audit rows exactly when rows that tie for the greatest slot read
  differently (`CheckpointFacts.OrderIrrelevantExactly`).

## Model

| member | source | states |
|---|---|---|
| `DependencyCycles.FindCycles` | scripts/quality_gate.py:281-310 | terminates on every graph; the answer is exactly the cycles closed by an edge that leads back into the least walk of its source, the least of all simple walks from any key in the order of tuples, each in least rotation and sorted; so every reported list is a simple directed cycle, no two name the same ring, the answer is empty exactly when the graph is acyclic, and every directed cycle shares an edge with a reported one |
| `DependencyCycles.CycleFinder.Visit` | scripts/quality_gate.py:293-306 | a visit comes in its turn, every smaller way to go on from the stack having been met; it leaves stack and `visiting` as they were, only adds to `visited` and `result`, and ends with the node visited or, if it is on the stack, the cycle of that edge in the result |
| `DependencyCycles.CycleFinder.VisitTargets` | scripts/quality_gate.py:302-303 | the targets are taken in ascending order; after the loop each is visited or on the stack with its cycle in the result |
| `DependencyCycles.CycleFinder.CloseCycle` | scripts/quality_gate.py:296-299 | a back edge adds the cycle of the stack from its target on, which runs along that edge |
| `DependencyCycles.CycleFinder.Enter` | scripts/quality_gate.py:300-301 | a node met for the first time goes on the stack, which stays a least walk |
| `DependencyCycles.CycleFinder.Leave` | scripts/quality_gate.py:304-306 | with all targets settled the node comes off the stack, finished, and no edge leads from a finished node to one not met |
| `DependencyCycles.CycleFinder.Search` | scripts/quality_gate.py:308-309 | every key ends visited with an empty stack and the invariant |
| `DependencyCycles.FirstMetLeast` | scripts/quality_gate.py:293-309 | the search meets every node first along the least simple walk to it |
| `DependencyCycles.SearchExact` | scripts/quality_gate.py:281-310 | when all keys are finished, the result is exactly the cycles of edges back into least walks |
| `DependencyCycles.AnswersUnique` | scripts/quality_gate.py:281-310 | a graph has exactly one answer |
| `DependencyCycles.TriangleAnswer` | scripts/quality_gate.py:302-310 | on a graph where order matters the answer is the ring of three and not the ring of two |
| `DependencyCycles.MinRotationMeans` | scripts/quality_gate.py:287-291 | the minimum is one of the rotations and none is smaller |
| `DependencyCycles.CanonicalIsCycle` | scripts/quality_gate.py:287-291 | the canonical form of a simple cycle is a simple cycle of the same graph and the least of its own rotations |
| `DependencyCycles.CanonicalKeepsEdges` | scripts/quality_gate.py:287-291 | rotating loses no edge of the cycle |
| `DependencyCycles.SameRingSameCycle` | scripts/quality_gate.py:287-291 | two canonical cycles that are rotations of one another are equal |
| `DependencyCycles.PositionsFall` | scripts/quality_gate.py:293-306 | along edges that were not reported, finishing positions strictly fall |
| `DependencyCycles.EveryCycleIsCut` | scripts/quality_gate.py:281-310 | hence every closed walk contains a reported edge |
| `CheckpointClient.EveryRunIsSafe` | workstack/agent_transport.py:329-395 | in every run with any loss, delay and other writers: at most one log entry under the intent's key; at most two POSTs, with the same key and bytes, the second only after the first raised; each send sees only a reply to itself; "committed" only with this intent's entry, which is in the log; "unknown" exactly when both sends raised; at most one reply claims a fresh write; no logged entry is lost |
| `CheckpointClient.AnswerMeans` | workstack/agent_transport.py:356-395 | which reply or failure decides, and when it reads as committed, unknown or failed |
| `CheckpointClient.EachOnce` | workstack/agent_transport.py:356-374 | in every run each request sent was answered once, lost, or is under way, and each reply has arrived, was lost, or is under way |
| `CheckpointClient.OthersAreKept` | workstack/agent_cli_fixture_literals.py:166-178 | whatever another writer wrote during a run is in the log at its end |
| `CheckpointClient.UnknownIsHonest` | workstack/agent_cli_fixture_literals.py:166-178 | from every start in which the key is new, some run ends "unknown" with the entry committed and another without it |
| `CheckpointClient.CalmRunCommits` | workstack/agent_transport.py:356-395 | with nothing lost the first send commits, "replayed" tells exactly whether the key was on record, and the log grows only if it was not |
| `CheckpointClient.ReplayRecovers` | workstack/agent_transport.py:365-374 | from every start in which the key is new, a lost reply followed by the identical replay ends "committed" and "replayed", with the entry written once by the first send |
| `CheckpointClient.FailedMeans` | workstack/agent_transport.py:383-388 | when the answer is a failure: a success status means the entry is in the log and only the payload was unreadable; any other status on the first and only send excludes the entry, in every run |
| `CheckpointClient.RefusedReplayDecidesNothing` | workstack/agent_transport.py:365-384 | from every start in which the key is new and for every refusing status, what a client sees after a lost first send and a refused replay is seen both with the entry in the log and without it |
| `CheckpointClient.StepInv` | workstack/agent_transport.py:357-395 | every step of client, network, owner and other writers keeps the protocol invariant and the log |
| `CheckpointClient.HandleInv` | workstack/agent_cli_fixture_literals.py:166-178 | whatever the owner does with a request, log and ledger stay in agreement and its reply is truthful |
| `BackendSelection.EveryInterleavingIsSafe` | workstack/agent_runtime.py:214-283 | in every interleaving: local work only under the command's own lease, by one command at a time; a local backend is built only with no journal pending; a refused lease never leads to local work; a finished command has released exactly the leases it acquired, at most one, whether it ended inside the selection or in the last `finally`; success is reported only by a command that used a backend |
| `BackendSelection.EveryEndIsExplained` | workstack/agent_runtime.py:214-378 | in every run a command stands where its own steps put it and ends with the code they call for: a failed admission, a journal seen or feared, a lease attempt that raises, a missing advertisement (owner unavailable), a handler's outcome passed on unless a preserved class replaces its internal error, or an interrupt |
| `BackendSelection.SuccessIsEarned` | workstack/agent_runtime.py:347-378 | a command ends in success only if the handler behind a found owner or behind its own locally built backend returned success |
| `BackendSelection.StepInv` | workstack/agent_runtime.py:323-378 | every step of a command, another writer or a process exit keeps that invariant |
| `BackendSelection.AgentsKeepForeignJournals` | workstack/agent_runtime.py:183-201 | no step of a command ever changes a pending journal that another process made, although opening the local Store consumes whatever journal it finds |
| `BackendSelection.RecheckIsNeeded` | workstack/agent_runtime.py:230-236 | from every start with a free lease and no journal, some run has a command hold the lease in front of another writer's pending journal, and building there without the second look would consume it |
| `Observations.Evict` | workstack/capture_observations.py:177-197 | the in-place loop computes the specified eviction |
| `Observations.EvictedMeans` | workstack/capture_observations.py:177-197 | eviction keeps the retained row and the youngest others that fit, in id order, and refuses exactly when the retained row alone does not fit |
| `Observations.SurvivorsAreMost` | workstack/capture_observations.py:180-195 | keeping any more of the youngest rows would break a cap |
| `Observations.FitsPermutes` | workstack/capture_observations.py:180-183 | both caps depend only on which rows are held, not on their order |
| `Observations.UpsertDecides` | workstack/capture_observations.py:200-229 | exactly when an upsert of any row is refused as invalid, conflicting or stale, when it changes nothing, and otherwise the exact multiset it returns; the size refusal inside eviction is unreachable |
| `Observations.UpsertDropsOldest` | workstack/capture_observations.py:177-197 | by the fields of the rows: no row an accepted upsert gives up was accepted later than one it keeps, and at one instant the smaller nonce goes first |
| `Observations.ValidateDecides` | workstack/capture_observations.py:154-174 | how any list of valid rows is judged: too many, a shared Capture, a shared nonce, too large as compact JSON, or accepted as those very rows ready to be stored |
| `Observations.InvalidRowRefused` | workstack/capture_observations.py:154-163 | a list with an invalid row is refused for the first one, unless it is too long |
| `Observations.CompactSizeIsLength` | workstack/capture_observations.py:68-71 | the size computed is the length of the compact JSON list |
| `Observations.UpsertKeepsStored` | workstack/capture_observations.py:200-229 | an accepted upsert returns a storable list that holds the incoming row, every other row having been there before |
| `Observations.UpsertTwice` | workstack/capture_observations.py:215-222 | repeating an accepted upsert changes nothing |
| `Observations.EveryRunIsStored` | workstack/capture_observations.py:154-229 | after any run of upserts from the empty list the rows are sorted and unique by capture id, unique by nonce, within 128 rows and 1 MiB, and each validates to itself |
| `Observations.StoredValidates` | workstack/capture_observations.py:154-174 | a storable list is read back as it stands |
| `Rfc3339.InstantsCompareExactly` | workstack/capture.py:111-116 | parsed instants compare, and are equal, exactly as the rational times their texts denote, for any number of fraction digits |
| `Rfc3339.FractionOrder` | workstack/capture.py:144-157 | zero-stripped fractions of any lengths compare as text in the order of their values, and are equal only when the values are |
| `Rfc3339.ReadsPrinted` | workstack/capture.py:19-24 | every printed timestamp (any valid date and clock, any fraction digits, any offset) is read back part by part |
| `Rfc3339.ReadIsPrinted` | workstack/capture.py:19-24 | the converse: every text that is read is a printed timestamp with those very parts |
| `Rfc3339.PrintedInstant` | workstack/capture.py:144-157 | its instant is day number, clock and offset in UTC seconds with the stripped fraction; it is refused exactly when it leaves the library's UTC range |
| `Rfc3339.StripKeepsValue` | workstack/capture.py:156-157 | stripping trailing zeros keeps the value and leaves no trailing zero |
| `Rfc3339.InstantLessTotal` | workstack/capture.py:111-116 | the order of instants is a strict total order |
| `Base45.Encode` | scripts/package_for_qr.py:21-34 | the loop computes the specified encoding |
| `Base45.Decode` | scripts/package_for_qr.py:37-53 | the loop computes the specified decoding or its first refusal |
| `Base45.DecodeEncode` | scripts/package_for_qr.py:21-53 | decoding an encoding gives the bytes back, for all bytes |
| `Base45.EncodeDecode` | scripts/restore_from_png.py:16-32 | every accepted text is the encoding of what it decodes to |
| `Base45.AcceptedTexts` | scripts/package_for_qr.py:37-53 | a text decodes to given bytes exactly when it is their encoding, so no two texts decode alike |
| `Base45.PublishedExamples` | scripts/package_for_qr.py:21-34 | the first two published examples of section 4.3 of RFC 9285 are encoded as printed there |
| `Sqr1Frames.MakeFrames` | scripts/package_for_qr.py:79-95 | the loop writes the specified frame texts; a zero chunk size is refused |
| `Sqr1Frames.FramesCarrySlices` | scripts/package_for_qr.py:83-95 | a positive chunk size yields as few frames as the archive needs, frame i carrying the stretch of that many bytes from i times the size on, under its number, the total, the digest and that stretch's checksum; zero is refused and a negative size writes nothing |
| `Sqr1Frames.FramesCarriable` | scripts/package_for_qr.py:86-95 | every frame consists of the 45 characters an alphanumeric QR code carries, and the name changes only where a character is not one of them |
| `Sqr1Frames.Restore` | scripts/package_for_qr.py:109-131 | the loop and the checks compute the specified restoration or its first refusal |
| `Sqr1Frames.AcceptedFrames` | scripts/package_for_qr.py:112-119 | a text reads as a frame if and only if it is spelled as one: mark, name, digest, two numbers, the chunk's CRC-32 in eight hexadecimal digits, and the chunk's Base45 text |
| `Sqr1Frames.AlteredPayload` | scripts/package_for_qr.py:116-119 | another payload under the same header is refused, unless CRC-32 takes the two chunks for one |
| `Sqr1Frames.ItemsRefusedAs` | scripts/package_for_qr.py:120-130 | what a set of parsed frames is refused for, by whether it can be put in sequence, agrees, and is the archive it names |
| `Sqr1Frames.ImagesRefusedAs` | scripts/restore_from_png.py:58-76 | the same for the image restorer, in its own order of checks |
| `Sqr1Frames.UnreadImage` | scripts/restore_from_png.py:47-50 | an image without a code or with an empty text stops the image restorer |
| `Sqr1Frames.RestoredIffAccepts` | scripts/package_for_qr.py:109-131 | bytes are restored exactly when some arrangement of the parsed frames is frames 1 to n of one archive with that digest; sorting is not mentioned |
| `Sqr1Frames.ReadingOrderIrrelevant` | scripts/package_for_qr.py:111-122 | the order in which frames are read does not matter |
| `Sqr1Frames.NothingMissingNothingMore` | scripts/package_for_qr.py:121-128 | if a set of frames is accepted, the set with one text more (a repeat or any other) is not, and the other way round |
| `Sqr1Frames.OneMissing` | scripts/package_for_qr.py:120-125 | an accepted set that has lost a frame is refused as an incomplete sequence |
| `Sqr1Frames.NoForeignFrames` | scripts/package_for_qr.py:121-130 | frames accepted together agree in total and digest, and accepted sets with a frame in common restore archives of the same digest and size |
| `Sqr1Frames.OneFrameDecides` | scripts/package_for_qr.py:109-131 | any accepted list with a single frame of an archive in it restores that very archive, unless SHA-256 takes the two archives for one |
| `Sqr1Frames.RoundTripExactly` | scripts/package_for_qr.py:79-131 | restoring what was made gives the archive back if and only if the archive is not empty, the chunk size is at least 1 and the name has no ':' |
| `Sqr1Frames.ColonBreaksRoundTrip` | scripts/package_for_qr.py:86-95 | with a ':' in the name no cutting of the archive is restored |
| `Sqr1Frames.SplitFrame` | scripts/package_for_qr.py:112-116 | how any frame, whatever its name, is cut into its seven parts |
| `Sqr1Frames.RestorersAgree` | scripts/restore_from_png.py:47-76 | the image restorer returns bytes exactly when every image was read, the text restorer returns the same bytes from the texts read, and all frames carry one name |
| `Sqr1Frames.SortedFramesNumbered` | scripts/restore_from_png.py:66-68 | sorting by index alone finds the one arrangement that is numbered 1 to n |
| `PlanningPack.EdgesAreDual` | workstack/agent_context_pack.py:456-498 | for two Tasks of one projection each edge shown on one is the opposite edge shown on the other, and each edge is shown once |
| `PlanningPack.RelationshipsMean` | workstack/agent_context_pack.py:456-498 | the edges rendered for a Task are exactly those declared by it or towards it by known records, each once |
| `PlanningPack.RelationshipsInOrder` | workstack/agent_context_pack.py:484-498 | parents come first, then dependencies, children and dependents, each kind in the order of ids |
| `PlanningPack.EdgesShowRecords` | workstack/agent_context_pack.py:484-498 | every rendered edge shows the status and title of the record it leads to |
| `PlanningPack.ObjectivesMean` | workstack/agent_context_pack.py:444-453 | the objectives are exactly those the Task lists and the material holds, field by field |
| `PlanningPack.SourcesMean` | workstack/agent_context_pack.py:524-538 | the sources are exactly the Captures linked to the Task, field by field; resolving is refused exactly when no valid item shows one of them |
| `PlanningPack.LinkMeans` | workstack/agent_context_pack.py:501-521 | the first connection to the Task decides: its reasons sorted and each once, or none if it gives none; `PlanningPack.NoLink` covers a Capture without one |
| `PlanningPack.ResolvedIsOrderly` | workstack/agent_context_pack.py:541-575 | the uncapped blocks hold valid items in order, relationships without repeats, and the ids of the other two are the sorted listed-and-held objective ids and linked Capture ids of the material, repeats and all |
| `PlanningPack.BuildRefused` | workstack/agent_context_pack.py:541-575 | no planning answer is built exactly when record ids are ill-formed or repeat, the Task is absent, a listed objective id is ill-formed or names one that cannot be shown, a parent or dependency id is ill-formed, a related record cannot be shown, or no valid item shows a linked Capture; an id that is merely not held refuses nothing |
| `PlanningPack.ObjectiveIdsSpelled` | workstack/agent_context_pack.py:84-84 | an objective id is "O-" and a positive number in plain decimal |
| `PlanningPack.ValidatedMeans` | workstack/agent_context_pack.py:719-786 | the validator accepts exactly blocks within their caps whose items are well formed and strictly rise by id, or by kind and id, with evidence only in its view, and an omission list with the fixed categories and nothing twice |
| `PlanningPack.PlanningData.DropOne` | workstack/agent_context_pack.py:581-592 | gives up the last item of the furthest block that has one, and reports nothing only when all are empty |
| `PlanningPack.PlanningData.DropAndMark` | workstack/agent_context_pack.py:613-622 | one round: an item less and the markers rewritten |
| `PlanningPack.PlanningData.Shrink` | workstack/agent_context_pack.py:595-623 | the loop leaves the data at the first stage that fits, or empties it and returns false |
| `PlanningPack.TrimmedOneMore` | workstack/agent_context_pack.py:581-622 | giving up k items and then one more is giving up k + 1 in the fixed order of blocks |
| `PlanningPack.ShrunkIsSound` | workstack/agent_context_pack.py:595-623 | a successful shrink fits after the least cut, cuts prefixes strictly in the order sources, relationships, objectives, worklog, tells by each marker exactly whether its list lost an item, and validates exactly when no id is rendered twice |
| `PlanningPack.PlanningAnswer` | workstack/agent_command_context.py:197-260 | the same for the whole planning answer built from any material, valid exactly when the least ids of the material, as many as are rendered, do not repeat |
| `PlanningPack.UncutAnswer` | workstack/agent_command_context.py:231-257 | an answer that fits as assembled is not cut, shows as many of each block as its cap allows, and is valid exactly when the five least listed objective ids and the five least linked Capture ids do not repeat |
| `PlanningPack.AlwaysValidExactly` | workstack/agent_command_context.py:240-257 | for every material that is built: every successful answer, whatever the sizes and the limit, passes the validator if and only if those ids do not repeat |
| `PlanningPack.PlainMaterialValid` | workstack/agent_command_context.py:240-257 | so it does when the Task repeats no objective id and the context no Capture id |
| `PlanningPack.TrimmedValidates` | workstack/agent_context_pack.py:754-786 | every stage of shrinking passes the separately written validator exactly when no objective or Capture id repeats in it |
| `PlanningPack.RepeatedCaptureRefused` | workstack/agent_context_pack.py:719-738 | whenever a Capture id occurs twice among the five least linked ones and the blocks are built, the answer that fits as assembled is the one the validator refuses |
| `PlanningPack.ListedTwiceRefused` | workstack/agent_context_pack.py:524-538 | a concrete such material, one linked Capture listed twice: its blocks are built and the validator refuses them |
| `PlanningPack.MarkersMean` | workstack/agent_context_pack.py:259-263 | a marker is in the omission list exactly when its flag is up; the fixed categories always are |
| `PlanningPack.MarkersDoNotRepeat` | workstack/agent_context_pack.py:779-786 | the omission list never repeats a marker and keeps their fixed order |
| `Shrinking.FirstFitIsLeast` | workstack/agent_context_pack.py:612-623 | shrinking succeeds exactly when some stage fits, and stops at the least one |
| `Shrinking.FirstFitShowsMost` | workstack/agent_command_context.py:299-316 | counted from what is shown: success shows as much as fits |
| `CoreContext.FilterEntries` | workstack/agent_command_context.py:90-112 | the loop and the sort compute the specified filter |
| `CoreContext.FilterKeepsReviewedDates` | workstack/agent_command_context.py:90-112 | the filter keeps exactly this Task's entries of the 31 dates the transport reviews, no date before a greater one, and raises exactly when the local window does |
| `CoreContext.FilterIsStable` | workstack/agent_command_context.py:90-112 | on each reviewed date the filter shows this Task's entries as often and in the order in which they were given, and on any other date none |
| `CoreContext.OutcomeMeta` | workstack/agent_cli_contract.py:279-292 | the loop copies exactly the attributes that are set |
| `CoreContext.MetaMeans` | workstack/agent_cli_contract.py:279-292 | each attribute is in the metadata under its own name exactly when it is set, and nothing else is |
| `CoreContext.EstimateIsExact` | workstack/agent_command_context.py:47-71 | the private size estimate equals the renderer's byte count, for any canonical JSON dump |
| `CoreContext.CoreData.Answer` | workstack/agent_command_context.py:263-321 | the popping loop computes the specified answer and leaves it in the mapping |
| `CoreContext.CoreAnswerIsSound` | workstack/agent_command_context.py:263-321 | a success renders to at most 32768 bytes, shows the newest in-window entries, as many of the first five as fit and no fewer, and carries the overflow marker exactly when an entry was left out; a refusal means that the projection alone, or every number of entries from none to five, is too large |
| `Calendar.PreviousDayStep` | workstack/agent_transport.py:48-60 | the previous day of a date is a date whose proleptic Gregorian day number is one less |
| `Calendar.DaysBeforeYearClosed` | workstack/agent_local_backend.py:126-140 | the library's closed form of the day number agrees with adding up year lengths |
| `Calendar.ReviewDates` | workstack/agent_transport.py:63-73 | the loop returns the 31 dates going back from today |
| `Calendar.FormatOrder` | workstack/agent_local_backend.py:138-140 | zero-padded date strings compare in the order of the day numbers |
| `Calendar.OrdinalRange` | workstack/agent_local_backend.py:126-130 | a day number names a date exactly from 1 to 9999-12-31 |
| `Calendar.WindowsAgree` | workstack/agent_local_backend.py:126-140 | for every today the local window exists exactly from 0001-01-31 on, and then the 31 reviewed strings, the strings the local backend admits and those the handler keeps are the same |
| `UnlinkPolicy.UnlinkThenUndo` | workstack/capture_unlink_policy.py:46-126 | after an unlink and an advance of the revision by one the recorded undo is admitted and restores the status, and the links exactly when they were sorted and named the task once; under any other stored or displayed revision or digest it is refused |
| `UnlinkPolicy.RestoredLinks` | workstack/capture_unlink_policy.py:46-82 | sorting the task back in restores the list if and only if it was sorted and held the task once |
| `UnlinkPolicy.UnlinkMeans` | workstack/capture_unlink_policy.py:46-81 | an unlink is refused, as a revision conflict, exactly on another revision; else every mention of the task goes, the other links stay in order, and the Capture returns to the inbox exactly when it was linked and no link of either kind is left |
| `UnlinkPolicy.UndoMeans` | workstack/capture_unlink_policy.py:99-126 | an undo is a revision conflict exactly when the displayed, stored and recorded revisions are not one, an undo conflict exactly when besides the digest differs or the task is linked, and else links the task once more in sorted order |
| `UnlinkPolicy.RevisionsCount` | workstack/capture_unlink_policy.py:90-96 | revisions count up by one through the safe integers; the last cannot be advanced and others are refused |
| `UnlinkPolicy.UndoneRowRefuses` | workstack/capture_unlink_policy.py:99-126 | an undone row refuses the same undo even with unchanged revision and digest |
| `UnlinkReceipts.Activity.Record` | workstack/capture_unlink_receipt.py:218-242 | the method appends to the activity list exactly as specified |
| `UnlinkReceipts.NextEventId` | workstack/capture_unlink_receipt.py:209-215 | the running maximum yields the specified next id |
| `UnlinkReceipts.NumbersIncrease` | workstack/capture_unlink_receipt.py:209-242 | from any log whatever, a recorded event's number is one more than the largest there, and 1 when there is none |
| `UnlinkReceipts.EventNumberMeans` | workstack/capture_unlink_receipt.py:51-51 | an id has a number exactly when it is E and a hyphen in either case of the letter, digits, and at most one newline |
| `UnlinkReceipts.RowMeans` | workstack/capture_unlink_receipt.py:335-391 | which rows name an identity and which of them are sound, by the fields of the event and its details |
| `UnlinkReceipts.RecordsExactly` | workstack/capture_unlink_receipt.py:218-242 | on any log a record appends exactly when the receipt may be recorded and no row names its identity, one well-filed event; otherwise the log stays as it is |
| `UnlinkReceipts.AnsweredExactly` | workstack/capture_unlink_receipt.py:296-361 | on any log whatever, an identity is answered exactly when no row names it, or every row naming it is bound and canonical and all serialize alike; the answer is the first such row's receipt |
| `UnlinkReceipts.RefusedAs` | workstack/capture_unlink_receipt.py:310-332 | what else it is refused for: a conflict when all its rows are sound, the caller's code when none is canonical, malformed otherwise |
| `UnlinkReceipts.FindMeans` | workstack/capture_unlink_receipt.py:245-262 | what a lookup answers on any log: malformed arguments first, then the log's refusal, then the receipt to its own workspace and Capture only |
| `UnlinkReceipts.OneBadRowRefuses` | workstack/capture_unlink_receipt.py:310-332 | one tainted or mis-bound row makes every lookup of its identity refuse and every record under it refuse without touching the log |
| `UnlinkReceipts.BadRowForever` | workstack/capture_unlink_receipt.py:218-262 | and so it stays after any further records and events |
| `UnlinkReceipts.LedgerAnswers` | workstack/capture_unlink_receipt.py:296-361 | in a log grown by this module the lookup of an identity never refuses, and answers its one receipt or nothing |
| `UnlinkReceipts.RecordKeepsLedger` | workstack/capture_unlink_receipt.py:218-242 | recording keeps at most one event per identity and every receipt held |
| `UnlinkReceipts.RunKeepsLedger` | workstack/capture_unlink_receipt.py:209-262 | so does every run of records and other events |
| `UnlinkReceipts.RecordedIsFound` | workstack/capture_unlink_receipt.py:218-262 | a first record is appended; recording it again changes nothing and the lookup finds it if and only if its canonical text has at most 8192 characters |
| `UnlinkReceipts.OverlongIsLost` | workstack/capture_unlink_receipt.py:384-391 | from every valid receipt a valid one beyond that limit is made by a long Capture id; it is recorded, never found, and recorded once more |
| `UnlinkReceipts.HeldIsFoundByOwner` | workstack/capture_unlink_receipt.py:245-262 | a held receipt is found for its own workspace and Capture only, and a different receipt under its identity is refused without touching the log |
| `PathPatterns.MatchIffAligns` | scripts/run_agent_p0_gates.py:743-755 | the recursive matcher terminates and accepts exactly when the path's segments can be laid out along the pattern, a double star taking any run of them |
| `PathPatterns.ShortcutExactly` | scripts/run_agent_p0_gates.py:736-738 | the string-prefix shortcut agrees with the matcher on every path if and only if each prefix segment matches itself and nothing else |
| `PathPatterns.ShortcutBySpelling` | scripts/run_agent_p0_gates.py:736-738 | with the shell patterns spelled out: the shortcut is right on every path if and only if no prefix segment has a '*', a '?' or a bracket set that closes |
| `PathPatterns.PathMatchesExactly` | scripts/run_agent_p0_gates.py:733-757 | hence `path_matches` means the declarative layout on every path if and only if its pattern does not end in a slash and a double star, or is literal before it |
| `PathPatterns.TwoStarsRefuseAPath` | scripts/run_agent_p0_gates.py:736-738 | a path that two double stars mean and the shortcut refuses, for any `fnmatch` |
| `Fnmatch.OnlyItsSpelling` | scripts/run_agent_p0_gates.py:750-754 | a segment pattern takes exactly the name it spells if and only if it has no '*', no '?' and no bracket set that closes |
| `Fnmatch.TakesIffAligns` | scripts/run_agent_p0_gates.py:750-754 | a name is taken exactly when it can be cut into one stretch for each unit of the pattern: any for a star, one character for any other |
| `Fnmatch.TokensWritten` | scripts/run_agent_p0_gates.py:750-754 | the units of a pattern are its own characters cut up; by `Fnmatch.WildcardsNotLiteral` no star or question mark outside a set is literal |
| `Fnmatch.SetRead` | scripts/run_agent_p0_gates.py:750-754 | a set is an optional "!", any one character, and everything up to the next "]"; by `Fnmatch.NeverCloses` a "[" without one is a plain character |
| `PathPatterns.PlainPrefixAgrees` | scripts/run_agent_p0_gates.py:736-738 | so it is right for every prefix without a wildcard character |
| `PathPatterns.PathMatchesMeaning` | scripts/run_agent_p0_gates.py:733-757 | the whole function means the declarative layout for every pattern whose shortcut prefix has no wildcard |
| `PathPatterns.ShortcutIsPrefix` | scripts/run_agent_p0_gates.py:736-738 | comparing strings with the slash added is comparing segment lists |
| `CheckpointFacts.Records.Collect` | workstack/checkpoint_facts.py:390-422 | the loop leaves the specified latest row and counts |
| `CheckpointFacts.ProjectFacts` | workstack/checkpoint_facts.py:550-563 | the projection is the specified one |
| `CheckpointFacts.OnlyOwnRowsMatter` | workstack/checkpoint_facts.py:401-422 | rows of other Tasks and workspaces change nothing |
| `CheckpointFacts.SupersededOnlyCounted` | workstack/checkpoint_facts.py:401-422 | superseded rows change nothing but their count |
| `CheckpointFacts.SelectedIsTop` | workstack/checkpoint_facts.py:377-422 | the selected row is an active one of this Task, by locator or else by payload, with no smaller date and, on its date, no smaller ordinal than any other |
| `CheckpointFacts.SelectedIsFirst` | workstack/checkpoint_facts.py:401-422 | and of those it is the first |
| `CheckpointFacts.OrderIrrelevantExactly` | workstack/checkpoint_facts.py:401-547 | the facts do not depend on the order of rows if and only if rows tying for the greatest slot read alike |
| `CheckpointFacts.ReportMeans` | workstack/checkpoint_facts.py:464-547 | what the facts say, in terms of the rows: empty exactly when this Task has no active row, else the stored identity of a latest one, its text only if it reads, its status and reasons by what is unreadable, unpresented or disputed, the two counts, and the version of just that status and provenance |
| `CheckpointFacts.DistinctSlotsSelectGreatest` | workstack/checkpoint_facts.py:377-422 | with distinct slots the report is that of the greatest date and ordinal, in any order of rows |
| `CheckpointFacts.VersionIsIdentity` | workstack/checkpoint_facts.py:443-461 | for one workspace and Task the version changes exactly when the status or the selected record's identity, digest or revision does |
| `GitBatch.ParseBatch` | scripts/linux_remote_artifact_git.py:105-125 | the parser computes the specified reading of the stream |
| `GitBatch.ReadBatch` | scripts/linux_remote_artifact_git.py:106-125 | the loop over the requested objects, for any reader of one object that makes progress |
| `GitBatch.ParsedIffStream` | scripts/linux_remote_artifact_git.py:105-125 | a batch is accepted with given blobs exactly when it is their records in the order asked, each size field reading as its blob's length, and nothing else |
| `GitBatch.ReadsWhatGitWrites` | scripts/linux_remote_artifact_git.py:105-125 | what git writes for any blobs is read back as those blobs in order |
| `GitBatch.AcceptedIsExact` | scripts/linux_remote_artifact_git.py:105-125 | anything after an accepted batch is refused as trailing data, so an accepted batch cut short is refused too |
| `GitBatch.HeaderDecides` | scripts/linux_remote_artifact_git.py:111-113 | the only header line that is no mismatch is the object id, its type and one word |
| `GitBatch.BodyDecides` | scripts/linux_remote_artifact_git.py:114-122 | behind its header an object is refused for a size that is no number or for data that does not hold that many bytes and a newline; else it is those bytes |
| `Text.ParseIntExactly` | scripts/linux_remote_artifact_git.py:114-114 | `int` reads exactly white space, an optional sign, digits with single underscores between them, and white space, as the value of the digits |
| `DistReplace.Files.ReplaceDist` | scripts/dist_source_gate.py:407-444 | under every pattern of failing renames the paths and the error are as specified |
| `DistReplace.NeverLost` | scripts/dist_source_gate.py:447-502 | in every run of refreshes, whatever fails, the last installed tree is installed or lies untouched in the scratch copy that an error named, and nothing but it is ever installed |
| `DistReplace.RefreshReports` | scripts/dist_source_gate.py:407-502 | success has the fresh tree installed; an error names a copy exactly when a tree was moved aside and neither the install nor the way back worked; any other error changes nothing |

## Left out

- Input shapes: the dynamic type checks of the source (a value that is no list, mapping or string) are types here; only ill-formed values of the right type are modelled.
- Unicode: `int()` and the digit classes accept non-ASCII digits and white space, `str.upper` can change length; the model has the ASCII ones, and takes the upper-cased archive name as given.
- Libraries: ZIP, PNG and QR coding, image reading, zlib, and the values of SHA-256, CRC-32 and UUIDv5.
- Files: the transfer tool's manifest, directory listing and emptiness check; the receipt writing, verification and dependency links around `_replace_dist`.
- CycleFinder: does not model Python's recursion limit; the loop inside `visit`, its first and its last statements are methods of their own.
- CheckpointClient: a state machine instead of a method, because the point is its interleaving with network and owner; the preflight requests, the session and the storage check before the POST are not modelled.
- CheckpointClient.EveryRunIsSafe: takes the owner's idempotency ledger as given; the server and the store behind it are not part of this model.
- BackendSelection: admission, the handlers and the backends are outcomes chosen freely; lease and journal are shared state, and a `lstat` that fails to answer is a free choice.
- Observations.EveryRunIsStored: takes the protocol validators as a function that accepts its own results unchanged; the pair of packet and receipt checks is not spelled out.
- Rfc3339: the datetime library is the day numbers of Calendar; fractions of any length reach it unrefused, as they do from Python 3.11 on.
- UnlinkReceipts: the search by idempotency key (`receipt_id_for_idempotency_key`) and the digest of a Capture row are not modelled; JSON is a pair of functions.
- CheckpointFacts: rows are taken as validated, their payloads as summarised; rendering is not modelled.
- PlanningPack: the core half of the data (workspace, Task) is one opaque value; overflow tokens are an enumeration, so the validator's check that no unknown token occurs holds by type; the worklog items are opaque.
- CoreContext: the Task projection and the worklog bodies are opaque; the renderer's own revalidation of a success is not modelled.
- DistReplace.NeverLost: covers OSError in the renames and failing builds; an interrupt or a killed process is not claimed by the source and not covered here.
- Fnmatch: which characters a bracket set admits is a parameter; no result depends on it.
- PathPatterns: the ownership report around the matcher is not modelled.
- Heuristic content scanning (credentials, e-mail, HTML, URLs), argument parsing, Markdown reports, fixtures and installers.
