# Agent panel: verified models

A Dafny 4.11 model of the parts of the editor's agent panel where state is easiest to get wrong, and proofs about them:

- **the action log**, which keeps, for a buffer that an agent edits, a diff base, a snapshot and the list of unreviewed
  row edits between the two, and lets the user keep or reject them (`patching`, `rebasing`, `mixed_rebasing`,
  `non_conflicting`, `selection`, `review`, `rows`, `text_patches`, `merging`, `widening`, `row_diffs`, `update_diff`,
  `action_log`, `user_edits`, `review_steps`, `recovery`, `action_log_object`, `keeping`, `row_edits`, `reverting`,
  `reject_updates`);
- **the agent client protocol thread**: streamed entries, tool-call statuses, permission requests held as one-shot
  senders, terminal events (`streaming`, `permissions`, `permission_runs`, `permission_requests`, `permission_ends`,
  `shown_text`, `thread_object`, `terminal_events`);
- **the native thread**: tool-use bookkeeping, assembly of completion requests, message identifiers, token totals
  (`tool_use`, `tool_steps`, `restoring`, `completion_request`, `request_contents`, `thread`, `token_totals`);
- **three smaller algorithms**: excerpt ranges of a pending diff, mention URIs, truncation of terminal output
  (`excerpts`, `utf8`, `url_paths`, `urls`, `mention`, `mention_texts`, `file_uris`, `mention_links`, `truncation`).

`dafny verify dfyconfig.toml` checks everything.

## How it is modelled

Text is a sequence of rows, and a row includes what ends it: a line break, or for the last row the end of the text.
Row ranges are then slices, and texts are concatenations of rows. A *patch* (`Patching.Patches`) is an edit list whose
gaps are equal on both sides. The action log is a transition function over the events that can happen to one buffer;
a background diff update is split into a first half, which reads the diff base, and a second half, which writes it
back, and anything may happen in between. What the diff library, the buffer, the model provider and the file system
return is an input of a step.

Where the code updates something in place, the model does too: `Ropes.Rope` is the text that is spliced, and
`ActionLogObject.ReviewLog`, `ThreadObject.AcpThread`, `TerminalEvents.Terminals`, `ToolUses.ToolUseState`,
`Threads.Thread`, `TokenTotals.Totals` and `Truncation.Terminal` are the objects whose methods change fields. Each
method is proved against one step of a transition function or against a specification function, and the lemmas are
about those.

Points where the code does less than a reader may expect are stated as they are, with an input and the exact condition:

- Rejecting with ranges out of order can miss a hunk (`Review.ScanNeedsOrder`); the scan is exact for every hunk if and
  only if no range hides a hunk from a later one that starts earlier (`Review.ScanIsExactIff`), and so for sorted ranges.
- The update after a rejection can take part of it into the diff base (`RejectUpdates.RejectionAbsorbed`): where both
  texts have a blank row at the start of a reverted hunk, the row edit found for it starts one row late, and slips off a
  hunk of at most one row. `RejectUpdates.RejectNotAbsorbedIff` says exactly when.
- A mention that opens a message is shown by its URI, which is rewritten once something follows
  (`Streaming.MentionIsRewritten`, `Streaming.AppendConservesIff`).
- Restoring a thread can lose stored results (`Restoring.RestoredUnanswered`, `Restoring.RestoredIsAnsweredIff`).
- The URI of a file path need not be read as that path (`FileUris.DotsAreResolved`, `FileUris.PathReadIff`).
- A line number equal to the largest 32-bit number is printed as 0 after wrap-around and does not parse
  (`Mentions.LineRangeRoundTrip`); with overflow checks the addition would stop the program instead.
- The usage that a request adds, computed at its end as a difference of totals, can fall below zero if another request
  lowers what it reported before (`TokenTotals.TotalCanFall`), and only then (`TokenTotals.TotalNeverFallsIff`).

## Model

| member | source | states |
|---|---|---|
| Rebasing.RebaseSquare | crates/action_log/src/action_log.rs:822-886 | If the hunks take the base to the buffer and the user's edits touch none of them, then making the rebased edits in the base and the edits in the buffer leaves a patch between the two results: the hunks carried along. |
| Rebasing.RebaseWithoutConflict | crates/action_log/src/action_log.rs:822-886 | If moreover the edits take the old buffer to the new one, the carried hunks take the rebased base to exactly the new buffer, so absorbed edits never show up as unreviewed. |
| Rebasing.HunksSurvive | crates/action_log/src/action_log.rs:834-884 | The rows of every hunk, on both sides, are found verbatim in the rebased base and the new buffer, at the place the hunk was carried to. |
| MixedRebasing.RebaseWithConflicts | crates/action_log/src/action_log.rs:822-886 | Whatever list of edits takes the old buffer to the new one: the base that has absorbed those that touch no hunk is taken to the new buffer by the old hunks, each joined with the edits that touch it. |
| MixedRebasing.AbsorbedIsNotReviewed | crates/action_log/src/action_log.rs:822-886 | The rows that an absorbed edit has written are in none of the joined hunks, and not next to one if it was made at least a row away from the hunks; so joining does not spread over what the user did elsewhere. |
| MixedRebasing.JoinedAreCarried | crates/action_log/src/action_log.rs:822-886 | If no edit touches a hunk, the joined hunks are the carried ones. |
| MixedRebasing.EarlierSame | crates/action_log/src/action_log.rs:834-886 | After the last of the edits has been absorbed or joined, each edit before it is free of the new hunks exactly if it was free of the old ones, and has the same place in the base; so the edits can be taken one by one. |
| NonConflictingEdits.PassHunks | crates/action_log/src/action_log.rs:840-866 | The inner walk over two sorted lists ends; it reports a conflict exactly if the edit it stops with touches a hunk, skips only edits that touch one, and its running delta is the growth of the hunks passed. |
| NonConflictingEdits.MakeEdit | crates/action_log/src/action_log.rs:868-881 | A free edit's row indices lie within the partly rebased base, and splicing there gives the base with one more edit absorbed. |
| NonConflictingEdits.ApplyNonConflictingEdits | crates/action_log/src/action_log.rs:822-886 | The base ends up with exactly those edits made that touch no hunk, at their places in the base; the flag says whether there is one. |
| NonConflictingEdits.AbsorbedApplies | crates/action_log/src/action_log.rs:868-879 | The edits that touch no hunk always fit into the base, in order, whatever the other edits are. |
| Widening.PointToRowEditWidens | crates/action_log/src/action_log.rs:912-935 | The three cases on rows and columns compute the edit widened to row boundaries, where the case depends only on which characters surround it. |
| Widening.WidenedGap | crates/action_log/src/action_log.rs:912-935 | What lies between two widened edits that do not touch is the same in both texts. |
| Widening.WidenedTouch | crates/action_log/src/action_log.rs:898-904 | Widened edits touch on the old side exactly if they touch on the new side, so testing one side is enough. |
| Widening.WidenedEndsOrdered | crates/action_log/src/action_log.rs:898-901 | Widened edits end in order on both sides, so merging by taking over the later end never loses rows. |
| Merging.MergeAll | crates/action_log/src/action_log.rs:896-908 | Merging group by group gives the runs of touching edits, each joined into one. |
| Merging.PushAll | crates/text/src/patch.rs:187-202 | Pushing the edits one by one onto a patch gives the same runs. |
| Merging.RunsGroup | crates/action_log/src/action_log.rs:896-908 | From a cut on, a stretch of touching edits adds exactly one edit to the runs: from the start of the first to the end of the last. |
| RowDiffs.DiffSnapshots | crates/action_log/src/action_log.rs:888-910 | For any character edits between two texts, the row edits take the rows of the old text to the rows of the new one, lie apart, and have on neither side a row that does not meet or border a character edit; without character edits there are none. |
| Merging.RunAt | crates/action_log/src/action_log.rs:896-908 | Each merged edit runs from the start of a first to the end of a last edit, where each touches the next and none touches the edits beside them. |
| Merging.RunWith | crates/action_log/src/action_log.rs:896-908 | Each edit is part of one of them. |
| UserEdits.UserEditAbsorbed | crates/action_log/src/action_log.rs:304-335 | If the user edits rows apart from all hunks, the diff base that the next update writes, with the row edits found for the character edits, has the rows of the edit as the new text has them, next to the same rows; whatever else is edited elsewhere, on hunks or not. |
| UserEdits.UserTypes | crates/action_log/src/action_log.rs:304-335 | Typing into a file with nothing pending leads to such an update. |
| UserEdits.TouchesIff | crates/action_log/src/action_log.rs:840-850 | The tests of the walk: an edit touches a hunk with rows exactly if the two overlap, and one without rows exactly if its place is neither before nor behind the edit. |
| UpdateDiff.UnreviewedEdits | crates/action_log/src/action_log.rs:482-511 | Hunks of a diff that each change something become a list of unreviewed hunks that is a patch from the new base to the buffer, apart, with none empty, and with no row that does not meet or border a change. |
| Rows.ReplaceRowsIsReplaceChars | crates/action_log/src/action_log.rs:871-879 | Replacing rows is replacing the characters between the offsets where the rows start. |
| Rows.StringOfText | crates/action_log/src/action_log.rs:334-334 | A text's rows come back from its characters: the row structure is determined by the string. |
| Selection.KeepPatches | crates/action_log/src/action_log.rs:585-617 | Taking any chosen hunks into the base leaves a patch to the same buffer, made of the other hunks moved by what was taken. |
| Selection.KeepIsRejectOthers | crates/action_log/src/action_log.rs:585-617 | For any set of hunks: the base with them taken in is the buffer with all the others rejected. |
| Review.KeepEditsInRange | crates/action_log/src/action_log.rs:585-617 | The base has exactly the hunks that meet the range taken in, the others are retained at their moved places, and they still take the base to the snapshot. |
| Review.RejectEditsInRanges | crates/action_log/src/action_log.rs:707-753 | The buffer has exactly the hunks reverted that the scan over the ranges selects. |
| Review.ScanIsExactIff | crates/action_log/src/action_log.rs:727-735 | The scan reverts exactly the hunks that some range touches, for every hunk, if and only if nothing is hidden: wherever a range comes before one that starts earlier, some range before both reaches every row at which it could hide a hunk. |
| Review.ScanIsExact | crates/action_log/src/action_log.rs:727-735 | In particular it does so for ranges sorted by start, although ranges are never looked at again. |
| Review.ScanNeedsOrder | crates/action_log/src/action_log.rs:727-735 | Ranges for which something is hidden, and a touched hunk that is not reverted. |
| Review.KeepCommittedEdits | crates/action_log/src/action_log.rs:385-436 | The new base has exactly those hunks taken in that some committed edit matches in old range and text; the peek and next walk misses none. |
| Review.OnlyThisCommit | crates/action_log/src/action_log.rs:399-432 | A hunk that the walk passes at a committed edit is committed by that edit or by none. |
| TextPatches.AbsorbedText | crates/action_log/src/action_log.rs:822-886 | Rebasing keeps the base a text: its last row, and no other, ends the text. |
| TextPatches.KeptText | crates/action_log/src/action_log.rs:585-617 | Taking hunks into the base keeps it a text. |
| ActionLog.StepValid | crates/action_log/src/action_log.rs:304-360 | Every event, user edit, agent edit, read, create, delete, keep, keep-all, reject, file change, and either half of an update or a commit, keeps the log valid. |
| ActionLog.RunValid | crates/action_log/src/action_log.rs:284-298 | Under every interleaving of these events the hunks are a patch from the diff base to the snapshot; once the queue is drained, to the buffer. |
| ActionLog.TakenValid | crates/action_log/src/action_log.rs:385-436 | Whatever hunks are kept, base, remaining hunks and snapshot stay valid. |
| ReviewSteps.CommitUndoesOthers | crates/action_log/src/action_log.rs:385-436 | The diff base that a commit's update writes is the snapshot with exactly those hunks undone that no committed edit matches in old range and text: the snapshot if all are matched, and the old base if none is; nothing else changes. |
| ReviewSteps.KeepUndoesOthers | crates/action_log/src/action_log.rs:564-622 | A keep makes the diff base the snapshot with exactly those hunks undone that lie before or behind the range; a created file becomes a modified one if and only if none does. |
| ReviewSteps.KeptIsAccepted | crates/action_log/src/action_log.rs:564-779 | Once all hunks are kept, one way or the other, the file counts as modified, its snapshot is the diff base, and a later rejection does not change the buffer. |
| ReviewSteps.RejectUndoesTouched | crates/action_log/src/action_log.rs:707-757 | A rejection with ranges in order leaves the snapshot with exactly the hunks undone that some range touches, and changes nothing if there is none. |
| ReviewSteps.RejectedWhole | crates/action_log/src/action_log.rs:639-705 | Rejecting a created file restores what was there before, if anything was, and forgets the file; rejecting a deletion restores the diff base; after either there is nothing to reject. |
| ReviewSteps.KeptDeletionIsFinal | crates/action_log/src/action_log.rs:564-573 | Keeping a deletion forgets the file and leaves its buffer. |
| ReviewSteps.CreatedIsReviewedWhole | crates/action_log/src/action_log.rs:99-187 | Every row of a file that the agent creates is in a hunk, against an empty diff base. |
| ReviewSteps.CreatedOver | crates/action_log/src/action_log.rs:99-187 | What is remembered of a created file: nothing if it was not on disk, its content if nothing was tracked, the diff base if the agent had changed it before, and what was remembered already if it had created it before. |
| ReviewSteps.EditRevives | crates/action_log/src/action_log.rs:529-545 | An agent's edit of a deleted file makes it a modified one again, with its diff base and hunks. |
| ReviewSteps.DeletedIsRestorable | crates/action_log/src/action_log.rs:547-562 | A deletion empties the buffer and keeps the diff base; a file that the agent itself created is forgotten. |
| ReviewSteps.ReadOnly | crates/action_log/src/action_log.rs:529-532 | A file that is only read has nothing to reject, and reading a tracked one changes nothing. |
| ReviewSteps.ChangedOnDisk | crates/action_log/src/action_log.rs:211-243 | If the file is deleted or comes back on disk, against the state that the agent left it in, there is nothing left to reject; otherwise nothing changes. |
| Recovery.RejectAllRestoresBase | crates/action_log/src/action_log.rs:707-757 | With nothing pending, rejecting the whole text makes the buffer equal the diff base. |
| Keeping.TakeTwice | crates/action_log/src/action_log.rs:585-617 | Taking some hunks into the base, and then some of those left, gives the base with both taken at once. |
| Keeping.RemainingTwice | crates/action_log/src/action_log.rs:585-617 | What is left after taking twice is what is left after taking both at once, at the same places. |
| Keeping.KeepsRun | crates/action_log/src/action_log.rs:564-627 | Any number of keeps, one after the other, leave the buffer alone and take in exactly the hunks that some of their ranges meet. |
| Keeping.RejectOthers | crates/action_log/src/action_log.rs:707-757 | With nothing pending, rejecting the ranges of the hunks outside any set gives the base with the hunks of that set taken in. |
| Keeping.KeepThenRejectAll | crates/action_log/src/action_log.rs:564-757 | Keeping any ranges one after the other, then the scheduled updates, whatever hunks they find, and then rejecting everything gives the same buffer as one rejection, at the start, that reverts exactly the hunks none of the ranges meets. |
| Recovery.RejectNotAbsorbed | crates/action_log/src/action_log.rs:747-753 | A step towards the next rows: an update whose edits were the reverted hunks themselves would absorb none of them. The row edits that are found are others. |
| RowEdits.RowCharsPatch | crates/action_log/src/action_log.rs:747-756 | Replacing whole rows is a list of character edits such as a buffer reports them: apart, and within the characters of both texts. |
| RowEdits.WidenedRowChars | crates/action_log/src/action_log.rs:912-935 | The row edit found for them is those rows, except that it starts one row late where both texts have a blank row at its start, and leaves out the last row where both texts end with an empty one. |
| Reverting.FoundFree | crates/action_log/src/action_log.rs:840-866 | The row edit found for a reverted hunk touches no hunk if and only if the hunk has at most one row and the edit is shifted off it or cut off it, and no hunk without rows stands where it is shifted to. |
| Reverting.JoinedFree | crates/action_log/src/action_log.rs:896-908 | A merged edit touches a hunk exactly if one of its parts does. |
| Reverting.FreeRunsAreSlips | crates/action_log/src/action_log.rs:822-910 | Of the merged row edits found for a reversal none is free if and only if no hunk slips; the free ones grow the base by what the slipping hunks have shrunk it by. |
| RejectUpdates.RejectNotAbsorbedIff | crates/action_log/src/action_log.rs:629-910 | Rejecting any hunks, and then the update with the row edits found for exactly the characters replaced: the base takes in none of them if and only if no reverted hunk slips, a test on blank rows and neighbouring hunks before the call. If none slips the base stays as it is; if some do its length changes by what they had changed it by, so it stays as it is exactly if none slips, unless two slip in opposite directions. |
| RejectUpdates.RejectionAbsorbed | crates/action_log/src/action_log.rs:629-910 | A deletion in front of a blank row, whose rejection makes the next update take two rows into the diff base. |
| RejectUpdates.SlipsCancelOut | crates/action_log/src/action_log.rs:629-910 | Two slipping hunks, in opposite directions, after whose rejection the base is the same although both edits were taken in. |
| Recovery.AgentRunRecoverable | crates/action_log/src/action_log.rs:99-187 | On any run of agent reads, creates, edits and deletes and of updates, the text that a full rejection restores never changes. |
| Recovery.OriginalRestored | crates/action_log/src/action_log.rs:639-705 | After any such run on an existing file, rejecting everything restores the content at first tracking. |
| ActionLogObject.ReviewLog.EditByAgent | crates/action_log/src/action_log.rs:539-545 | The object makes the agent-edit step: a snapshot for the agent is queued before the one for the buffer's own edit event, and the log stays valid. |
| ActionLogObject.ReviewLog.EditByUser | crates/action_log/src/action_log.rs:201-209 | The object makes the user-edit step, which schedules an update by the user, and the log stays valid. |
| ActionLogObject.ReviewLog.BufferRead | crates/action_log/src/action_log.rs:529-532 | The object makes the read step, and the log stays valid. |
| ActionLogObject.ReviewLog.BufferEdited | crates/action_log/src/action_log.rs:539-545 | The object makes the step of an agent edit that is reported only, which revives a deleted file, and the log stays valid. |
| ActionLogObject.ReviewLog.WillDeleteBuffer | crates/action_log/src/action_log.rs:547-562 | The object makes the delete step in each of the three states, and the log stays valid. |
| ActionLogObject.ReviewLog.BufferCreated | crates/action_log/src/action_log.rs:99-187 | The object makes the create step: the original content is remembered over repeated creation, and the log stays valid. |
| ActionLogObject.ReviewLog.KeepEdits | crates/action_log/src/action_log.rs:564-627 | The object makes the keep step, including the change of state when no hunk is left, and the log stays valid. |
| ActionLogObject.ReviewLog.KeepAllEdits | crates/action_log/src/action_log.rs:764-779 | The object makes the keep-all step, and the log stays valid. |
| ActionLogObject.ReviewLog.RejectEdits | crates/action_log/src/action_log.rs:629-762 | The object makes the reject step in each of the three states, whether or not an update is pending, and the log stays valid. If the buffer is that of the snapshot the text is computed by reverting the selected hunks; if not, what the anchors of those hunks resolve to is an input. |
| ActionLogObject.ReviewLog.BeginTrackEdits | crates/action_log/src/action_log.rs:304-335 | The object makes the first half of an update: user edits are absorbed, agent edits are not, and the log stays valid. |
| ActionLogObject.ReviewLog.BeginKeepCommitted | crates/action_log/src/action_log.rs:362-440 | The object makes the first half of a commit's update, and the log stays valid. |
| ActionLogObject.ReviewLog.FinishUpdate | crates/action_log/src/action_log.rs:516-526 | The object makes the second half of either, and the log stays valid. |
| Streaming.NewCombined | crates/acp_thread/src/acp_thread.rs:446-456 | Appending block after block gives a closed form: all texts in order, with a leading link replaced by its markdown and a line break unless it stands alone. |
| Streaming.PushAssistantCanonical | crates/acp_thread/src/acp_thread.rs:1158-1200 | Pushing a chunk or thought keeps assistant messages from being neighbours and their parts alternating. |
| Streaming.PushAssistantConserves | crates/acp_thread/src/acp_thread.rs:1158-1200 | A chunk or thought adds exactly its characters, in its kind, at the end of everything shown, if and only if the content it is added to is not a bare link, and does not become one that is a mention. |
| Streaming.PushUserConserves | crates/acp_thread/src/acp_thread.rs:1122-1156 | A user chunk adds exactly its characters at the end of everything shown under the same condition, and under no other. |
| Streaming.CombinedConserves | crates/acp_thread/src/acp_thread.rs:446-456 | A whole message shows exactly its blocks if and only if it does not start with a link, or is one link that is no mention. |
| MentionLinks.LinkDiffers | crates/acp_thread/src/acp_thread.rs:519-525 | The markdown for a URI is the URI itself if and only if the URI is no mention; with a line break behind it, it never is. |
| Streaming.AppendConservesIff | crates/acp_thread/src/acp_thread.rs:458-486 | An append adds the block's markdown and nothing else if and only if the content is not a bare link, and is not empty when the block is a link that is a mention. |
| Streaming.MentionIsRewritten | crates/acp_thread/src/acp_thread.rs:458-486 | The URI of any file, followed by any text: it is shown as it is while it stands alone, and rewritten as soon as something follows. |
| ShownText.TextChunkAdds | crates/acp_thread/src/acp_thread.rs:1122-1200 | A chunk of text, a thought or user text adds exactly its characters, in its kind, at the end of everything shown, unless the content that it is added to is a bare link. |
| ShownText.TextRunShows | crates/acp_thread/src/acp_thread.rs:1122-1200 | On any run of such chunks, the thread shows their characters, in order and in their kind, and nothing else. |
| ShownText.AnswerIsJoined | crates/acp_thread/src/acp_thread.rs:1158-1200 | Any number of chunks of one kind become one part of one message, with their texts joined. |
| ShownText.MessageIsJoined | crates/acp_thread/src/acp_thread.rs:446-456 | A message of text blocks shows their texts joined, and keeps the blocks. |
| ShownText.UserChunkKept | crates/acp_thread/src/acp_thread.rs:1122-1156 | A user chunk goes to the last user message, or opens one; the message keeps all blocks as they came, and the last identifier that came with one. |
| ShownText.BehindContent | crates/acp_thread/src/acp_thread.rs:500-531 | Behind other content a text is shown as it is, a link or resource by its name and URI if it is a mention and as it came if it is not, and an image by its mark. |
| ShownText.OpeningLink | crates/acp_thread/src/acp_thread.rs:458-486 | A link that opens a content is shown by its URI while it stands alone, and by its markdown on a line of its own once text follows. |
| ShownText.NameOfFile | crates/acp_thread/src/mention.rs:171-190 | The name of a file or directory is the last part of its path. |
| ShownText.NameOfSelection | crates/acp_thread/src/mention.rs:322-332 | The name of a selection is that of its file, or a fixed one, and its lines counted from one. |
| ShownText.PlainDecodes | crates/acp_thread/src/mention.rs:171-190 | Names of plain characters are shown as they are. |
| PermissionRuns.RunTidy | crates/acp_thread/src/acp_thread.rs:1158-1336 | On any run tool-call identifiers are unique, no two assistant messages are neighbours, and their parts alternate. |
| PermissionRuns.StepConserves | crates/acp_thread/src/acp_thread.rs:1122-1336 | A step leaves what is shown up to the entries that it removes, and adds exactly what it brings, if and only if the chunk or message it brings is one that is conserved. |
| PermissionRuns.RunConserves | crates/acp_thread/src/acp_thread.rs:1122-1336 | At every moment of a run, refusals and rewinds included, the thread shows what the events so far brought, in order, tool calls included, less what went with removed entries, if and only if every step of the run is conserved. |
| PermissionRuns.RunWithoutLinks | crates/acp_thread/src/acp_thread.rs:1122-1336 | It does on any run in which no chunk is a resource link and no message starts with one, whatever else happens: a condition on the events alone. |
| Permissions.StepLinear | crates/acp_thread/src/acp_thread.rs:1231-1336 | Every step keeps each issued request in exactly one place, as a sender in one tool call or as an outcome, and no other request anywhere. |
| Permissions.OnlyMatch | crates/acp_thread/src/acp_thread.rs:1338-1352 | With unique identifiers the reverse search finds the only entry for a tool call. |
| PermissionRuns.RequestInOnePlace | crates/acp_thread/src/acp_thread.rs:1434-1511 | In every reachable thread a request either has an outcome and no sender is left, or has none and exactly one tool call holds its sender. |
| PermissionRuns.OutcomesAreFinal | crates/acp_thread/src/acp_thread.rs:1470-1480 | What a requester has read never changes, however the run goes on. |
| PermissionRuns.StepSelectsIff | crates/acp_thread/src/acp_thread.rs:1482-1511 | A requester comes to read an option in a step if and only if the step authorizes the tool call waiting on that request with that option, or is that request, answered at once. |
| PermissionRequests.AnsweredAtOnce | crates/acp_thread/src/acp_thread.rs:1434-1460 | A request with always-allow on is answered at once with the first option in the list that allows once, never with one that allows always; its tool call is pending and holds no sender. |
| PermissionRequests.WaitsForAnswer | crates/acp_thread/src/acp_thread.rs:1462-1480 | With always-allow off, or without an option that allows once, the only tool call with the identifier waits with these options, and the request has no outcome. |
| PermissionRequests.RefusedRequest | crates/acp_thread/src/acp_thread.rs:1454-1468 | A request whose content cannot be converted, or that is for an unknown tool call and lacks what a new one needs, issues nothing. |
| PermissionRequests.UpdateWrites | crates/acp_thread/src/acp_thread.rs:1231-1296 | An update of a known tool call writes the reported status, if any, notes output that can be converted, and changes nothing else. |
| PermissionRequests.UnknownFails | crates/acp_thread/src/acp_thread.rs:1231-1296 | An update of an unknown tool call leaves a failed one at the end. |
| PermissionRequests.UpsertNotesOutput | crates/acp_thread/src/acp_thread.rs:1305-1336 | An upsert that goes through sets the status, keeps the output there was and notes what it brings. |
| PermissionRequests.RunningIff | crates/acp_thread/src/acp_thread.rs:1659-1760 | After any run a turn is running exactly if one has started and, since then, none was canceled or has ended otherwise than by a cancel. |
| PermissionEnds.StepCancelsIff | crates/acp_thread/src/acp_thread.rs:1231-1336 | A requester comes to read that its request is cancelled in a step if and only if the step overwrites the status of the tool call waiting on it, cancels a running turn, or removes the entry. |
| PermissionEnds.EndsOnce | crates/acp_thread/src/acp_thread.rs:1434-1511 | On any run a request with an outcome has exactly one event that explains it: the answer, or the step that cancelled it. |
| PermissionEnds.SelectedByAnswer | crates/acp_thread/src/acp_thread.rs:1482-1511 | A requester that reads an option owes it to exactly one event of the run, which answered its request with it. |
| PermissionEnds.WaitsOrEnded | crates/acp_thread/src/acp_thread.rs:1434-1511 | So every request issued is held by exactly one tool call and no event so far ends it, or is held by none and exactly one event of the run explains its outcome: the answer, or the step that cancelled it. |
| PermissionRuns.CancelAnswersAll | crates/acp_thread/src/acp_thread.rs:1755-1783 | Canceling a running turn leaves no request unanswered, and all that were open read that they are cancelled. |
| PermissionRuns.CancelStopsAll | crates/acp_thread/src/acp_thread.rs:1755-1783 | Canceling a running turn cancels exactly the tool calls that are pending, waiting or in progress, and leaves every other entry. |
| PermissionRuns.AuthorizedEndsWaiting | crates/acp_thread/src/acp_thread.rs:1482-1511 | After an answer the tool call is rejected or in progress as the kind of the option says, and no other entry has changed. |
| PermissionRuns.UpsertedExactly | crates/acp_thread/src/acp_thread.rs:1305-1336 | After an upsert that goes through exactly one tool call has the identifier, with the given status, and every other entry is as before. |
| PermissionRuns.RefusalRemovesLastTurn | crates/acp_thread/src/acp_thread.rs:1707-1743 | A refusal removes the last user message and all that follows, unless a completed tool call with output follows it. |
| PermissionRuns.RewindRemovesFrom | crates/acp_thread/src/acp_thread.rs:1813-1834 | A rewind removes the first user message with the identifier and all that follows. |
| ThreadObject.AcpThread.IndexForToolCall | crates/acp_thread/src/acp_thread.rs:1338-1352 | The search from the end finds the last entry for the identifier, or nothing. |
| ThreadObject.AcpThread.FirstToolAwaitingConfirmation | crates/acp_thread/src/acp_thread.rs:1513-1534 | It finds the first waiting tool call among the tool calls that end the thread, or nothing. |
| ThreadObject.AcpThread.PushUserContentBlock | crates/acp_thread/src/acp_thread.rs:1122-1156 | The object makes the user-chunk step. |
| ThreadObject.AcpThread.PushAssistantContentBlock | crates/acp_thread/src/acp_thread.rs:1158-1200 | The object makes the assistant-chunk step. |
| ThreadObject.AcpThread.SendUserMessage | crates/acp_thread/src/acp_thread.rs:1588-1623 | The object makes the step that adds a whole user message. |
| ThreadObject.AcpThread.RunTurn | crates/acp_thread/src/acp_thread.rs:1659-1671 | The object makes the step that starts a turn: it cancels a running one first. |
| ThreadObject.AcpThread.FinishTurn | crates/acp_thread/src/acp_thread.rs:1672-1751 | The object makes the step that ends a turn, with the removal of a refused prompt. |
| ThreadObject.AcpThread.UpsertToolCallInner | crates/acp_thread/src/acp_thread.rs:1305-1336 | The object makes the upsert step; an update that fails has already overwritten the status it carried. |
| ThreadObject.AcpThread.UpdateToolCall | crates/acp_thread/src/acp_thread.rs:1231-1292 | The object makes the update step; an unknown tool call becomes a failed one. |
| ThreadObject.AcpThread.RequestToolCallAuthorization | crates/acp_thread/src/acp_thread.rs:1434-1480 | The object makes the request step, and returns a request exactly if the upsert went through. |
| ThreadObject.AcpThread.AuthorizeToolCall | crates/acp_thread/src/acp_thread.rs:1482-1511 | The object makes the authorize step: the sender goes to the requester with the option, and to nobody else. |
| ThreadObject.AcpThread.CancelTurn | crates/acp_thread/src/acp_thread.rs:1755-1783 | The object makes the cancel step, entry by entry; nothing happens while no turn runs. |
| ThreadObject.AcpThread.RewindTo | crates/acp_thread/src/acp_thread.rs:1813-1834 | The object makes the rewind step: entries from the first message with the identifier on are gone, and their senders dropped. |
| ThreadObject.AcpThread.HandleRefusal | crates/acp_thread/src/acp_thread.rs:1707-1743 | A refused prompt is removed with all that follows, unless a completed tool call with output follows it. |
| TerminalEvents.OutputConserved | crates/acp_thread/src/acp_thread.rs:855-932 | On any run, what was written to a terminal followed by what waits for it is all output since it was last released or replaced, in order. |
| TerminalEvents.OutputNeitherLostNorReordered | crates/acp_thread/src/acp_thread.rs:855-932 | For an identifier created at most once and not released that is all output; once it is created, all of it has been written and no exit status waits. |
| TerminalEvents.RunSound | crates/acp_thread/src/acp_thread.rs:894-931 | Output and exit status wait only for an identifier without a terminal. |
| TerminalEvents.ExitWaitsIff | crates/acp_thread/src/acp_thread.rs:922-931 | On any run, an exit status waits exactly if it came for a terminal that did not exist then, and neither that terminal nor another status for it has come since. |
| TerminalEvents.Terminals.OnCreated | crates/acp_thread/src/acp_thread.rs:862-893 | The object writes the waiting chunks one by one, in order, and forgets them. |
| TerminalEvents.Terminals.OnEvent | crates/acp_thread/src/acp_thread.rs:855-939 | The object makes the step of any terminal event. |
| ToolUses.FinishedMeansAnswered | crates/agent/src/thread.rs:927-934 | On any run from the start, once no pending tool is without an error, every tool use ever requested has a result. |
| Restoring.FromSerializedMessages | crates/agent/src/tool_use.rs:61-131 | The loops over the stored messages compute the restored state. |
| Restoring.UsesRestored | crates/agent/src/tool_use.rs:61-90 | Each stored assistant message gets its tool uses back, in order, with their names, as complete ones. |
| Restoring.ResultRestored | crates/agent/src/tool_use.rs:91-131 | A restored result has the content and the error flag of a stored one, and a name that a stored tool use gave it. |
| Restoring.ResultRestoredIff | crates/agent/src/tool_use.rs:72-128 | A result is restored for an identifier if and only if an assistant message with tool uses stores one and that message, or an earlier one that counts, names the tool use. |
| Restoring.RequestedRestoredIff | crates/agent/src/tool_use.rs:72-99 | A tool use is restored if and only if an assistant message stores it and no later one with tool uses has the same message identifier. |
| Restoring.RestoredIsAnsweredIff | crates/agent/src/tool_use.rs:61-131 | A restored thread counts as finished, and every tool use has a result if and only if the stored messages hold an answer for each tool use that is restored. |
| Restoring.RestoredUnanswered | crates/agent/src/tool_use.rs:61-131 | Three ways in which a stored result is lost: it stands in a user message, its assistant message has no tool uses, or its tool use is named only later. |
| Restoring.RestoredRequestOmits | crates/agent/src/thread.rs:1338-1432 | After any run on a restored thread, a request made once all tools are finished omits exactly the tool uses without a result, and each of these was stored without an answer. |
| Restoring.RestoredRequestOmitsNothing | crates/agent/src/thread.rs:1338-1432 | If the stored messages hold an answer for each tool use, such a request lists every tool use of the thread's messages. |
| Restoring.JustRestoredRequestLists | crates/agent/src/thread.rs:1338-1432 | Just restored, a request lists a tool use of the thread's messages if and only if there is a stored answer for it. |
| ToolUses.RunAccounted | crates/agent/src/tool_use.rs:300-363 | On any run every requested tool use has a result or is pending without an error, and a message's tool uses have distinct identifiers. |
| ToolUses.ToolUseState.RequestToolUse | crates/agent/src/tool_use.rs:300-363 | The object replaces a known tool use in place or adds a new one, and makes it pending. |
| ToolUses.ToolUseState.RunPendingTool | crates/agent/src/tool_use.rs:365-377 | The object makes the step that marks a pending tool as running. |
| ToolUses.ToolUseState.ConfirmToolUse | crates/agent/src/tool_use.rs:379-399 | The object makes the step that marks a pending tool as waiting for confirmation. |
| ToolUses.ToolUseState.InsertToolOutput | crates/agent/src/tool_use.rs:401-506 | The object stores the result and removes the pending tool use, or marks it as failed, and returns it. |
| ToolUses.ToolUseState.CancelPending | crates/agent/src/tool_use.rs:133-156 | Exactly the pending tools without an error are canceled, get a result and are returned, in whatever order they are visited. |
| ToolSteps.TextStored | crates/agent/src/tool_use.rs:422-475 | A text output is stored as it is if it is shorter than the limit, and shortened if not, as no error; the tool use is pending no more, and nothing else changes. |
| ToolSteps.ImageStored | crates/agent/src/tool_use.rs:446-475 | An image is stored if it needs fewer tokens than the limit; otherwise a fixed message is stored as an error. |
| ToolSteps.FailureStored | crates/agent/src/tool_use.rs:481-500 | A failure stores its message as an error, and leaves the tool use pending in error if it was pending. |
| ToolSteps.CanceledStored | crates/agent/src/tool_use.rs:133-156 | A cancel stores an error for exactly the tool uses that were pending without one, which are pending no more. |
| ToolSteps.PendingMarked | crates/agent/src/tool_use.rs:365-399 | Running or confirming a tool marks it if it is pending, and changes nothing else. |
| ToolSteps.RequestedIsPending | crates/agent/src/tool_use.rs:300-363 | A requested tool use is pending, for its message, and idle exactly if its input is complete. |
| ToolSteps.ListsLatest | crates/agent/src/tool_use.rs:300-363 | On any run a message lists a tool use exactly if it requested just that one last under its identifier. |
| CompletionRequests.RequestPaired | crates/agent/src/thread.rs:1338-1432 | In any request the message after one with tool uses holds their results and nothing else, with the same identifiers in the same order, none of them empty; results occur nowhere else. |
| RequestContents.RequestSays | crates/agent/src/thread.rs:1306-1432 | A request says the system prompt and then, message by message in order, the context, one content for each segment that is not empty, and the answered tool uses, with their results in a message behind it; messages for display only say nothing. |
| RequestContents.RequestOfSays | crates/agent/src/thread.rs:1347-1431 | A text segment is sent without the white space at its end, and blank ones are not; thoughts are sent with their text and signature; images of the context never come first. Each result has the stored name, content and error flag, and a fixed text only in place of blank content. |
| CompletionRequests.FinishedRequestOmitsNothing | crates/agent/src/thread.rs:1338-1432 | On any run from the start, a request made once all tools are finished lists every tool use of the thread's messages, in order. |
| CompletionRequests.CacheMarkIsLast | crates/agent/src/thread.rs:1379-1432 | The cache mark is on what the last sent message with all tool uses answered contributes last; without such a message there is none. |
| CompletionRequests.NoneCacheableAfter | crates/agent/src/thread.rs:1379-1424 | No later message is sent with all its tool uses answered. |
| CompletionRequests.CacheMarksExactly | crates/agent/src/thread.rs:1315-1432 | No message is marked but the system prompt and the one at the cache mark. |
| CompletionRequests.FinishedCachesAll | crates/agent/src/thread.rs:1379-1432 | Once all tools are finished the mark is on the last message of the request. |
| Threads.PairToolUses | crates/agent/src/thread.rs:1387-1419 | The loop pairs the answered tool uses with their results, and reports whether all were answered. |
| Threads.Thread.ToCompletionRequest | crates/agent/src/thread.rs:1279-1442 | The loops build the specified request from the messages that are not only for display. |
| Threads.Thread.ToolFinished | crates/agent/src/thread.rs:2662-2684 | A request is sent exactly if all tools are finished, a model is configured, nothing was canceled and turns are left. It lists exactly the tool uses with a result, in order, each paired with it; and every tool use, unless the thread was restored with one that has no answer. |
| Threads.Thread.Deserialize | crates/agent/src/thread.rs:499-616 | A thread restored from stored messages has the tool uses restored from them, and its next identifier follows the last one. No other condition is needed for the contracts of the thread's methods. |
| Threads.Thread.FindMessage | crates/agent/src/thread.rs:712-719 | Binary search finds the message with the identifier if and only if there is one. |
| Threads.Thread.PushMessage | crates/agent/src/thread.rs:1063-1085 | Identifiers keep increasing. |
| Threads.Thread.EditMessage | crates/agent/src/thread.rs:1087-1118 | Exactly the message with the identifier is changed, and keeps its context unless a new one is given; whether there is one is reported. |
| Threads.Thread.DeleteMessage | crates/agent/src/thread.rs:1120-1130 | Exactly the message with the identifier is removed, and identifiers keep increasing. |
| Threads.Thread.TruncateAt | crates/agent/src/thread.rs:874-886 | The message and all later ones are removed, if it exists. |
| Threads.Thread.RemoveRefusedTurn | crates/agent/src/thread.rs:1888-1924 | Deleting message by message removes exactly the last turn: from the last user message that opens the thread or follows an assistant message. |
| Threads.TurnStartIs | crates/agent/src/thread.rs:1888-1924 | The last turn starts at the last user message that opens the thread or follows an assistant message, and with the thread if there is none. |
| TokenTotals.Totals.UsageUpdate | crates/agent/src/thread.rs:1665-1671 | With any number of concurrent requests the total stays the starting value plus the sum of what each request reported last, and the subtraction is always defined. |
| TokenTotals.SumSnoc | crates/agent/src/thread.rs:1665-1671 | One more report changes the sum by its usage less what the same request reported before. |
| TokenTotals.TotalFallsIff | crates/agent/src/thread.rs:2016-2017 | A report lowers the total exactly if it takes back what its request reported before. |
| TokenTotals.TotalNeverFalls | crates/agent/src/thread.rs:2016-2017 | If no report takes anything back, the difference to any earlier total is defined. |
| TokenTotals.TotalNeverFallsIff | crates/agent/src/thread.rs:2016-2017 | Over a whole run, the difference of any two totals is defined if and only if no report takes back what its request reported before. |
| TokenTotals.TotalCanFall | crates/agent/src/thread.rs:2016-2017 | Reports after which that difference is negative. |
| Excerpts.ExcerptRanges | crates/acp_thread/src/diff.rs:315-345 | The ranges are in order with gaps between them, and cover exactly what the hunks and revealed ranges cover. |
| Excerpts.Extend | crates/acp_thread/src/diff.rs:333-340 | The inner loop extends a range by all that start within it, and covers the same places. |
| Excerpts.CanonicalIsUnique | crates/acp_thread/src/diff.rs:315-345 | Two such lists that cover the same places are equal, so the result depends neither on order nor on repetitions of the input. |
| Excerpts.SortedOrders | crates/acp_thread/src/diff.rs:328-328 | Sorting by start, and for equal starts by descending end, orders the ranges and keeps each as often as it was there. |
| Mentions.LineRangeRoundTrip | crates/acp_thread/src/mention.rs:53-71 | A printed line range parses to itself if and only if neither line is the largest 32-bit number. |
| Mentions.FileRoundTrip | crates/acp_thread/src/mention.rs:213-221 | A file comes back from its printed URI if and only if its path is UTF-8 text. |
| Mentions.DirectoryRoundTrip | crates/acp_thread/src/mention.rs:223-229 | The same for a directory. |
| Mentions.PastedImageRoundTrip | crates/acp_thread/src/mention.rs:222-222 | A pasted image comes back. |
| Mentions.SymbolRoundTrip | crates/acp_thread/src/mention.rs:230-245 | A symbol comes back if and only if its path is UTF-8 text, its lines can be printed and its name can stand in a path: no byte needs percent-encoding and no segment is a dot or two dots. |
| Mentions.SelectionRoundTrip | crates/acp_thread/src/mention.rs:246-265 | A selection in a file comes back if and only if its path is UTF-8 text and its lines can be printed. |
| Mentions.UntitledSelectionRoundTrip | crates/acp_thread/src/mention.rs:246-265 | A selection without a file comes back if and only if its lines can be printed. |
| Mentions.ThreadRoundTrip | crates/acp_thread/src/mention.rs:266-271 | A thread comes back if and only if its identifier can stand in a path. |
| Mentions.TextThreadRoundTrip | crates/acp_thread/src/mention.rs:272-280 | A text thread comes back if and only if its path has no leading slash and can stand in a path. |
| Mentions.RuleRoundTrip | crates/acp_thread/src/mention.rs:281-286 | A rule comes back. |
| Mentions.FetchRoundTrip | crates/acp_thread/src/mention.rs:165-166 | A URL comes back as a fetch if and only if it is one for the web. |
| MentionTexts.FileParts | crates/acp_thread/src/mention.rs:213-229 | A file's or directory's URI has its own path and the file path in the query, form-encoded; a pasted image's has a path only. |
| MentionTexts.SelectionParts | crates/acp_thread/src/mention.rs:246-265 | A selection's URI has the file path in the query and the lines, counted from one, in the fragment; without a file it has another path and no query. |
| MentionTexts.SymbolParts | crates/acp_thread/src/mention.rs:230-245 | A symbol's URI has its name in the path, its file in the query and its lines in the fragment. |
| MentionTexts.ThreadParts | crates/acp_thread/src/mention.rs:266-271 | A thread's URI has its identifier in the path and its name in the query. |
| MentionTexts.TextThreadParts | crates/acp_thread/src/mention.rs:272-280 | A text thread's URI has its path, without leading slashes, in the path and its name in the query. |
| MentionTexts.RuleParts | crates/acp_thread/src/mention.rs:281-286 | A rule's URI has its identifier in the path and its name in the query. |
| MentionTexts.OwnText | crates/acp_thread/src/mention.rs:213-286 | Such a URI is written as the scheme, the path, and the query and fragment with their marks. |
| MentionTexts.OtherBytes | crates/acp_thread/src/mention.rs:216-220 | Form-encoding writes a space as a plus sign, and any other byte that it does not keep as a percent sign and two digits. |
| FileUris.PathReadIff | crates/acp_thread/src/mention.rs:73-78 | The path read from the URI of a file path is that path, byte for byte, if and only if the URI has no backslash, no dot segment and no drive letter with a bar at its beginning, and the path does not end with a drive letter. Paths compared part by part, as the standard library does, may be equal although their bytes are not: that ignores single dots and a slash at the end. |
| FileUris.PathReadEncodes | crates/acp_thread/src/mention.rs:73-78 | What is left of a path once it is resolved encodes a path byte by byte, as the URI does. |
| FileUris.FileUriParses | crates/acp_thread/src/mention.rs:76-96 | A file URI without fragment is a directory if it ends with a slash and a file otherwise, with the path that is read from it: the path written, exactly under that condition. |
| FileUris.FileSelectionParses | crates/acp_thread/src/mention.rs:76-91 | With a line range it is that selection, and no mention if a line is the largest 32-bit number; the path is the one written exactly under that condition. |
| FileUris.FileSymbolParses | crates/acp_thread/src/mention.rs:76-91 | With a line range and a symbol parameter it is that symbol, with the path as before. |
| FileUris.DotsAreResolved | crates/acp_thread/src/mention.rs:73-78 | The URI of /a/../b is read as /b. |
| FileUris.BackslashesAreSlashes | crates/acp_thread/src/mention.rs:73-78 | The URI of /a\b is read as /a/b. |
| FileUris.DrivesAreRewritten | crates/acp_thread/src/mention.rs:73-78 | The URI of a lone drive letter written with a bar is read with a colon, and with a slash behind it. |
| Urls.FormEncodeDecodes | crates/acp_thread/src/mention.rs:216-220 | Decoding a form-encoded query value gives its bytes back, and encoding uses no character with a meaning in URLs. |
| Urls.AppendedPairReads | crates/acp_thread/src/mention.rs:307-320 | The one pair appended to a URL is the one pair read from it, with bytes that are no text replaced. |
| Urls.ReadResolves | crates/acp_thread/src/mention.rs:73-74 | A URL's text splits into the parts it was written from, with the path resolved. |
| Urls.ReadWritten | crates/acp_thread/src/mention.rs:73-74 | A URL whose path is resolved comes back as it is. |
| UrlPaths.ParsedUnchangedIff | crates/acp_thread/src/mention.rs:73-74 | A path that needs no encoding is read as it is written if and only if it has no backslash that counts as a slash, no dot segment, and no drive letter with a bar. |
| UrlPaths.StoredUnchangedIff | crates/acp_thread/src/mention.rs:236-236 | A path is stored unchanged if and only if no byte needs encoding and no segment is a dot or two dots. |
| UrlPaths.StoredIsRead | crates/acp_thread/src/mention.rs:73-74 | A stored path is read as it is, unless its scheme is one of the web's or a file's. |
| Utf8Text.LossyKeepsText | crates/acp_thread/src/mention.rs:218-219 | Replacing what is no character leaves bytes unchanged if and only if they are UTF-8 text. |
| Utf8Text.BoundaryIsValidPrefix | crates/acp_thread/src/terminal.rs:134-136 | The test on one byte finds exactly the places that split valid text into valid text. |
| Truncation.TruncatedIsExact | crates/acp_thread/src/terminal.rs:125-144 | The result is a prefix within the limit, shorter than the content exactly if that exceeds the limit, and cut at the last line break within the largest valid prefix within the limit, or at its end if it has none. |
| Truncation.TruncatedIsValid | crates/acp_thread/src/terminal.rs:125-144 | The result is valid UTF-8. |
| Truncation.Terminal.TruncatedOutput | crates/acp_thread/src/terminal.rs:125-144 | The backward scans end and compute that result, and the length of the whole content. |
| Truncation.Terminal.CurrentOutput | crates/acp_thread/src/terminal.rs:99-123 | While the command runs, and after it has ended, `truncated` holds exactly if the content exceeds the limit. |

## Left out

- One buffer: the log is modelled for one buffer; buffers do not affect each other.
- Row numbers are unbounded integers; overflow of 32-bit rows and deltas is not modelled.
- ActionLogObject.ReviewLog.RejectEdits: does not model anchors; when the buffer has been edited since the snapshot, the text that reverting the hunks at their anchors gives is an input.
- Clipping row numbers to the last row in reject: no row range or unreviewed hunk of a text reaches beyond it, so clipping changes nothing.
- Rejecting a created file without previous content deletes the file only if nobody else has edited it; the file and the buffer version that decides are not modelled.
- The branch of the background update in which the diff library fails: it clears the hunks, and they are then no patch.
- A keep need not survive an update that read the base before it; the second half writes the base it has computed.
- The flag for user edits that the model has not been told about, the text of that notification, and language servers.
- Diff library, rope, anchors, edits since a version, and line diff: they are inputs that are patches; the character edits between two snapshots lie apart and within the characters of both.
- Titles, contents, locations and diffs of tool calls; only identifier, status and whether there is output are kept. Whether an update's content can be converted is an input.
- The assertion that stops a debug build when a tool call is authorized twice; the model takes the release behaviour, which overwrites the status.
- RejectUpdates.RejectNotAbsorbedIff: whether slips in opposite directions cancel out is not characterised; they can only among blank rows that are deleted in one place and inserted in another (`RejectUpdates.SlipsCancelOut`).
- Terminals that the thread creates itself: their identifiers are new, so nothing can wait for them.
- Telemetry, cards and metadata of tool uses, and the shortening of long results: the shortened text is an input.
- The simulated tool call that carries notifications: it is a request and an output like any other.
- Retry delays and the decision to retry; the message that announces a retry is one that is never sent.
- Threads.Thread.Deserialize: requires stored messages with increasing identifiers, which is how a thread stores them; their text and context are an input.
- Usage per message; only the running total is modelled.
- Token counts are unbounded; overflow of 64-bit totals is not modelled.
- Excerpts.ExcerptRanges: requires ranges that run forward, which ranges of a buffer do.
- Hosts, ports and user names in URLs beyond a plain text; schemes in capitals, and spaces or line breaks around a URL or within it, which the URL standard drops.
- Characters beyond ASCII in the text of a URI: all are read as one and the same byte, where the URL standard percent-encodes them.
- The URL library is not part of the repository; its parsing is that of the WHATWG URL Standard, and turning a file URL into a path puts a slash behind a drive letter, as that library does on Unix.
- The path percent-encode set is that of the WHATWG URL Standard, with the caret.
- Rule identifiers: only UUIDs with hyphens are read; other spellings of a UUID are not.
- Non-UTF-8 names cannot occur, so names are required to be text where they are printed.
- Retry strategies, history and context stores, profiles, version upgrades, rendering, and events to observers.
