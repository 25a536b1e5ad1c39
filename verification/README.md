# Verified model of the workbench's protocols, streams and geometry

The repository is an AI image workbench: a web canvas, a service, and a command-line client.  This
project models the parts of it whose correctness is hard to see from one function, and proves what
their comments, tests and documentation promise:

- the CLI's token refresh, in which any number of processes share one stored credential and must
  never look like a thief to the service, whatever is lost, repeated or killed on the way;
- the machine-wide test lock, a protocol over hard links and process ids;
- two streaming text machines, which must give at every moment what a reading of the whole text gives;
- the geometry of arranging, placing and grouping cards on the canvas;
- the credential store and its files, the migration guard, the daily update check, upload claims, the
  content fingerprint, the bounded image caches and the design-rule ratchet.

Run `dafny verify dfyconfig.toml` to check it.

## How it is built

One module per component.  Code that changes things step by step is a method, and where an object's
methods change its fields it is a class with those fields; each such method is proved equal to a
function of the old state (`Apply`, `SplitOf`, `LayoutOf`, `Strip`, `SaveOf`, `Moved`, `Settled`, `Step`, ...), and the
theorems are about that function, over all inputs and all runs.  Protocols are state machines: `Apply`
takes one step, `Run` a sequence of them, and a step that is not possible changes nothing, so "every
run" is every sequence of steps.

What comes from outside is a parameter: random identities are the next unused number, a keyed hash is
a constructor (different inputs, different results), the network and crashes are steps, the outcome of
a write is an argument, Unicode tables and the JSON codec are function-valued fields with the few facts
about them that matter spelled out (`ReplyScripts.Sane`, `RecordFile.Sound`, `UploadClaims.Sound`).
Text is a sequence of UTF-16 code units.  Canvas coordinates are reals.

## Where the code and its promise part

Each of these is stated exactly: the property holds if and only if a condition holds.

- Two login processes may redeem one device code for the same tokens.  A refresh token is never sent under two
  identities, and a live connection never refused, exactly when no login puts back a first token that is already
  in use (`RefreshProtocol.SafeExactlyWhenTimely`, with a run that fails in `LateLoginWitness`).
- The test lock is exclusive in every run exactly when process ids are not reused and nobody dies or
  stands still past the limit inside `reclaim`, from the writing of its mark on
  (`TestLock.ExclusiveExactlyWhen`); four runs show what goes wrong.
- Arranging an arranged canvas gives the same placements exactly when there is nothing to move, because the top edge
  drifts by a caption's height (`ArrangeGeometry.StableExactlyWhenNothingMoves`, `OneImageDrifts`).
- Cleaning a cleaned reply again changes it exactly when dropped characters stood between two lone
  surrogate halves that then join to a character to be dropped (`ReplyScripts.StripStableExactlyWhen`,
  `ReplyHistory.LiveReplyStaysExactlyWhen`; `ReplyScripts.HalvesRejoin`).
- A checksummed state file, rewritten in place, can be read as a third record exactly when the two records slip past
  each other, which their lengths decide, or a checksum is forged (`TornRecords.MisreadExactlyWhen`).  While the text
  ahead of the checksum's key keeps its length nothing is lost (`SteadyKeyIsSafe`); if it gets one to eight bytes
  longer or shorter some state has no checksum (`LostExactlyWhenKeyMoves`) and is trusted, with a login as the new
  access token beside the old refresh token (`TornLogins.RefreshIsMixed`).  The times in a login are written without
  trailing zeros, so a refresh can do that.  The comment that a torn record is never half trusted does not hold.
- A service record loses its checksum on the way exactly when the addresses differ in length by one to eight bytes,
  or the new one is at least fourteen longer (`TornLogins.ServiceLosesExactlyWhen`, `ServiceIsCut`).
- A saved login is loaded back exactly when the keychain does not take what it will not give back, or the file
  happens to hold that login and could not be emptied (`CredentialStore.SavedIsLoadedExactlyWhen`,
  `QuietKeychainLosesLogin`).
- A frame's cards keep their place in it exactly when its moves before the last one cancel out
  (`CanvasGroups.FollowsExactlyWhen`, `TwoMovesAddUp`).
- A new upload stamp is later than the one before exactly when that one is still readable or the clock is
  ahead of it (`UploadClaims.LaterExactlyWhen`, `LimitIsForgotten`).
- One prompt a day is kept in all runs exactly when clocks do not go back (`UpdateCheck.OnceExactlyWhenSteady`,
  `AsksTwice`), and right after a prompt a healthy call asks again exactly when its clock is behind
  (`UpdateCheck.AsksAgainExactlyWhen`).  The day is that of the clock reading each call starts with, not of the
  moment it returns.

## Model

| member | source | states |
|---|---|---|
| RefreshProtocol.EveryRun | cli-go/internal/cli/auth.go:87-184 | the protocol's invariant holds after every sequence of steps of any processes without a late login: lost and repeated requests, crashes, failed saves, sign-outs, and logins redeemed and stored at any moments |
| RefreshProtocol.NeverASecondIdentity | cli-go/internal/cli/auth.go:84-173 | in every such run no refresh token is sent under two request identities, and no connection is ever revoked for reuse |
| RefreshProtocol.RefusedOnlyWhenDead | cli-go/internal/cli/auth.go:120-144 | in every such run an answer is never `refresh_request_completed`, and `invalid_grant` only for a connection its user revoked or that expired |
| RefreshProtocol.AlwaysRecoverable | cli-go/internal/cli/auth.go:108-158 | in every state such a run reaches, the stored credential, used as the next refresh will use it, gets tokens while its connection lives |
| RefreshProtocol.SafeExactlyWhenTimely | cli-go/internal/cli/auth.go:309-482 | both properties hold in every run if and only if no login puts back a first token that is in use: sent, or about to be sent by the holder of the refresh lock |
| RefreshProtocol.StoringLoginIsSafeExactlyWhen | cli-go/internal/cli/auth.go:469-482 | in any state reached so far, storing a login leaves every timely continuation safe if and only if its token is not in use |
| RefreshProtocol.LateLoginWitness | apps/bff/src/lib/cli/auth.ts:368-376 | a run in which two login processes redeem one code for the same tokens, a refresh rotates them, and the second save makes the next refresh send the first token under another identity and be refused on a live connection |
| RefreshProtocol.LateLoginBreaksIt | cli-go/internal/cli/auth.go:469-473 | from any state in which the token is in use, how the second identity comes about |
| RefreshProtocol.StoredIsRefreshable | apps/bff/src/lib/cli/auth.ts:304-343 | what the service answers to the stored credential: the successor of its token under its identity, which becomes the current one |
| RefreshProtocol.GrantCases | apps/bff/src/lib/cli/auth.ts:452-568 | a sent request either rotates the connection it is current for, or leaves it as it is and is answered by replay or refusal |
| RefreshProtocol.HandleKeeps | apps/bff/src/lib/cli/auth.ts:452-568 | whatever sent request the service handles, again or late, the invariant stays |
| RefreshProtocol.SendKeeps | cli-go/internal/cli/auth.go:175-184 | sending a token under the identity stored with it keeps the invariant |
| RefreshProtocol.PersistIdKeeps | cli-go/internal/cli/auth.go:161-173 | saving a fresh identity keeps the invariant, also when the save reports failure and took effect |
| RefreshProtocol.TakeAnswerKeeps | cli-go/internal/cli/auth.go:121-146 | acting on any answer keeps the invariant |
| RefreshProtocol.StoreTokensKeeps | cli-go/internal/cli/auth.go:145-158 | storing new tokens, or failing to, keeps the invariant |
| RefreshProtocol.StoreLoginKeeps | cli-go/internal/cli/auth.go:469-482 | storing a login beside a running refresh, at any time after its redemption and any number of times, keeps the invariant while its token is not in use |
| RefreshProtocol.RedeemKeeps | apps/bff/src/lib/cli/auth.ts:391-419 | redeeming a device code opens a connection and keeps the invariant |
| RefreshProtocol.LogoutKeeps | cli-go/internal/auth/store.go:336-350 | signing out beside a running refresh keeps the invariant |
| RefreshProtocol.LogoutSignsOut | cli-go/internal/auth/store.go:336-350 | after signing out nothing is stored as far as that could be cleared, and a connection the service was told about is revoked |
| RefreshProtocol.HolderStays | cli-go/internal/cli/auth.go:87-101 | no step hands a lock that is held to another process |
| RefreshProtocol.SentMayArrive | apps/bff/src/lib/cli/auth.ts:452-568 | a request that was ever sent can reach the service at any later time, repeatedly, and nothing else can |
| RefreshProtocol.UnknownIsRefused | apps/bff/src/lib/cli/auth.ts:475-485 | a token of no known connection is refused |
| RefreshProtocol.RevokedIsDead | apps/bff/src/lib/cli/auth.ts:304-343 | a revoked connection is dead and no other is touched |
| TokenService.TokensAreCurrent | apps/bff/src/lib/cli/auth.ts:304-343 | tokens are only ever answered for a live connection and are its current ones, and their lifetime is what is left of it in whole seconds |
| TokenService.AnsweredExactlyWhen | apps/bff/src/lib/cli/auth.ts:452-568 | when a request gets tokens, and when it is told that its identity was used before |
| TokenService.RevokedExactlyWhen | apps/bff/src/lib/cli/auth.ts:452-568 | a connection is revoked exactly by an old token that was replaced without an identity, and gets new tokens only for its current one |
| TokenService.OpenLasts | apps/bff/src/lib/cli/auth.ts:275-294 | how long a new connection and its access token last |
| TokenService.RotatedLasts | apps/bff/src/lib/cli/auth.ts:452-568 | how long a rotated one does, and which old tokens it still knows |
| RefreshRun.App.Refresh | cli-go/internal/cli/auth.go:87-159 | one call, whatever the network, the saves and the rejected token: its result is known from the state before; a login is asked for if and only if nothing is stored or an answer comes for a dead connection, which also clears the store; a live connection gets its next token in one round, or in two where the first repeats an answer that has run out; lost answers and failed saves are reported as such |
| RefreshRun.App.Begin | cli-go/internal/cli/auth.go:101-115 | when the call is over without a request and with what result, and otherwise under which identity one is about to leave |
| RefreshRun.App.PersistRefreshRequestId | cli-go/internal/cli/auth.go:161-173 | only a reported save lets the call go on, with a new identity stored beside the same token |
| RefreshRun.App.PostRefresh | cli-go/internal/cli/auth.go:175-184 | an answer comes exactly when neither request nor answer is lost; a live stored credential gets the successor token, a dead one a refusal |
| RefreshRun.App.Settle | cli-go/internal/cli/auth.go:121-158 | for each answer what is returned, what the store holds, and whether another round follows |
| RefreshRun.AnsweredWithTokens | cli-go/internal/cli/auth.go:116-121 | in any reachable state before a request, an answer from a live connection brings the next tokens |
| RefreshRun.DeadIsRefused | apps/bff/src/lib/cli/auth.ts:452-568 | in any reachable state before a request, an answered request of a connection that is not live is refused |
| TestLock.ExclusiveExactlyWhen | scripts/test-guard.ts:81-153 | at most one live process holds the lock in every run, if and only if ids are not reused and nobody dies or stands still past the limit inside `reclaim`, counted from the writing of its mark |
| TestLock.LiveLockIsSafe | scripts/test-guard.ts:104-118 | under those conditions a live owner's lock file is removed by that owner's own exit and by nothing else |
| TestLock.RunKeeps | scripts/test-guard.ts:81-153 | the lock's invariant holds in every run |
| TestLock.InvIsExclusive | scripts/test-guard.ts:120-147 | the invariant means at most one holder |
| TestLock.FreeLockIsTaken | scripts/test-guard.ts:103-153 | in every state reached under those conditions in which no live process holds the lock, each waiting process has a continuation in which it takes it, made of its own calls and those of the mark's owner |
| TestLock.LeavesFresh | scripts/test-guard.ts:104-111 | a mark of somebody else that is not past its limit is left, and the lock tried again |
| TestLock.TimePassesExactlyWhen | scripts/test-guard.ts:81-118 | what those conditions say of time: no mark of a process inside `reclaim` gets older than the limit |
| TestLock.AdvanceLockKeeps | scripts/test-guard.ts:80-136 | every call of the waiting loop, and the writing and linking of a mark, keep the invariant |
| TestLock.AdvanceReclaimKeeps | scripts/test-guard.ts:112-117 | every call inside `reclaim` keeps the invariant |
| TestLock.StallBreaksIt | scripts/test-guard.ts:107-114 | a run with two holders after a process stood still between the check and the removal |
| TestLock.LateLinkBreaksIt | scripts/test-guard.ts:81-93 | a run with two holders after a process stood still between writing its mark and linking it, so that the mark was stale when it appeared |
| TestLock.DeathBreaksIt | scripts/test-guard.ts:107-108 | a run with two holders after a process died inside `reclaim` and two others swept its mark |
| TestLock.ReuseBreaksIt | scripts/test-guard.ts:128-133 | a run with two holders after a judged process id came back |
| TestLock.Guard.Reclaim | scripts/test-guard.ts:104-118 | undisturbed, it removes the lock exactly if it is still the one judged dead, and leaves no mark |
| TestLock.Guard.AcquireTestLock | scripts/test-guard.ts:121-153 | undisturbed, a free or dead lock is taken and a live one waited for and left alone |
| TestLock.Guard.Leave | scripts/test-guard.ts:150-152 | an exit takes the owner's lock with it and leaves a lock that is not its own |
| InlineReasoning.TagExactlyWhen | packages/shared/src/agent-inline-reasoning.ts:80-113 | the reading of the opening finds a tag exactly where the text starts with space, `<`, a listed name in any case, space and `>` |
| InlineReasoning.UndecidedExactlyWhen | packages/shared/src/agent-inline-reasoning.ts:80-113 | the opening is left pending exactly while some continuation would still make it a tag |
| InlineReasoning.OpeningStays | packages/shared/src/agent-inline-reasoning.ts:28-32 | a decided opening stays as it is however the text goes on |
| InlineReasoning.CloseStays | packages/shared/src/agent-inline-reasoning.ts:125-156 | the leftmost closing tag stays the leftmost one when the text grows |
| InlineReasoning.ClosingTagExactlyWhen | packages/shared/src/agent-inline-reasoning.ts:125-156 | the closing tag found is the leftmost `</`, name in any case, white space and `>`, and ends there |
| InlineReasoning.NoClosingTagExactlyWhen | packages/shared/src/agent-inline-reasoning.ts:125-156 | none is found exactly where no place reads as one |
| InlineReasoning.WrittenSplits | packages/shared/src/agent-inline-reasoning.ts:54-78 | for all texts: an opening tag, thinking without `<`, a closing tag and a reply are split into that thinking and that reply |
| InlineReasoning.NothingIsLost | packages/shared/src/agent-inline-reasoning.ts:54-78 | of a finished text only tags and the white space before the reply are missing from the two parts |
| InlineReasoning.HeldExactlyWhen | packages/shared/src/agent-inline-reasoning.ts:70-77 | what is held back at the end is what some continuation would make a closing tag |
| InlineReasoning.HeldIsEnough | packages/shared/src/agent-inline-reasoning.ts:70-77 | what is held back at the end is enough: nothing before it ever becomes a closing tag or is held again |
| InlineReasoning.SplitGrows | packages/shared/src/agent-inline-reasoning.ts:159-163 | `thinking` and `text` only grow at the end from one answer to the next, the finishing one included |
| InlineReasoningSplitter.NotFound | packages/shared/src/agent-inline-reasoning.ts:126-156 | a scan that never looks back misses no closing tag, and its candidate is the held part |
| InlineReasoningSplitter.Found | packages/shared/src/agent-inline-reasoning.ts:148-152 | the closing tag the scan stops at is the leftmost one of the text |
| InlineReasoningSplitter.Splitter.DecideStart | packages/shared/src/agent-inline-reasoning.ts:84-113 | read on from the last call, the opening is settled as a reading of the whole text settles it |
| InlineReasoningSplitter.Splitter.ScanClose | packages/shared/src/agent-inline-reasoning.ts:126-156 | read on from the last call, the scan is at the leftmost closing tag or at the end with the right candidate |
| InlineReasoningSplitter.Splitter.Split | packages/shared/src/agent-inline-reasoning.ts:58-78 | for every way a text grows each answer is that of the whole text so far, within three looks per character and one per call |
| InlineReasoningSplitter.Splitter.StateGrows | packages/shared/src/agent-inline-reasoning.ts:28-33 | what was read of a text holds of every longer one |
| InlineReasoningSplitter.SplitInlineReasoning | packages/shared/src/agent-inline-reasoning.ts:164-170 | a fresh reading gives the split of the whole text |
| InlineReasoningSplitter.CaseIsNoMatter | packages/shared/src/agent-inline-reasoning.ts:54-78 | a reply is split at a tag in whatever case the tag is configured, opened and closed, for all thinking without `<` and all replies |
| InlineReasoningSplitter.Stream | packages/shared/src/agent-inline-reasoning.ts:159-163 | a stream in any pieces: every answer equals the fresh one, answers only grow, and the total work is linear |
| ReplyScriptGate.Stream | packages/shared/src/agent-reply-script.ts:196-277 | for every cut of a reply into pieces: after each piece what has come out is what may be shown of what has gone in, and in the end it is the presentation of the whole |
| ReplyScriptGate.Gate.Push | packages/shared/src/agent-reply-script.ts:256-264 | while the gate is open what was shown is the cleaned text so far, without a half that waits for its second, if that has content, and else nothing; it is only ever added to |
| ReplyScriptGate.Gate.Finish | packages/shared/src/agent-reply-script.ts:265-271 | at the end what was shown is the presentation of everything that went in, or its cleaned form without the fallback |
| ReplyScriptGate.Gate.Consume | packages/shared/src/agent-reply-script.ts:212-240 | scanning only the new characters cleans the text so far, across runs and spaces cut between pieces |
| ReplyScriptGate.Gate.Scan | packages/shared/src/agent-reply-script.ts:242-249 | a lone first half at the end waits for its second |
| ReplyScriptGate.Gate.Publish | packages/shared/src/agent-reply-script.ts:250-256 | only an addition to what was shown is published |
| ReplyScriptGate.StripBody | packages/shared/src/agent-reply-script.ts:132-150 | the loops over runs and spaces clean the whole text |
| ReplyScriptGate.CompileReplyScripts | packages/shared/src/agent-reply-script.ts:89-100 | the scripts collected are those the user used beyond the ones always kept |
| ReplyScriptGate.ReplyFallback | packages/shared/src/agent-reply-script.ts:152-160 | English exactly for a user with more Latin than Han letters |
| ReplyScriptGate.SanitizeReplyText | packages/shared/src/agent-reply-script.ts:280-285 | one push and the end give the presentation |
| ReplyScripts.OnlyDroppedAndSpacesGo | packages/shared/src/agent-reply-script.ts:132-150 | apart from dropped characters only spaces are removed, and the order stays |
| ReplyScripts.KeptExactlyWhen | packages/shared/src/agent-reply-script.ts:132-150 | a character goes exactly if it is dropped, or is a space after a gap where the last one kept is a space too |
| ReplyScripts.OwnScriptsStay | packages/shared/src/agent-reply-script.ts:88-105 | nothing in a script the user wrote in is dropped |
| ReplyScripts.DecodeAppend | packages/shared/src/agent-reply-script.ts:204-249 | a text cut anywhere but inside a pair decodes piece by piece |
| ReplyScripts.PayloadGrows | packages/shared/src/agent-reply-script.ts:262-263 | a text with content keeps having content when it grows |
| ReplyScripts.StripStableExactlyWhen | packages/shared/src/agent-reply-script.ts:132-150 | cleaning again, with the same or more scripts, changes nothing if and only if no two lone halves would join to a dropped character |
| ReplyScripts.PresentStableExactlyWhen | packages/shared/src/agent-reply-script.ts:171-179 | the same of the whole presentation, whatever the user has written since |
| ReplyScripts.StrippedStableExactlyWhen | packages/shared/src/agent-reply-script.ts:171-192 | what is shown of a reply that was broken off is stable under the first condition alone |
| ReplyScripts.BrokenOffDiffersExactlyWhen | packages/shared/src/agent-reply-script.ts:265-271 | it differs from the presentation if and only if nothing but dropped letters had content |
| ReplyScripts.HalvesRejoin | packages/shared/src/agent-reply-script.ts:132-150 | a reply of three code units that the second cleaning changes |
| ReplyScripts.WellFormedHasNoGap | packages/shared/src/agent-reply-script.ts:132-150 | well-formed text never meets that condition |
| ReplyHistory.LiveReplyStaysExactlyWhen | packages/shared/src/agent-reply-script.ts:287-291 | a reply shown live, ended or broken off, reads back the same from any later history if and only if that condition does not hold |
| ReplyHistory.CleanedTwiceExactlyWhen | packages/shared/src/agent-reply-script.ts:292-313 | cleaning a history twice is cleaning it once, if and only if none of its replies meets the condition |
| ReplyHistory.HalvesDoNotStay | packages/shared/src/agent-reply-script.ts:292-313 | the same reply in a history: reading it back changes it, once more |
| ReplyHistory.JoinGrows | packages/shared/src/agent-reply-script.ts:107-121 | more messages never take a script away |
| ReplyHistory.LinesAreJoined | packages/shared/src/agent-reply-script.ts:107-122 | the user's texts are put on lines of their own |
| ReplyHistory.TurnStaysInHistory | packages/shared/src/agent-reply-script.ts:107-121 | the texts a turn was answered with come first in every history that goes on from it |
| ReplyHistory.CollectedExactlyWhen | packages/shared/src/agent-reply-script.ts:107-121 | apart from line breaks a character is in the collected text if and only if the user wrote it, wherever it stands; no cut joins or parts a character |
| ReplyHistory.GoesExactlyWhen | packages/shared/src/agent-reply-script.ts:77-121 | from the messages to the character: a letter, mark or number not always kept goes from a reply if and only if the user has written nothing in its script, in any message or in the turn's own text |
| ReplyHistory.SanitizeAssistantMessages | packages/shared/src/agent-reply-script.ts:292-313 | only texts of the assistant's messages change, each to its presentation |
| ArrangeGeometry.PlacedExactlyWhen | packages/shared/src/canvas-arrange.ts:97-123 | an id is placed exactly when some group lists it and the canvas has a box of positive size for it |
| ArrangeGeometry.PlacedApart | packages/shared/src/canvas-arrange.ts:137-164 | no id twice; inside a group images with their caption strips keep the cell gap, and different groups the group gap |
| ArrangeGeometry.PlacedClear | packages/shared/src/canvas-arrange.ts:126-135 | everything placed lies the group gap right of every box that stays |
| ArrangeGeometry.SectionIsClear | apps/web/src/features/canvas/components/KonvaCanvas.tsx:71-94 | a section title, as wide as its image, is above every card of its group, is the only one there, keeps the group gap to cards and titles of other groups, and lies that gap right of every box that stays |
| ArrangeGeometry.PlanIs | packages/shared/src/canvas-arrange.ts:97-123 | each usable listed id is in exactly one block, that of the first group listing it, and a label only on a first member |
| ArrangeGeometry.ApartInBlock | packages/shared/src/canvas-arrange.ts:144-161 | two members of a block are apart by the gap |
| ArrangeGeometry.StableExactlyWhenNothingMoves | packages/shared/src/canvas-arrange.ts:133-159 | arranging an arranged canvas gives the same placements if and only if no listed id has a box of positive size |
| ArrangeGeometry.EmptyExactlyWhen | packages/shared/src/canvas-arrange.ts:97-124 | nothing is placed if and only if that is so |
| ArrangeGeometry.OneImageDrifts | packages/shared/src/canvas-arrange.ts:133-159 | one image alone that the second arrangement moves |
| ArrangePlan.SortedIsAscending | packages/shared/src/canvas-arrange.ts:60-63 | the values the median is taken from are in order |
| ArrangePlan.UnionBounds | packages/shared/src/canvas-arrange.ts:65-75 | the union bounds every box |
| ArrangePlan.UnionIsReached | packages/shared/src/canvas-arrange.ts:65-75 | and each of its edges is that of one of them |
| ArrangePlan.ColumnCount | packages/shared/src/canvas-arrange.ts:77-81 | the whole part of what was asked for, or the least square that takes all members, and never more columns than members |
| ArrangePlan.CleanIs | packages/shared/src/canvas-arrange.ts:53-57 | a label is what stands between its white space, cut to the limit, and there is none exactly where nothing stands there |
| ArrangePlan.MedianIs | packages/shared/src/canvas-arrange.ts:59-62 | one of the values, with at most half of the others below it and at least half not above |
| ArrangeGrid.GridExactlyWhen | packages/shared/src/canvas-arrange.ts:77-161 | two placements of a group share a row, or a column, exactly when their places in it do for that number of columns; later rows are further down, later columns further right |
| ArrangeGrid.NextColumn | packages/shared/src/canvas-arrange.ts:144-160 | a column starts where the widest image of the one before ends, and the gap |
| ArrangeGrid.NextRow | packages/shared/src/canvas-arrange.ts:144-161 | a row starts where the tallest image of the one before ends, the gap, and the strip for captions |
| ArrangeGrid.GroupTop | packages/shared/src/canvas-arrange.ts:135-157 | a group starts at the top of the topmost moved image, under the strips for its labels |
| ArrangeGrid.FirstLeft | packages/shared/src/canvas-arrange.ts:125-135 | the first group starts the group gap right of the furthest box that stays, or at the leftmost moved image |
| ArrangeGrid.NextGroup | packages/shared/src/canvas-arrange.ts:162-164 | the next group starts the group gap right of the furthest edge of the one before |
| ArrangeGrid.OrderIs | packages/shared/src/canvas-arrange.ts:97-123 | placements come in the order of the groups and of the items that first list them |
| ArrangeGrid.LabelsAre | packages/shared/src/canvas-arrange.ts:97-123 | each image gets the caption of the item that first lists it, and the first of a group, alone, its title |
| CanvasArrange.LayoutCanvasArrange | packages/shared/src/canvas-arrange.ts:88-179 | the loops make exactly the arrangement the geometry is proved about |
| CanvasArrange.Plan | packages/shared/src/canvas-arrange.ts:94-123 | the planned list and its spans are the blocks of the plan |
| CanvasArrange.Measure | packages/shared/src/canvas-arrange.ts:141-149 | column widths and row heights are those of the widest and tallest members |
| CanvasArrange.PlaceGroups | packages/shared/src/canvas-arrange.ts:137-164 | every member of every block ends at its place |
| CanvasPlacement.FindFreeCanvasPlacement | packages/shared/src/canvas-placement.ts:62-95 | ends, and returns the least shift down from zero at which every occupied box is kept off by the gap on one side; at every lower one some box is too close on both axes |
| CanvasPlacement.BlocksExactlyWhen | packages/shared/src/canvas-placement.ts:83-88 | a box is in the way exactly if the gap is kept on none of the four sides |
| CanvasPlacement.AsideIsNoMatter | packages/shared/src/canvas-placement.ts:81-91 | a box that keeps the gap to the left or right makes no difference |
| CanvasPlacement.LeastIsOne | packages/shared/src/canvas-placement.ts:62-95 | there is one such shift |
| CanvasPlacement.ClearSeparates | packages/shared/src/canvas-placement.ts:81-91 | at a clear place every member keeps the gap from every occupied box |
| CanvasPlacement.PlacingAgainStays | packages/shared/src/canvas-placement.ts:62-95 | a placed batch, placed again, stays |
| CanvasPlacement.BoundsOf | packages/shared/src/canvas-placement.ts:68-77 | the edges bound every member and each is reached by one |
| CanvasPlacement.ScaleFits | packages/shared/src/canvas-placement.ts:31-38 | a picture fits the largest card, is shrunk no further than that, enlarged only if small, and both sides are readable exactly within the stated proportions |
| CanvasPlacement.CardFits | packages/shared/src/canvas-placement.ts:12-52 | a picture's card is between one unit and the largest card, and the scaled picture rounded to whole units |
| CanvasPlacement.OtherCardsFit | packages/shared/src/canvas-placement.ts:46-51 | text cards are the least that is neither smaller than before nor than their least size, and others stay |
| CanvasGroups.FollowsExactlyWhen | packages/shared/src/canvas-groups.ts:86-109 | a member moves as its frame does if and only if the frame's moves before the last one cancel out |
| CanvasGroups.TwoMovesAddUp | packages/shared/src/canvas-groups.ts:91-107 | a frame moved to one and then to two, whose card goes by three |
| CanvasGroups.MovesKeepInside | packages/shared/src/canvas-groups.ts:86-109 | with distinct ids members stay inside or outside their frames, and other cards stay where they are |
| CanvasGroups.SettlingTwiceIsOnce | packages/shared/src/canvas-groups.ts:111-134 | settling again, with ties of area in any order, changes nothing |
| CanvasGroups.SettledAt | packages/shared/src/canvas-groups.ts:119-132 | each listed card ends where it belongs whatever the order and repeats of the list; others keep their frame |
| CanvasGroups.SettledIsSmallest | packages/shared/src/canvas-groups.ts:116-131 | a card inside some frame stays in its own if it fits, or goes to a smallest one around it |
| CanvasGroups.MembersStayTogether | packages/shared/src/canvas-groups.ts:86-134 | moving frames with distinct ids and settling any cards takes no card out of a frame that held it |
| CanvasGroups.UngroupedFrees | packages/shared/src/canvas-groups.ts:77-85 | only the frames and their memberships go |
| CanvasGroups.ContainsExactlyWhen | packages/shared/src/canvas-groups.ts:111-130 | a card is in a frame exactly if every point of it is in the frame and under its header |
| CanvasGroups.OrderExists | packages/shared/src/canvas-groups.ts:111-130 | whatever the frames, an order by area as settling uses it exists |
| CanvasGroups.Document.CreateCanvasGroup | packages/shared/src/canvas-groups.ts:32-68 | when it is refused; and a frame made without bounds hugs its cards and contains each in the sense settling uses |
| CanvasGroups.Document.MoveCanvasGroups | packages/shared/src/canvas-groups.ts:86-109 | the whole new document, each move measured from the start |
| CanvasGroups.Document.ReconcileCanvasGroupMembership | packages/shared/src/canvas-groups.ts:111-134 | the whole new document |
| CanvasGroups.Document.UngroupCanvasNodes | packages/shared/src/canvas-groups.ts:78-85 | the whole new document |
| CredentialStore.Store.Save | cli-go/internal/auth/store.go:183-221 | success and the new content of both places are those of `SaveOf` |
| CredentialStore.SavedIsLoadedExactlyWhen | cli-go/internal/auth/store.go:165-221 | after a success, whatever either backend held before, the next load returns what was saved if and only if the keychain does not take what it will not give back, or the file still holds that login |
| CredentialStore.QuietKeychainLosesLogin | cli-go/internal/auth/store.go:165-204 | with such a keychain: a save succeeds and the next load returns the login before |
| CredentialStore.SaveSucceedsExactlyWhen | cli-go/internal/auth/store.go:183-221 | when a save reports success, and that without the lock nothing changes |
| CredentialStore.SavedIsLoadedByAll | cli-go/internal/auth/store.go:165-221 | what processes of either kind load after a success |
| CredentialStore.FailedSaveLoads | cli-go/internal/auth/store.go:205-221 | after a failure the login before or the new one, or, after a tear, what the tear left |
| CredentialStore.LoadsWhatIsSeen | cli-go/internal/auth/store.go:165-179 | a load finds the login in the keychain, or in the file where the keychain does not answer with an entry; nothing where nothing is; and reports what it cannot read |
| CredentialStore.EntryExactlyWhen | cli-go/internal/auth/store.go:282-309 | which bytes are nothing, which a login, and which neither |
| CredentialStore.Store.Clear | cli-go/internal/auth/store.go:336-350 | success and the new content of both places are those of `ClearOf` |
| CredentialStore.ClearedIsGoneExactlyWhen | cli-go/internal/auth/store.go:336-350 | after a success file processes load nothing, and keychain processes if and only if this one looks after the keychain or it answered with nothing; what a failure can leave |
| CredentialStore.ClearSucceedsExactlyWhen | cli-go/internal/auth/store.go:336-350 | when signing out reports success: the lock was had and nothing is left that would be seen |
| CredentialStore.Store.DeleteEntry | cli-go/internal/auth/store.go:212-219 | a keychain that refuses is an error exactly if it still answers with an entry |
| RecordFile.File.WriteInPlace | cli-go/internal/auth/store.go:407-435 | the file ends as the data, by way of nothing but the new bytes over the old ones |
| RecordFile.ReadDuringWrite | cli-go/internal/auth/store.go:421-429 | at every state of an in-place write, bytes with the whole checksum of the old or the new record read as that record or an error, and from the last byte on the new record is read |
| RecordFile.WrittenIsNew | cli-go/internal/auth/store.go:421-429 | once all bytes are written and before the file is shortened, a read gives the new record |
| RecordFile.UnchangedIsOld | cli-go/internal/auth/store.go:421-425 | until the first byte that differs is written, a read gives the old record |
| RecordFile.FramedReadsBack | cli-go/internal/auth/store.go:236-269 | a framed record reads back, whatever follows it |
| RecordFile.UnframedExactlyWhen | cli-go/internal/auth/store.go:252-269 | what is read, and which of two errors is reported when |
| TornRecords.MisreadExactlyWhen | cli-go/internal/auth/store.go:223-277 | in JSON with keys in order and plain values: some state of a write reads as neither record if and only if the two records slip into a third at a place found from their texts alone, or some state carries a right checksum of neither |
| TornRecords.ChecksumIsLostExactlyWhen | cli-go/internal/auth/store.go:236-277 | some state of a write loses its checksum if and only if a place the same distance into both records is in a text of the same kind, not after the checksum's key of the new one and not before that of the old one, and does not make up that key |
| TornRecords.LostExactlyWhenKeyMoves | cli-go/internal/auth/store.go:236-277 | while the text ahead of the checksum's key grows by no more than eight bytes: if and only if it grows or shrinks by one to eight |
| TornRecords.SteadyKeyIsSafe | cli-go/internal/auth/store.go:279-309 | if that text keeps its length every state carries a checksum, and reads as neither record only with a forged one |
| TornRecords.MovedKeyReadsAThird | cli-go/internal/auth/store.go:252-269 | if it grows or shrinks by one to eight, some state reads as the new members ahead of the checksum, the old ones behind it, and between them the old checksum under what is left of its key |
| TornRecords.TornLoginExactlyWhen | cli-go/internal/auth/store.go:165-179 | a tear can leave a login that is neither the old nor the new one under exactly the condition of `MisreadExactlyWhen` |
| TornLogins.RefreshIsMixed | cli-go/internal/auth/store.go:56-69 | read into a login, such a state has the new access token, its time and address, and the old refresh token; it is never the old login, and is the new one only if nothing behind the checksum changed |
| TornLogins.TokenLengthMixes | cli-go/internal/auth/store.go:205-207 | for all tokens: an access token one to eight longer or shorter can be read with the old refresh token |
| TornLogins.ServiceLosesExactlyWhen | cli-go/internal/auth/store.go:311-317 | for all addresses: when a state of a write of the service record loses its checksum |
| TornLogins.ServiceIsCut | cli-go/internal/auth/store.go:319-334 | for each place in the old checksum, the address that is then read: what has been written of the new one, and the rest of that checksum |
| TornLogins.BareTearLoads | cli-go/internal/auth/store.go:227-228 | a file from before checksums: wherever the new record, not past its checksum's key, meets the old texts, the torn file loads as the joined texts |
| TornLogins.TornTokenIsMixed | cli-go/internal/auth/store.go:223-257 | for all tokens and places: torn inside the access token such a file loads with a token made of both |
| TornLogins.TallyIsDigest | cli-go/internal/auth/store.go:230-234 | there is a digest with every property these results ask of one |
| TornRecords.JsonIsSound | cli-go/internal/auth/store.go:230-269 | with a digest without collisions the JSON codec has every property `RecordFile` asks of one |
| TornText.StateReads | cli-go/internal/auth/store.go:253-256 | whatever lies at two cuts, the beginning of one written object before the end of another parses only as the new object or as the two joined in a text of the same kind |
| TornText.JointReads | cli-go/internal/auth/store.go:253-256 | and wherever the cuts are in texts of the same kind, it parses as the two joined there |
| JsonObjects.EncodeReadsBack | cli-go/internal/auth/store.go:236-249 | every object of texts, quotes and backslashes included, reads back |
| RecordFile.ReadRecord | cli-go/internal/auth/store.go:279-309 | five tries give the first answer that stands or the last error, and never a third record unless a try met such bytes |
| Migrations.GuardedCountPasses | packages/db/src/verify-schema.ts:354-364 | where the guard passes, migrating accounts for every journal entry, and the count check neither fails nor, with pinned exceptions, throws |
| Migrations.SkippedExactlyWhen | packages/db/src/migrate.ts:125-161 | the guard lists an entry if and only if migrating would leave it unrecorded and unreplaced |
| Migrations.AccountedIsEnough | packages/db/src/verify-schema.ts:354-364 | a history that accounts for every entry has at least the expected number of rows |
| Migrations.PromisedIsApplied | packages/db/src/migrate.ts:149-153 | a replacement the guard counts on is applied, and verified, by the migrator |
| Migrations.AppliedExactlyWhen | packages/db/src/migrate.ts:62-89 | a replacement counts as applied exactly if all its pins hold and every row with its stamp has its hash; when it counts as not applied; and that all else is an error |
| Migrations.AssertNoSkippedMigrations | packages/db/src/migrate.ts:132-161 | throws, refuses with the skipped entries, or passes, exactly as each entry is judged |
| Migrations.CountVerifiedSupersededMigrations | packages/db/src/migrate.ts:91-108 | counts the applied replacements of missing rows, and throws exactly if one cannot be verified |
| Migrations.CountIsBelow | packages/db/src/verify-schema.ts:354-364 | what the schema check says of the number of rows, and that it never says a history is short that accounts for every entry |
| Migrations.RunMigrations | packages/db/src/migrate.ts:111-123 | a refusal, a throw and a transaction rolled back leave the history as it was; otherwise every entry is accounted for and the count is met; and when each of these happens |
| CanvasFingerprint.OneUnitShows | packages/shared/src/canvas-fingerprint.ts:2-11 | two texts of different length, or that differ in one code unit, have different fingerprints |
| CanvasFingerprint.SumTellsApart | packages/shared/src/canvas-fingerprint.ts:6-9 | either sum alone tells such texts apart |
| CanvasFingerprint.MixInjective | packages/shared/src/canvas-fingerprint.ts:7-8 | one step can be undone from either side, as both factors are odd |
| CanvasFingerprint.WrittenInjective | packages/shared/src/canvas-fingerprint.ts:10 | the written form determines the length and both sums |
| CanvasFingerprint.HexReadsBack | packages/shared/src/canvas-fingerprint.ts:10 | a sum in hexadecimal reads back as the sum |
| CanvasFingerprint.FingerprintsAreAcceptable | packages/shared/src/canvas-cloud.ts:580-582 | every fingerprint has the form the document demands |
| CanvasFingerprint.AcceptableLooks | packages/shared/src/canvas-cloud.ts:580-582 | what any text of that form starts, goes on and ends with |
| CanvasFingerprint.Fingerprint | packages/shared/src/canvas-fingerprint.ts:2-11 | the loop computes the two sums |
| CanvasFingerprint.ImulAdds | packages/shared/src/canvas-fingerprint.ts:7-8 | the 32-bit product of two words is one of them added up as often as the other says, in 32 bits |
| UpdateCheck.OncePerDay | cli-go/internal/updates/check.go:48-87 | in every run of calls by any processes and versions, with crashes and failed writes leaving anything in the file, two prompts are on different days of their own clock readings |
| UpdateCheck.RecordStays | cli-go/internal/updates/check.go:64-67 | after a prompt the record of that attempt stays for the day |
| UpdateCheck.AsksAgainExactlyWhen | cli-go/internal/updates/check.go:65-66 | the next call of the day after a prompt, otherwise healthy, asks again if and only if its clock is behind |
| UpdateCheck.TwoPromptsMeanGoingBack | cli-go/internal/updates/check.go:48-87 | two prompts on one day anywhere in a run mean that some clock reading between them is behind an earlier one |
| UpdateCheck.OnceExactlyWhenSteady | cli-go/internal/updates/check.go:48-87 | the promise of one prompt a day holds in all runs if and only if clocks do not go back |
| UpdateCheck.AsksTwice | cli-go/internal/updates/check.go:64-87 | two calls, the second with the earlier reading, that both ask |
| UpdateCheck.Checker.Check | cli-go/internal/updates/check.go:50-87 | the file after a call, and its whole answer: when it prompts, when it answers from the record, when it says why it cannot, and when nothing comes back |
| UpdateCheck.ResultFor | cli-go/internal/updates/check.go:97-114 | a prompt exactly for a finished, fresh attempt that found a newer version than a readable current one; no comparison exactly where one of these is missing; the rest is the record's |
| ReleaseVersions.Latest | cli-go/internal/updates/check.go:122-168 | the highest stable release of the whole listing whatever its order, or none where a page fails, the listing does not end or has no candidate |
| ReleaseVersions.VersionReadsBack | cli-go/internal/updates/check.go:174-199 | every version that fits is read back from its text |
| ReleaseVersions.VersionWritesBack | cli-go/internal/updates/check.go:170-199 | only the one text of a version is read as it |
| ReleaseVersions.LessExactlyWhen | cli-go/internal/updates/check.go:170-199 | a major outweighs every minor and a minor every patch |
| ReleaseVersions.CandidateExactlyWhen | cli-go/internal/updates/check.go:122-168 | a release counts exactly if it is out, stable, and tagged with the prefix and a version |
| UploadClaims.NextChangeIsTheNext | packages/shared/src/canvas-cloud.ts:123-140 | the next change is the first later instant with another answer, and there is none exactly when the answer stays |
| UploadClaims.StampsGoUp | packages/shared/src/canvas-cloud.ts:181-192 | over every history of claims and releases under any clocks stamps go up while they can be read |
| UploadClaims.LaterExactlyWhen | packages/shared/src/canvas-cloud.ts:168-192 | a stamp is later than the one before if and only if that one is on the books or the clock is ahead of it |
| UploadClaims.LimitIsForgotten | packages/shared/src/canvas-cloud.ts:168-192 | a stamp at the safe-integer limit, and the next one behind it |
| UploadClaims.PlainTextsAreSound | packages/shared/src/canvas-cloud.ts:168-216 | decimal numbers and quoted texts have the properties the other results ask of the written forms |
| UploadClaims.StampIsOnBooks | packages/shared/src/canvas-cloud.ts:174-180 | what the books show after a claim or a release |
| UploadClaims.NextStampIsLeast | packages/shared/src/canvas-cloud.ts:181-192 | the next stamp is the least time not before the clock and after every one on the books |
| UploadClaims.LeaseHoldsExactlyWhen | packages/shared/src/canvas-cloud.ts:203-240 | a lease reads back as its claim's time if and only if node, file, content, device and stamp are still those of the claim |
| UploadClaims.ReleasedIsNobodys | packages/shared/src/canvas-cloud.ts:263-272 | after a release no device believes in an upload, nothing will change that, and the card's other entries stay |
| UploadClaims.ClaimReplacesBooks | packages/shared/src/canvas-cloud.ts:241-261 | a claim replaces what was on the books and touches no other entry |
| UploadClaims.FreshClaimIsBelieved | packages/shared/src/canvas-cloud.ts:103-121 | which devices believe a fresh claim, from when and until when |
| UploadClaims.NeverElsewhere | packages/shared/src/canvas-cloud.ts:103-121 | a device never takes its own claim for another's, nor any of a card that is uploaded or has no local file |
| UploadClaims.HalfALeaseIsNone | packages/shared/src/canvas-cloud.ts:203-240 | a lease with one entry gone, and a claim without a device, count for nothing |
| UploadClaims.LocalFileExactlyWhen | packages/shared/src/canvas-cloud.ts:66-80 | which texts name a file that only this machine has |
| RecentCache.StaysExactlyWhile | apps/web/src/store.ts:160-177 | an entry left alone is found, with the value stored last, while fewer than the limit of other ids were used, and without deletions only then |
| RecentCache.FindsTheLast | apps/web/src/store.ts:169-177 | after any operations the cache is within its limit and finds only what was stored last |
| RecentCache.LastStoredExactlyWhen | apps/web/src/store.ts:169-177 | stored last means stored, and not stored again, deleted or cleared since |
| RecentCache.WorkbenchCachesKeep | apps/web/src/store.ts:230-255 | both caches are of this kind, and a thumbnail found is never of an old version |
| RecentCache.Cache.Get | apps/web/src/store.ts:160-167 | the entries after a look-up and what it returns |
| RecentCache.Cache.Put | apps/web/src/store.ts:243-255 | the entries after storing, the oldest dropped one by one |
| DesignBaseline.TighteningCommutes | scripts/check-design.ts:403-417 | any two sequences of the same scans, in any order and with repeats, tighten to one baseline, never above the start |
| DesignBaseline.TighteningIsTheMinimum | scripts/check-design.ts:403-417 | after any sequence of scans every count is the positive part of the least of the start and all scans |
| DesignBaseline.NoScanLosesARegression | scripts/check-design.ts:371-417 | in every sequence each scan shows, after it has tightened the baseline, the regressions it showed before |
| DesignBaseline.TighteningHidesNothing | scripts/check-design.ts:371-381 | a scan shows the same regressions against the baseline it tightened as against the one before |
| DesignBaseline.AdoptingSilencesOnly | scripts/check-design.ts:382-401 | adopting a rule ends its regressions and leaves those of all other rules as they were |
| DesignBaseline.FindRegressions | scripts/check-design.ts:371-381 | exactly the counts above what is allowed |
| DesignBaseline.TightenBaseline | scripts/check-design.ts:404-417 | the positive part of the pointwise minimum, without empty files |
| DesignBaseline.AdoptRule | scripts/check-design.ts:383-401 | when a rule is refused, and otherwise every count of the result |

## Left out

- HTTP, database drivers, the real filesystem, object storage, child processes, sleeping and timeouts.
- Hashes, keyed derivations and the Unicode tables: parameters with the facts needed, as above; JSON is written out for objects of texts.
- The taking over of locks left by older versions in `Store.Lock`, and clients that refresh without a request identity.
- A connection is named by its first token: the derivation of that token from the device code is left out, and a login that is stored late was answered while the token was current.
- RefreshProtocol.EveryRun: assumes that a save has or has not changed what the next load returns; a torn credential file, which a load may refuse or, as `TornLogins` shows, trust, is not in the protocol.
- Processes with and without the keychain refreshing beside each other: `CredentialStore` says what each loads after one operation, the protocol has one store.
- RefreshRun.App.Refresh: a save that fails before the request and one that fails after it give one result, and the service's other errors count as lost answers.
- TestLock.LiveLockIsSafe: assumes the kind environment, as the code needs it, and one clock for the processes and the file times; the removal of a file that is already gone throws in the original and is a step without effect here.
- TestLock.Guard.AcquireTestLock: one process while no other moves; interleavings are in the runs of `TestLock.Apply`.
- RecordFile.ReadRecord: a single write call is a sequence of one-byte states from front to back, the order its comment assumes.
- TornRecords.MisreadExactlyWhen: values are texts that are written as they are and end in neither a colon nor a comma, as tokens, times and addresses are; the numbers and truth values of a pending login are not modelled, and of giving members their Go types only that unknown members are dropped.
- Rounding of floating-point coordinates: geometry is over the reals, and `Infinity` as the start of a minimum is the first element.
- CanvasGroups.Document.ReconcileCanvasGroupMembership: the sorted list of frames is an argument; of its order only that areas ascend is used, not the language-dependent comparison of ids.
- The merging of concurrent edits by the CRDT, and the conflict rules of uploads built on the stamps.
- Field-by-field checks of stored canvas documents, renaming of frames, scheduling of thumbnails, and the reading of sources for design rules.
- The order of the list of regressions and of the keys of a written baseline.
- The Object prototype is a fixed set of names in `UploadClaims.IsLocalFile`.
