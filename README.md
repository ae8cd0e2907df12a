# SkillSync study-partner core, modelled in Dafny

SkillSync pairs learners by skills and goals. Users send and answer
connection requests, message each other and log study sessions that feed
a daily streak. This project models the part of the system that decides
what is stored and what is shown.

On the server (Express controllers over Mongo collections):

- **Connections.** The connection collection with its status enum and
  unique `(fromUser, toUser)` index. `sendConnectionRequest` has its guards,
  its either-direction lookup, the deletion of a rejected record and the
  create. `respondToRequest` checks the action, then the id format, and
  answers only the caller's own pending request. A class `ConnectionStore`
  holds the collection and runs both handlers. The actual collection
  invariant is stronger than the index: at most one record per unordered
  pair of users. The model proves that both handlers keep it, and that an
  accepted connection is never removed afterwards.
- **Study logs and streaks.** The streak record and its defaults.
  `addStudyLog` has its validation, the trimmed subject and the default
  date, then the streak update. `getStudyLogs` has the period window,
  newest-first skip/limit paging, the summary aggregation and the
  pagination block. `getUserStreak` has create-on-first-read and the
  broken-streak display. The histories and the streak records live in a
  class `StudyStore`.
- **Messages.** `getConversation` returns a page of the newest messages,
  reversed. `getUserConversations` groups the user's messages by
  conversation partner: after a newest-first sort, each group holds its
  latest message and its unread count, and the groups come back sorted by
  latest message. `markMessagesAsRead` is an in-place update over an array
  of messages.

On the client (React pages and components, read as functions of their
inputs, or as in-place loops where the source loops):

- **Profile.** Goal-filter normalisation, synonyms, the token set and the
  suggestion filter.
- **ProfileForm.** The skill and goal list handlers and `handleSubmit`,
  with every way it can end.
- **Connections.** The merge of accepted sent and received requests, with
  de-duplication by user id, the date sort and the search filter.
- **ConnectionRequests.** The pending-only received tab and the in-flight
  bookkeeping of `handleRequestResponse`.
- **ActivityGraph.** The weekday buckets and the per-subject breakdown.
- **StreakCounter.** The emoji tiers, messages, tips and the next
  milestone.

Shared pieces live in `Base`:

- `Keep` for `Array.prototype.filter`.
- `SkipLimit` for Mongo's `.skip().limit()`.
- `Trim` and `LowerAscii` for `trim` and `toLowerCase`.
- `INHERITED`, the members every plain object inherits. Looking a key up
  in `{}` finds these members.

`Sorting` holds the stable descending sort that every `sort` call is
specified by, and an in-place insertion sort proved equal to it.

Ids are integers, and an id in a request is `Absent`, `Malformed` or
`Valid(id)`. Times are integers in milliseconds, hours are integer tenths
of an hour, and the current time is a parameter. Where the source reads the
clock twice in one request, each reading is its own parameter: `addStudyLog`
takes the log's default date at `now` and a missing streak record's
creation time at a separate, later `createdAt`.

## Model

| member | source | states |
|---|---|---|
| ConnectionModel.StatusName | server/models/ConnectionModel.js:15-19 | a status is stored as one of the three enum strings |
| ConnectionModel.StatusNameInjective | server/models/ConnectionModel.js:15-19 | different statuses are stored as different strings, so comparing the stored string decides the status |
| ConnectionModel.NewConnection | server/models/ConnectionModel.js:15-19 | a created record carries the given users and the default status `pending` |
| ConnectionModel.OnePerPairKeepsIndex | server/models/ConnectionModel.js:28-29 | a table with at most one record per unordered pair also satisfies the unique `(fromUser, toUser)` index |
| ConnectionModel.IndexAllowsBothDirections | server/models/ConnectionModel.js:28-29 | the index alone allows one record in each direction between the same two users, so it is strictly weaker than the invariant the controller keeps |
| ConnectionController.FindBetween | server/controllers/connectionController.js:50-55 | the `$or` lookup finds the first record (in storage order) between the two users in either direction, or reports that none exists |
| ConnectionController.FindAnswerable | server/controllers/connectionController.js:176-180 | finds the first record that has this id, is addressed to the caller and is pending, or reports that none exists |
| ConnectionController.SendSpec | server/controllers/connectionController.js:6-99 | a send ends with 201, 400, 404 or 409; 201 only for two well-formed ids; on every path except the duplicate-key catch the table is unchanged unless the send succeeds |
| ConnectionController.SendInputGuards | server/controllers/connectionController.js:11-29 | the missing-id, malformed-id and self-request checks run in that order, before any lookup, and leave the table alone |
| ConnectionController.SenderCheckedFirst | server/controllers/connectionController.js:37-47 | a missing sender is reported even when the recipient is missing too; a missing recipient gives its own 404 |
| ConnectionController.LiveRecordBlocksSend | server/controllers/connectionController.js:50-65 | in a valid table, a pending or accepted record between the users in either direction gives 409 with the matching message and changes nothing |
| ConnectionController.SendSucceedsWithoutLiveRecord | server/controllers/connectionController.js:50-77 | in a valid table, two distinct existing users with no record between them, or only a rejected one, get 201, so a request can be sent again after a rejection; with LiveRecordBlocksSend, a send between existing users succeeds exactly when no pending or accepted record joins them |
| ConnectionController.RemoveAtKeepsValid | server/controllers/connectionController.js:66-69 | deleting one record keeps the table valid and loses only that record |
| ConnectionController.WithoutBetweenProperties | server/controllers/connectionController.js:50-69 | after the rejected record is deleted, no record between the pair remains, the table stays valid and only the found record is gone |
| ConnectionController.NoDuplicateOnValidTable | server/controllers/connectionController.js:94-99 | on a valid table the duplicate-key 409 can never be reached |
| ConnectionController.SendSuccessTable | server/controllers/connectionController.js:66-77 | a successful send replaces a rejected record (if any) by one new pending record with the next id |
| ConnectionController.SendCreatesSinglePending | server/controllers/connectionController.js:66-77 | after a successful send the new pending record is the only one between the two users; the only record that disappears is the rejected one between them; nothing else is added |
| ConnectionController.SendPreservesValid | server/controllers/connectionController.js:6-99 | every send keeps the at-most-one-per-pair invariant, unique ids and the id counter |
| ConnectionController.AppendKeepsValid | server/controllers/connectionController.js:73-77 | appending a record with the next id between two users who have no record keeps the table valid |
| ConnectionController.RespondSpec | server/controllers/connectionController.js:156-201 | a response ends with 200, 400 or 404; only 200 changes the table, and the table keeps its length |
| ConnectionController.RespondAnswersOwnPending | server/controllers/connectionController.js:176-194 | 200 exactly when the action is accept or reject, the id is well formed and the caller has a pending request with that id; then only that record's status changes, and the message names the new status |
| ConnectionController.RespondRejectsUnknownAction | server/controllers/connectionController.js:162-167 | any action other than `accept` or `reject` (or none) gives 400 before the id is looked at |
| ConnectionController.RespondPreservesValid | server/controllers/connectionController.js:156-201 | responding keeps the table valid |
| ConnectionController.StepKeepsAccepted | server/controllers/connectionController.js:57-69 | no single send or response removes or changes an accepted record, and each keeps the table valid |
| ConnectionController.AcceptedIsTerminal | server/controllers/connectionController.js:57-69 | over any sequence of sends and responses, an accepted record stays in the table unchanged |
| ConnectionController.ScanBetween | server/controllers/connectionController.js:50-55 | the scan over the collection returns exactly the index `FindBetween` specifies |
| ConnectionController.ScanOrderedPair | server/controllers/connectionController.js:94-99 | the index check returns true exactly when the ordered pair is already stored |
| ConnectionController.ConnectionStore.constructor | server/models/ConnectionModel.js:3-29 | an empty collection is valid |
| ConnectionController.ConnectionStore.SendConnectionRequest | server/controllers/connectionController.js:6-99 | the handler answers as `SendSpec` says and leaves exactly `SendSpec`'s table; the id counter advances only on 201; the invariant is kept |
| ConnectionController.ConnectionStore.CreateRequest | server/controllers/connectionController.js:49-77 | the lookup, the delete and the create together leave the table and answer the status and message of the specification |
| ConnectionController.ConnectionStore.RespondToRequest | server/controllers/connectionController.js:156-201 | the handler answers as `RespondSpec` says, leaves its table and keeps the invariant |
| StreakModel.NewStreak | server/models/StreakModel.js:11-29 | a new record has zero counts and its last-active date set to the creation time, and it is consistent |
| StudyController.DaysDiff | server/controllers/studyController.js:168 | the floored day difference `d` satisfies `d` days ≤ elapsed time < `d + 1` days, for negative differences too |
| StudyController.StreakUpdate | server/controllers/studyController.js:166-189 | same day: nothing is saved; next day: streak and total days go up by one; a gap: the streak restarts at 1 and total days go up by one; an earlier day: the counts stay and only the date moves; the longest streak is the maximum of the old longest and the new streak; consistency is kept |
| StudyController.CurrentOrNew | server/controllers/studyController.js:160-164 | the user's stored record, or a fresh default record when there is none |
| StudyController.StreaksAfterLog | server/controllers/studyController.js:158-194 | updating one user's streak, with a missing record created at `createdAt`, leaves every other user's record as it was and keeps one record per user |
| StudyController.SameDayChangesNothing | server/controllers/studyController.js:170-172 | a second session on the same day leaves the stored streaks unchanged |
| StudyController.BackdatedMovesDateBack | server/controllers/studyController.js:166-189 | a backdated session keeps the counts and moves the last-active date back to the session's date |
| StudyController.LongestCoversCurrent | server/controllers/studyController.js:183-186 | whenever a record is saved, its longest streak is at least its current streak |
| StudyController.FirstLogStartsNoStreak | server/controllers/studyController.js:162-168 | a user's first session, dated at or before the new record's creation instant, saves at most a record with streak 0 and 0 study days |
| StudyController.FirstDatelessLog | server/controllers/studyController.js:160-189 | a first session whose date is the handler's clock reading saves nothing when the record is created in the same millisecond, and otherwise (created later, within a day) saves a zero-count record dated at the session |
| StudyController.ZeroRecordThenNextDay | server/controllers/studyController.js:166-189 | after that zero-count record, a session one day later starts a streak of 1 with 1 study day and longest streak 1 |
| StudyController.ShownStreak | server/controllers/studyController.js:139-149 | more than one day since the last activity shows streak 0; otherwise the stored count; every other field is shown as stored |
| StudyController.CheckStudyLogInput | server/controllers/studyController.js:12-18 | "required" exactly when the subject or the hours are falsy; "out of range" exactly when both are present and the hours lie outside 0.1 to 24; accepted exactly otherwise |
| StudyController.AddStudyLogOutcome | server/controllers/studyController.js:12-33 | rejected exactly when the input check fails, with its message; a saved log passes the schema and holds the user, the hours, the trimmed subject and the given date or now |
| StudyController.BlankSubjectIsServerError | server/controllers/studyController.js:12-30 | a subject of spaces passes the required check, trims to the empty string and fails the schema's `required`, giving 500 rather than 400 |
| StudyController.PeriodStart | server/controllers/studyController.js:62-74 | `month` and `year` start at the given month and year starts; `week`, a missing period and any other value start seven days before now |
| StudyController.SummaryOf | server/controllers/studyController.js:86-103 | the summary counts the logs the `$match` selects, sums their hours, and holds exactly the subjects of the selected logs |
| StudyController.CeilDiv | server/controllers/studyController.js:110 | for a positive limit, the smallest page count whose pages hold `n` items; no number for a zero limit |
| StudyController.GetStudyLogs | server/controllers/studyController.js:47-112 | 404 for an unknown user; 500 exactly when the skip is negative; otherwise the page is the skip/limit slice of the user's window newest first and is sorted by date, every log on it is the user's and inside the window, the summary is the aggregation's, and the total page count is computed from the page length |
| StudyController.WindowMembers | server/controllers/studyController.js:77-80 | every log taken from the window's query result belongs to the user and lies inside the window |
| StudyController.TotalPagesAtMostOne | server/controllers/studyController.js:110 | as written, `totalPages` is never more than 1 for a positive limit |
| StudyController.CeilDivAtMostOne | server/controllers/studyController.js:110 | a page of at most `limit` items divides into at most one page |
| StudyController.SummaryAlwaysEmpty | server/controllers/studyController.js:86-103 | as written, the `$match` compares an ObjectId with the raw path string and never matches, so the summary is always the empty default |
| StudyController.TotalPagesExample | server/controllers/studyController.js:110 | 45 logs at 20 per page: the page reports 1 total page while 3 are needed |
| StudyController.TotalPagesCorrected | server/controllers/studyController.js:110 | the intended count: the least number of pages that hold all matching logs |
| StudyController.SummaryCorrected | server/controllers/studyController.js:86-103 | the intended summary: the count, the hours and exactly the subjects of the user's logs in the window |
| StudyController.StreakUpdateCorrected | server/controllers/studyController.js:166-189 | the intended update ignores sessions on or before the last active day, so a saved record always moves the date forward by at least a day and adds exactly one study day |
| StudyController.BackdatingDoubleCounts | server/controllers/studyController.js:166-189 | as written, sessions on day 1, day 0 and day 1 count 3 study days over 1 day of elapsed time |
| StudyController.CorrectedRunSpacing | server/controllers/studyController.js:166-189 | with the corrected update, over any sequence of sessions the counted study days never outnumber the days elapsed |
| StudyController.StreaksAfterLogCorrected | server/controllers/studyController.js:160-189 | the intended first session creates a record with streak, longest streak and study days all 1, and other users are untouched |
| StudyController.StudyStore.constructor | server/models/StreakModel.js:3-29 | empty collections satisfy the one-record-per-user index |
| StudyController.StudyStore.UpdateUserStreak | server/controllers/studyController.js:158-194 | the streak collection becomes `StreaksAfterLog` of the old one, a missing record being created at the given instant; the logs are untouched; the index is kept |
| StudyController.StudyStore.AddStudyLog | server/controllers/studyController.js:6-44 | 400 with the validation message or 500 on a schema failure, both changing nothing; otherwise 201, the log (dated as given or at `now`) is appended and the streaks are updated with the log's date, a missing record being created at the separate instant `createdAt` |
| StudyController.StudyStore.GetUserStreak | server/controllers/studyController.js:121-155 | 404 for an unknown user; otherwise a default record is saved if none existed, and the shown record is `ShownStreak` of the stored one |
| MessageController.GetConversation | server/controllers/messageController.js:6-46 | 404 unless both users exist; 500 exactly when the skip is negative; otherwise the page reversed is the skip/limit slice of the conversation newest first, with the requested page number, and `hasMore` holds exactly when the page is full |
| MessageController.ConversationPageOrdered | server/controllers/messageController.js:21-35 | every message on the page is between the two users, and the page runs oldest to newest |
| MessageController.ReverseTwice | server/controllers/messageController.js:35 | reversing twice restores the page |
| MessageController.FullPage | server/controllers/messageController.js:31-38 | when enough messages lie beyond the skip, the page is exactly that slice and `hasMore` is true |
| MessageController.AddToGroups | server/controllers/messageController.js:75-99 | one message adds at most one new group |
| MessageController.AddToGroupsEffect | server/controllers/messageController.js:75-99 | a message from a new partner opens a group with that message as `$first` and a count of 0 or 1; otherwise only the unread counts of existing groups change |
| MessageController.CountUnreadSnoc | server/controllers/messageController.js:85-97 | the `$sum` counts one for each message to the user that is unread |
| MessageController.OccursSnoc | server/controllers/messageController.js:76-83 | after one more message, a partner is known exactly when it was known before or is this message's partner |
| MessageController.GroupKeys | server/controllers/messageController.js:75-83 | grouping gives one group per partner, and exactly the partners the user exchanged messages with |
| MessageController.GroupEntries | server/controllers/messageController.js:84-97 | each group's message is the first one for that partner in the stream, and its unread count is the number of unread messages from that partner to the user |
| MessageController.GetUserConversations | server/controllers/messageController.js:49-134 | 404 exactly for an unknown user; otherwise the result is sorted newest last message first and is a permutation of the groups whose partner exists |
| MessageController.ConversationsAreKnownGroups | server/controllers/messageController.js:101-111 | each conversation is one of the groups, its partner exists, and no partner appears twice |
| MessageController.ConversationsLastAndUnread | server/controllers/messageController.js:62-126 | each conversation's last message is the user's newest message with that partner, and its unread count is the number of unread messages from that partner to the user |
| MessageController.FirstIsNewest | server/controllers/messageController.js:73-84 | in a newest-first stream, the first message with a partner is that partner's newest |
| MessageController.ConversationsComplete | server/controllers/messageController.js:62-111 | every partner who exists and exchanged a message with the user has a conversation entry |
| MessageController.DistinctPermutation | server/controllers/messageController.js:123-125 | the final sort neither adds nor repeats a partner |
| MessageController.CountUnreadPermutation | server/controllers/messageController.js:85-97 | the unread count does not depend on the order of the messages |
| MessageController.MarkRead | server/controllers/messageController.js:143-152 | exactly the unread messages from the sender to the receiver change, and they only become read |
| MessageController.CountUnreadFromTo | server/controllers/messageController.js:143-156 | the `modifiedCount` is at most the number of messages |
| MessageController.CountZeroIffNoneMatch | server/controllers/messageController.js:143-156 | the count is 0 exactly when no message matches the update filter |
| MessageController.MarkReadIdempotent | server/controllers/messageController.js:143-152 | after marking, nothing matches the filter any more, and marking again changes nothing |
| MessageController.MarkReadOnlyThatDirection | server/controllers/messageController.js:143-148 | messages of other senders, other receivers and the opposite direction are untouched |
| MessageController.MarkMessagesAsRead | server/controllers/messageController.js:137-163 | the array becomes `MarkRead` of its old contents, and the count returned is the number of matching messages |
| Profile.Normalize | client/src/pages/Profile.jsx:17 | the result holds only `a-z`, `0-9`, `+` and `#`; a missing or empty value gives the empty string |
| Profile.NormalizeKeepsExactly | client/src/pages/Profile.jsx:17 | a character is in the result exactly when it is a token character and some input character lowercases to it |
| Profile.NormalizeIdempotent | client/src/pages/Profile.jsx:17 | normalising twice is normalising once |
| Profile.NormalizeDeletesPunctuation | client/src/pages/Profile.jsx:17 | inserting a character that is not a token character (after lowercasing) does not change the result, so `node.js` and `nodejs` match |
| Profile.NormalizeFolds | client/src/pages/Profile.jsx:17 | a character and its lowercase give the same result, so `Node.js` and `node.js` match |
| Profile.SynonymsSymmetric | client/src/pages/Profile.jsx:18-25 | the synonym table is symmetric |
| Profile.LookupSynonyms | client/src/pages/Profile.jsx:31 | an own key gives its list; otherwise the lookup finds an inherited member exactly for the names every object inherits |
| Profile.SelectedGoalTokens | client/src/pages/Profile.jsx:27-34 | no filter exactly for the empty filter; otherwise the token set contains the normalised filter |
| Profile.TokensAreFilterAndSynonyms | client/src/pages/Profile.jsx:27-34 | when the normalised filter is not an inherited name, the set is exactly the normalised filter and its synonyms |
| Profile.ConstructorFilterThrows | client/src/pages/Profile.jsx:31-32 | as written, the filter "constructor" throws, because the lookup finds `Object` and it has no `forEach` |
| Profile.OnlyConstructorIsSpellable | client/src/pages/Profile.jsx:17-31 | of the inherited names only `constructor` can be the output of normalisation |
| Profile.ThrowsExactlyOnConstructor | client/src/pages/Profile.jsx:27-34 | the memo throws exactly for filters that normalise to `constructor` |
| Profile.SelectedGoalTokensCorrected | client/src/pages/Profile.jsx:27-34 | with an own-key lookup the memo never throws, and the set is exactly the normalised filter and its synonyms |
| Profile.CorrectionAgreesWhenNoThrow | client/src/pages/Profile.jsx:27-34 | wherever the source does not throw, the corrected lookup gives the same result |
| Profile.FilteredSuggestions | client/src/pages/Profile.jsx:36-42 | without tokens all suggestions; otherwise an order-keeping sub-list holding exactly the suggestions with a goal whose normalisation is a token, each matching one as many times as in the input |
| Profile.GoalFilterView | client/src/pages/Profile.jsx:27-42 | an empty filter shows all suggestions; the view fails exactly when the token memo throws |
| Profile.GoalFilterViewCorrected | client/src/pages/Profile.jsx:27-42 | with the corrected tokens the view always exists, keeps order, and is everything for an empty filter |
| ProfileForm.AddItem | client/src/components/ProfileForm.jsx:40-47 | a non-blank trimmed input not yet listed is appended and the input is cleared; otherwise list and input stay |
| ProfileForm.AddKeepsNoDuplicates | client/src/components/ProfileForm.jsx:40-47 | adding keeps the list free of duplicates |
| ProfileForm.AddTwiceAddsOnce | client/src/components/ProfileForm.jsx:40-47 | adding the same text twice lists it once |
| ProfileForm.RemoveItem | client/src/components/ProfileForm.jsx:50-55 | removal keeps order, drops every copy of the given item and keeps every copy of the others |
| ProfileForm.RemoveAbsent | client/src/components/ProfileForm.jsx:50-55 | removing an item not listed changes nothing |
| ProfileForm.RemoveKeepsNoDuplicates | client/src/components/ProfileForm.jsx:50-55 | removal keeps the list free of duplicates |
| ProfileForm.SkillAdd | client/src/components/ProfileForm.jsx:40-47 | the skill handler updates only the skills and the skill input |
| ProfileForm.SkillRemove | client/src/components/ProfileForm.jsx:50-55 | the skill removal updates only the skills |
| ProfileForm.GoalAdd | client/src/components/ProfileForm.jsx:57-65 | the goal handler updates only the goals and the goal input |
| ProfileForm.GoalRemove | client/src/components/ProfileForm.jsx:67-72 | the goal removal updates only the goals |
| ProfileForm.ListHandlersKeepNoDuplicates | client/src/components/ProfileForm.jsx:40-72 | all four list handlers keep both lists free of duplicates |
| ProfileForm.BuildPayload | client/src/components/ProfileForm.jsx:101-112 | the request carries the trimmed name, the lists, the mode or "Online" when it is empty, the availability, and the chosen file's name exactly when a file was chosen |
| ProfileForm.NotOkMessage | client/src/components/ProfileForm.jsx:127-130 | the thrown message is never empty: the server's message if present, "Unknown error" for an unparseable body, the `TypeError` of reading `message` from a `null` body, or the status text |
| ProfileForm.Shown | client/src/components/ProfileForm.jsx:155 | the shown error is never empty |
| ProfileForm.Submit | client/src/components/ProfileForm.jsx:84-159 | loading always ends; an error or a success is always shown; a request is sent exactly with a token and a non-blank name, and it is the built payload; success exactly for an ok JSON reply; both success and error exactly when, after `setSuccess`, a `null` body meets a callback or the callback throws; the callback is called exactly for an ok non-`null` body; the form data is reset exactly when the submit completes without error and is not an edit, and otherwise stays |
| ProfileForm.NameRequiredBeforeRequest | client/src/components/ProfileForm.jsx:96-99 | a blank name stops the submit before any request, whatever the server would answer |
| ProfileForm.SubmitErrorMessages | client/src/components/ProfileForm.jsx:127-155 | the error shown for each kind of failure: the unparseable-body text, the `null`-body `TypeError`, the status text, the fetch error, the parse error, the `null` `data.user` `TypeError` and a throwing callback's message |
| ProfileForm.SuccessResetsForm | client/src/components/ProfileForm.jsx:142-152 | a first-time submit that completes without a throw clears the name and both lists, restores the defaults and shows only the success |
| ProfileForm.ThrowAfterSuccessShowsBoth | client/src/components/ProfileForm.jsx:134-155 | when the ok reply's handling throws after `setSuccess`, the success and an error are shown together and the form is not reset |
| ConnectionsPage.ToConnection | client/src/pages/Connections.jsx:55-72 | the entry holds the peer user itself, its id, the side, and the date `updatedAt` or else `createdAt` |
| ConnectionsPage.Accepted | client/src/pages/Connections.jsx:42-47 | a missing list gives none; otherwise an order-keeping sub-list with every copy of each accepted request and no other |
| ConnectionsPage.CollectKeepsDistinct | client/src/pages/Connections.jsx:50-75 | the seen set is always the set of ids collected so far, and no user is collected twice |
| ConnectionsPage.CollectAppends | client/src/pages/Connections.jsx:54-75 | collecting only appends, and each appended entry has an unseen id and comes from a usable request on its side |
| ConnectionsPage.CollectCovers | client/src/pages/Connections.jsx:54-75 | every usable request's peer ends up in the seen set |
| ConnectionsPage.MergedProperties | client/src/pages/Connections.jsx:46-75 | the merged list has distinct users, each entry comes from an accepted request on its side, every usable accepted sent peer appears as `sent`, and every usable accepted received peer appears |
| ConnectionsPage.CollectLoop | client/src/pages/Connections.jsx:54-75 | the `forEach` loop computes the collection its reference definition specifies |
| ConnectionsPage.FetchConnections | client/src/pages/Connections.jsx:46-80 | the connections shown are the merged list sorted newest first: sorted, and a permutation of the merge |
| ConnectionsPage.FilterConnections | client/src/pages/Connections.jsx:97-102 | an order-keeping sub-list of exactly the connections whose name, email, a skill or a goal contains the lowercased term, each matching one as many times as in the input; the empty term keeps all |
| ConnectionsPage.EmptySearchKeepsAll | client/src/pages/Connections.jsx:97-102 | an empty search shows every connection |
| ConnectionsPage.FilterKeepsOrderAndIds | client/src/pages/Connections.jsx:78-102 | filtering a sorted, de-duplicated list keeps it sorted and de-duplicated |
| ConnectionRequestsPage.ReceivedList | client/src/pages/ConnectionRequests.jsx:30-35 | the received tab lists only pending requests, in server order, and every copy of each pending request of an ok reply and no other |
| ConnectionRequestsPage.SentList | client/src/pages/ConnectionRequests.jsx:37-40 | the sent tab is the reply's list unfiltered, or empty |
| ConnectionRequestsPage.StartResponse | client/src/pages/ConnectionRequests.jsx:58 | the id joins the processing set and nothing else changes |
| ConnectionRequestsPage.FinishResponse | client/src/pages/ConnectionRequests.jsx:73-92 | an ok reply removes every request with the answered id and keeps every copy of the others in order, raising no alert; any other end keeps the list and raises one alert; the id always leaves the processing set |
| ConnectionRequestsPage.Respond | client/src/pages/ConnectionRequests.jsx:51-94 | without a token nothing changes; otherwise start, then finish |
| ConnectionRequestsPage.ProcessingWhileInFlight | client/src/pages/ConnectionRequests.jsx:58-92 | the id is processing while the reply is awaited and not afterwards; no other id changes |
| ConnectionRequestsPage.RespondKeepsPendingList | client/src/pages/ConnectionRequests.jsx:51-94 | the received tab stays a list of pending requests; an ok answer removes exactly the requests with the answered id and keeps every copy of the rest in order; any other end, or no token, leaves the list as it was |
| ActivityGraph.ProcessWeeklyData | client/src/components/ActivityGraph.jsx:20-32 | the in-place loop leaves the array equal to `WeeklyData` of the logs |
| ActivityGraph.WeeklyData | client/src/components/ActivityGraph.jsx:20-32 | seven buckets, Sunday first, each holding its weekday's label, the hours logged on that weekday and the number of logs on it |
| ActivityGraph.WeekTotals | client/src/components/ActivityGraph.jsx:20-32 | the buckets' sessions add up to the number of logs, and their hours to the total hours |
| ActivityGraph.NoLogsEmptyWeek | client/src/components/ActivityGraph.jsx:21-22 | without logs each bucket is zero |
| ActivityGraph.SubjectTotals | client/src/components/ActivityGraph.jsx:35-49 | a subject has an entry exactly when it was logged and is not an inherited name; the entry holds its total hours and its session count |
| ActivityGraph.SubjectsDistinct | client/src/components/ActivityGraph.jsx:35-51 | no subject appears twice in the breakdown |
| ActivityGraph.CountLog | client/src/components/ActivityGraph.jsx:38-48 | the `forEach` callback performs one step of the reference grouping, and an inherited name hits the truthy branch and is lost |
| ActivityGraph.FillSubjectMap | client/src/components/ActivityGraph.jsx:36-49 | the loop builds the reference grouping of all logs |
| ActivityGraph.ProcessSubjectData | client/src/components/ActivityGraph.jsx:34-52 | the breakdown is the grouped values sorted by hours: sorted, and a permutation of the groups |
| ActivityGraph.ConstructorSubjectDropped | client/src/components/ActivityGraph.jsx:38-48 | as written, a subject named `constructor` is missing from the breakdown; with an own-key test it appears |
| ActivityGraph.AddLogSessions | client/src/components/ActivityGraph.jsx:38-48 | each counted log adds exactly one session to the breakdown |
| ActivityGraph.SubjectSessionsTotal | client/src/components/ActivityGraph.jsx:34-52 | as written, the breakdown's sessions add up to the number of logs whose subject is not an inherited name |
| ActivityGraph.CorrectedSessionsTotal | client/src/components/ActivityGraph.jsx:34-52 | with an own-key test, the breakdown's sessions add up to the number of logs |
| ActivityGraph.Render | client/src/components/ActivityGraph.jsx:8-55 | the placeholder exactly without data or logs; otherwise the weekly buckets of `WeeklyData` and a subject list sorted by hours that is a permutation of the groups |
| StreakCounter.EmojiAsWrittenIsMisread | client/src/components/StreakCounter.jsx:17-23 | each emoji literal as written is the UTF-8 encoding of the intended single emoji read back as Windows-1252: three or four characters instead of one |
| StreakCounter.Emoji | client/src/components/StreakCounter.jsx:17-23 | the intended emoji of a tier is a single character |
| StreakCounter.StreakTier | client/src/components/StreakCounter.jsx:17-23 | each tier exactly for its band: 30 and up, 14 to 29, 7 to 13, 3 to 6, below 3 |
| StreakCounter.TierMonotone | client/src/components/StreakCounter.jsx:17-23 | a longer streak never shows a lower tier |
| StreakCounter.EmojiInjective | client/src/components/StreakCounter.jsx:17-23 | the intended emoji of different tiers differ |
| StreakCounter.MessageBand | client/src/components/StreakCounter.jsx:25-32 | each message exactly for its band: 0, 1, 2 to 6, 7 to 13, 14 to 29, 30 and up |
| StreakCounter.TipBand | client/src/components/StreakCounter.jsx:34-40 | each tip exactly for its band: 0, 1 to 2, 3 to 6, 7 to 13, 14 and up |
| StreakCounter.BandsMonotone | client/src/components/StreakCounter.jsx:25-40 | the message and the tip only advance as the streak grows |
| StreakCounter.NextMilestone | client/src/components/StreakCounter.jsx:103-110 | a milestone exactly below 30, and then the smallest of 7, 14 and 30 above the count |
| StreakCounter.LegendaryAtThirty | client/src/components/StreakCounter.jsx:17-110 | the milestone block disappears exactly when the top tier and the last message are reached |
| StreakCounter.Render | client/src/components/StreakCounter.jsx:4-110 | the skeleton exactly without data; otherwise the count, "Day Streak" for exactly 1 and "Days Streak" otherwise, the tier's emoji, the count's message and tip, the stored longest streak and total days, and `NextMilestone`, present exactly below 30 |
| Base.Keep | client/src/pages/ConnectionRequests.jsx:33 | `filter` keeps only elements that satisfy the predicate and never grows the list |
| Base.KeepMembership | client/src/pages/ConnectionRequests.jsx:33 | an element survives `filter` exactly when it was there and satisfies the predicate |
| Base.KeepIsSubsequence | client/src/pages/Connections.jsx:97 | `filter` keeps the original order |
| Base.SkipLimit | server/controllers/studyController.js:81-83 | Mongo's skip and limit: an error exactly for a negative skip; otherwise a contiguous slice, limit 0 meaning no limit and a negative limit counting as its absolute value |
| Base.Trim | server/controllers/studyController.js:23 | the result starts and ends with a non-space, and it is the slice of the input left after removing only leading and trailing spaces |
| Base.LowerAscii | client/src/pages/Connections.jsx:98 | `toLowerCase` keeps length and lowercases each ASCII capital |
| Sorting.SortDescPerm | client/src/pages/Connections.jsx:78 | sorting is a permutation |
| Sorting.SortDescSorted | client/src/pages/Connections.jsx:78 | the sort result never increases in key |
| Sorting.SkipLimitSorted | server/controllers/studyController.js:81-83 | a page cut from a sorted list is sorted |
| Sorting.SortDescInPlace | client/src/components/ActivityGraph.jsx:51 | the in-place sort leaves the array equal to the reference stable sort of its old contents |

## Left out

- The match-suggestion engine, the authentication routes and the pages not named above are not part of this model.
- I/O is replaced by parameters: `fetch`, `localStorage`, `alert`, `populate`, `console.error`, the React state setters and re-rendering. The page functions take the reply as an input and return the new state.
- The `try`/`catch` 500 answers for database failures are left out. Only the 500 for a negative skip and the 500 for a schema failure are modelled, because those follow from the inputs.
- `getReceivedRequests` and `getSentRequests` are left out. They are a query by user sorted by `createdAt`, and the pages take their replies as inputs.
- Ids are opaque integers. ObjectId syntax, case variants of the same hex id, and the check of a string id against an ObjectId are left out; `IdInput` stands for all of them.
- `trim` and `toLowerCase` are modelled on ASCII only, with no Unicode white space and no non-ASCII case mapping.
- The calendar is left out: `getDay`, month and year starts and time zones. Each log carries its weekday, and the month and year starts are parameters of `PeriodStart`.
- Floating point is left out (`parseFloat`, `toFixed`, the averages and the progress-bar width). Hours are integer tenths, so the 0.1–24 range is 1–240.
- `StudyController.GetStudyLogs`: Mongo leaves the order of equal dates unspecified. The model fixes it as the stable reference sort, and the same holds for the message sorts.
- `MessageController.GetUserConversations`: Mongo's `$group` returns groups in no specified order. The model uses first appearance, and the contracts only rely on the final sort and on the multiset.
- `ActivityGraph.ProcessSubjectData`: `Object.values` lists integer-like keys first. The model keeps insertion order for every key.
- React batching, the concurrency of overlapping requests, `handleChange`, `handleFileChange` and the `useEffect` that fills the form from the user are left out.
- Invalid dates (`new Date` of garbage) and non-string goals are left out.
- `StudyController.StudyStore.UpdateUserStreak`: the source swallows errors inside the streak update. The model has no failure there.
- `MessageController.MarkMessagesAsRead`: the fixed response message is not modelled. The modified count is.
- Streak counts are natural numbers, as the schema's `min: 0` requires.
- `ProfileForm.Submit`: the `TypeError` texts for a `null` body are V8's wording, and other engines word them differently. An ok body that is not `null` is not inspected further, because `data.user || data` cannot throw on it.
- `StreakCounter.Render`: the formatted last-active date and the markup are not modelled. `Render` shows the intended emoji (see the findings).

## Findings

| source | as written | input that shows it | evidently intended | confidence | as-written member | corrected member |
|---|---|---|---|---|---|---|
| server/controllers/studyController.js:166-189 | a session dated before the last active day gets a negative `daysDiff`, keeps the counts and moves `lastActiveDate` back, so the next session counts a study day again | sessions on day 1, day 0, then day 1 again | study days and streaks only count days after the last active day | not executed | StudyController.BackdatingDoubleCounts | StudyController.StreakUpdateCorrected |
| server/controllers/studyController.js:162-168 | a first record defaults `lastActiveDate` to now, which is after the session's date, so the first session gives `daysDiff` of -1 or 0 and counts nothing | the first ever session, logged without a date | the first session starts a streak of 1 with 1 study day | not executed | StudyController.FirstLogStartsNoStreak | StudyController.StreaksAfterLogCorrected |
| server/controllers/studyController.js:110 | `totalPages` divides the length of the current page, not the number of matching logs | 45 matching logs, `limit` 20, page 1: `totalPages` is 1 | the number of pages that hold all matching logs (3) | not executed | StudyController.TotalPagesExample | StudyController.TotalPagesCorrected |
| server/controllers/studyController.js:86-103 | the aggregation's `$match` compares the ObjectId `userId` with the raw path string, which aggregation does not cast | any user with logs in the window: the summary is 0 hours, 0 sessions | totals over the user's logs in the window | not executed | StudyController.SummaryAlwaysEmpty | StudyController.SummaryCorrected |
| client/src/pages/Profile.jsx:31-32 | `GOAL_SYNONYMS[token]` finds the inherited `constructor` function, which is truthy and has no `forEach`, so the memo throws | goal filter "constructor" (or "Constructor!") | only own keys of the synonym table are looked up | not executed | Profile.ThrowsExactlyOnConstructor | Profile.SelectedGoalTokensCorrected |
| client/src/components/ActivityGraph.jsx:38-48 | `subjectMap[log.subject]` finds inherited members of `{}`, so such a subject takes the update branch and vanishes from the breakdown | one log with subject "constructor" | every subject gets its own entry | not executed | ActivityGraph.ConstructorSubjectDropped | ActivityGraph.CorrectedSessionsTotal |
| client/src/components/StreakCounter.jsx:17-23 | each emoji literal is the UTF-8 bytes of an emoji re-read as Windows-1252, e.g. four characters "ðŸ”¥" for the fire emoji | any streak data | the single emoji characters 🔥 💪 ⚡ 🌟 🚀 | not executed | StreakCounter.EmojiAsWrittenIsMisread | StreakCounter.Emoji |
