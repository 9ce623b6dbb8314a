# StackIt forum core in Dafny

StackIt is a question-and-answer forum written in PHP with a JavaScript front end. This project models the part of it that holds state:
- **voting**: a vote request toggles the caller's vote row, reads back the item's vote count, and overwrites the stored reputation of the item's author.
- **accepting an answer**: the question's author marks exactly one answer of the question as accepted.
- **notifications**: a row is appended when an answer is posted or accepted; the reader can mark all rows read and list the newest ones.
- **the question page**: counts views, posts answers, orders them, and offers the accept button.
- **the ask page**: validates a question, then finds or creates each of its tags and links them.
- **smaller pure rules**:
  - the front page's pagination and filters
  - the tag widget of the ask form
  - both `timeAgo` functions
  - the sign-up form's validation chain

The database is one object, `Store.Database`, whose fields are the tables:
- `users` maps an id to the stored reputation
- `questions` and `answers` map ids to rows
- `votes`, `notifications` and `question_tags` are sequences of rows
- `tags` maps a name to its id
- the AUTO_INCREMENT counters are integer fields

Each request handler is a method that changes only the tables its SQL writes. The handler's contract ties the new table contents to pure functions of the old contents. The lemmas state what those functions promise:
- the toggle keeps at most one vote per (user, type, id)
- the count and the reputation move by exactly the change of the caller's vote
- acceptance keeps at most one accepted answer per question
- mark-read clears the caller's unread count and nobody else's

PHP strings are byte strings (`Common.Bytes`), because `strlen` counts bytes. `trim` removes " \t\n\r\0\x0B". `empty` also treats "0" as empty. JavaScript strings are `string`.

A PDOException is modelled by a `Fault` parameter that names the numbered statement that throws. Inside a transaction, the catch block's rollBack restores the tables to their state at beginTransaction. An error that the source catches and swallows is modelled as a value instead:
- `getVoteCount` gives 0
- `getUnreadNotificationCount` gives 0
- `createNotification` gives false

The model follows the code in these places, which a reader might not expect:
- the reputation stored by a vote is not clamped at zero (`api/vote.php:97-103`); only `getUserStats` clamps it (`includes/functions.php:89`).
- the vote count is recomputed for each response and never stored (`api/vote.php:94`).
- the accept notification is appended on every successful accept call, also when the answer was already accepted (`api/accept_answer.php:62-72`).
- a failed notification insert is swallowed by `createNotification` and does not roll back the acceptance or the answer insert (`includes/functions.php:48-55`).

## Model

| member | source | states |
|---|---|---|
| Common.PhpTrim | ask.php:20 | the result is no longer than the input and has no trimmed byte at either end |
| Common.PhpTrimUnchanged | ask.php:59 | trim leaves a string unchanged exactly when neither edge byte is one of " \t\n\r\0\x0B" |
| Common.PhpTrimIdempotent | ask.php:59 | trimming an already trimmed name changes nothing |
| Common.PhpTrimRemovesOnlySpaces | ask.php:20 | trim drops only trimmed bytes, and only from the two ends: the result is an infix of the input, and everything before and after it is a trimmed byte |
| Common.Contains | index.php:25-27 | the empty pattern occurs everywhere; an occurrence needs a pattern no longer than the text; a prefix match is an occurrence |
| Store.ItemAuthor | api/vote.php:47-59 | an author is found exactly when the question or answer with that id exists |
| Functions.TimeAgo | includes/functions.php:10-19 | the six buckets are contiguous and disjoint (just now below 60 s, minutes below 3600 s, and so on up to years); the count n satisfies n·unit ≤ elapsed < (n+1)·unit and stays within its bucket's range |
| Functions.TimeAgoMonotone | includes/functions.php:13-18 | a longer elapsed time never lands in an earlier bucket |
| Functions.CountDir | includes/functions.php:23-25 | the number of votes in one direction never exceeds the number of rows |
| Functions.VoteCount | includes/functions.php:23-25 | up-minus-down lies between −#down and #up, so within ±rows |
| Functions.GetVoteCount | includes/functions.php:21-33 | the count is #up − #down on the votable, and 0 when the query throws |
| Functions.NoVotesCountZero | includes/functions.php:29 | a votable with no vote rows has count 0 |
| Functions.Score | api/vote.php:97-102 | the signed sum (+1 up, −1 down) lies between −rows and +rows |
| Functions.VoteCountIsScore | includes/functions.php:23-25 | up-minus-down on one votable equals the reputation query's signed sum restricted to that votable |
| Functions.ScoreUnion | includes/functions.php:86-87 | the sum over questions OR answers is the sum over questions plus the sum over answers |
| Functions.OwnedItems | includes/functions.php:86-87 | a votable belongs to the set exactly when the user authored it |
| Functions.RawReputation | includes/functions.php:82-87 | the unclamped signed sum over the user's content lies within ±rows |
| Functions.OwnedItemsDisjoint | includes/functions.php:86-87 | two different users never own the same votable |
| Functions.AcceptedBy | includes/functions.php:92-94 | the accepted answers of a user are among that user's answers |
| Functions.GetUserStats | includes/functions.php:68-106 | reputation = max(0, signed sum over the user's content), so never negative; the accepted count is at most the answer count; all four stats are 0 when a query throws |
| Functions.Lookup | includes/functions.php:39-42 | no direction exactly when no row has the key; a found direction belongs to a stored row with that key |
| Functions.LookupUnique | includes/functions.php:39-42 | with unique vote keys the lookup returns the direction of the only matching row |
| Functions.GetUserVote | includes/functions.php:35-46 | null for a missing or zero user id or a failed query; otherwise the stored direction, and null only when no row exists |
| Functions.UnreadCount | includes/functions.php:59 | the count never exceeds the number of rows |
| Functions.UnreadCountZero | includes/functions.php:57-66 | the count is zero exactly when none of the user's rows is unread |
| Functions.GetUnreadNotificationCount | includes/functions.php:57-66 | the count of the user's unread rows, 0 when the query throws |
| Functions.UnreadCountAppend | includes/functions.php:48-55 | an appended row raises only its recipient's unread count, by one |
| Functions.CreateNotification | includes/functions.php:48-55 | exactly one unread row with the given recipient, type, title, message and related id is appended; on a failed insert nothing is appended and the result is false |
| VoteApi.ParseVotableType | api/vote.php:32-35 | only "question" and "answer" are votable types |
| VoteApi.ParseDirection | api/vote.php:37-40 | only "up" and "down" are vote types |
| VoteApi.CheckRequest | api/vote.php:10-40 | checks in source order: each error is returned exactly when every earlier check passed and its own fails (no user; not POST; a parameter missing; a votable type other than question/answer; a vote type other than up/down); the request passes exactly when all hold, and it carries the caller, the id and the parsed enums |
| VoteApi.DeleteKey | api/vote.php:77-78 | a row remains exactly when it was there before and has another key |
| VoteApi.DeleteKeyMultiset | api/vote.php:77-78 | every row with the key is removed, and every other row keeps its number of occurrences |
| VoteApi.SetDirection | api/vote.php:82-83 | keys are unchanged, and a row's direction changes only where its key matches |
| VoteApi.DeleteKeyAbsent | api/vote.php:77-78 | deleting a key no row has changes nothing |
| VoteApi.DeleteKeyUnique | api/vote.php:77-78 | a delete keeps the vote keys unique |
| VoteApi.DeleteKeyTwice | api/vote.php:77-78 | deleting the same key twice is deleting it once |
| VoteApi.DeleteKeyOfSetDirection | api/vote.php:82-83 | the update touches no row of another key |
| VoteApi.SetDirectionAbsent | api/vote.php:82-83 | updating a key no row has changes nothing |
| VoteApi.ScoreAppend | api/vote.php:88-89 | an inserted vote adds its value to exactly the sums over sets holding its votable |
| VoteApi.ScoreDeleteKey | api/vote.php:77-78 | deleting the only row of a key removes exactly its value from every sum that counted it |
| VoteApi.ScoreSetDirection | api/vote.php:82-83 | flipping the only row of a key replaces its value in every sum that counted it |
| VoteApi.Toggle | api/vote.php:74-91 | the returned user_vote is null exactly when the caller's stored vote already had this direction, and the new direction otherwise; at most one row is added |
| VoteApi.ToggleLookup | api/vote.php:74-91 | after the toggle the stored vote of the caller is the returned user_vote |
| VoteApi.ToggleFrame | api/vote.php:74-91 | rows of other users or other votables are unchanged by the toggle |
| VoteApi.ToggleUnique | api/vote.php:69-91 | the toggle keeps at most one row per (user, votable_type, votable_id) |
| VoteApi.ToggleTwice | api/vote.php:74-79 | voting the same way twice from no vote leaves no row and a null user_vote |
| VoteApi.ToggleScore | api/vote.php:74-103 | every signed sum moves by (new contribution − old contribution) of the caller's vote when it counts the toggled votable, and is unchanged otherwise |
| VoteApi.ToggleVoteCount | api/vote.php:94 | the returned count moves by exactly the change of the caller's vote |
| VoteApi.ToggleReputation | api/vote.php:97-103 | the author's unclamped reputation moves by the change of the caller's vote; every other user's is unchanged |
| VoteApi.ApplyToggle | api/vote.php:74-91 | the votes table becomes the toggle of the old table, and the reported user_vote is the toggle's direction |
| VoteApi.VoteTransaction | api/vote.php:67-119 | a fault at any statement except the swallowed count query leaves both tables as at beginTransaction; otherwise the votes are toggled, the response carries the count of the new table (0 if that query fails) and the toggled user_vote, and the author's stored reputation is the unclamped sum over the new votes |
| VoteApi.CastVote | api/vote.php:10-119 | rejections in source order (including content not found and own content) write nothing; a fault in the transaction rolls back both tables; on success the votes table is the toggle's result, the response carries the recomputed count and user_vote, and the author's stored reputation is the unclamped sum over the new votes |
| VoteApi.VoteScenario | api/vote.php:74-94 | up gives count 1 and "up", up again gives 0 and null, then down gives −1 and "down" |
| AcceptApi.CheckAccept | api/accept_answer.php:10-50 | checks in source order: each error is returned exactly when every earlier check passed and its own fails (no user; not POST; no answer_id; answer with its question not found; caller not the question's author); it passes exactly when all hold, with the given answer id |
| AcceptApi.ClearAccepted | api/accept_answer.php:55-56 | no answer of the question stays accepted; only is_accepted changes, and answers of other questions are untouched |
| AcceptApi.SetAccepted | api/accept_answer.php:59-60 | the target answer becomes accepted and nothing else changes |
| AcceptApi.CheckIgnoresAnswerAuthor | api/accept_answer.php:46-50 | who wrote the answer does not affect the authorization |
| AcceptApi.Accept | api/accept_answer.php:54-60 | ids and all columns except is_accepted are kept; within the question exactly the target is accepted; answers of other questions are untouched |
| AcceptApi.AcceptKeepsInvariant | api/accept_answer.php:54-60 | acceptance keeps at most one accepted answer per question |
| AcceptApi.AcceptIdempotent | api/accept_answer.php:54-60 | accepting the same answer again gives the same acceptance state |
| AcceptApi.AcceptReplaces | api/accept_answer.php:54-60 | accepting a second answer of the question unaccepts the first |
| AcceptApi.AcceptTransaction | api/accept_answer.php:52-83 | a fault in either UPDATE or the commit rolls back both tables; otherwise the answers are the acceptance result and an accept notification with the answer id goes to the answer's author exactly when that author is not the caller and the insert does not fail, on every call |
| AcceptApi.AcceptAnswer | api/accept_answer.php:10-83 | a failed check changes nothing; a fault in either UPDATE or the commit rolls back both tables; on success the answers are the acceptance result and an accept notification with the answer id goes to the answer's author exactly when that author is not the caller and the insert does not fail, on every call |
| NotificationsApi.MarkAllRead | api/notifications.php:24-25 | only is_read changes, never from read to unread, and rows of other users are untouched |
| NotificationsApi.MarkAllReadClears | api/notifications.php:24 | afterwards the caller has no unread notification |
| NotificationsApi.MarkAllReadOthers | api/notifications.php:24 | no other user's unread count changes |
| NotificationsApi.MarkAllReadNoChange | api/notifications.php:24 | the update changes no row exactly when the caller has nothing unread |
| NotificationsApi.MarkAllReadIdempotent | api/notifications.php:24 | a second mark_read changes nothing |
| NotificationsApi.OfUser | api/notifications.php:38 | a row is selected exactly when it belongs to the caller |
| NotificationsApi.InsertByTime | api/notifications.php:38 | inserting into a newest-first list keeps it newest-first and adds exactly that row |
| NotificationsApi.SortNewestFirst | api/notifications.php:38 | the result is newest-first and a permutation of the input |
| NotificationsApi.Take | api/notifications.php:38 | LIMIT n keeps the first min(n, length) rows |
| NotificationsApi.Recent | api/notifications.php:38-40 | at most 20 rows, newest first |
| NotificationsApi.RecentOfCaller | api/notifications.php:38-40 | the list has min(20, the caller's rows) entries, all of them the caller's |
| NotificationsApi.RecentIsNewest | api/notifications.php:38-40 | a row of the caller left out of the list is no newer than any listed row |
| NotificationsApi.HandleNotifications | api/notifications.php:10-54 | no user gives an authentication error; a POST other than mark_read is an invalid action; mark_read applies MarkAllRead unless the UPDATE throws; GET returns the recent list and the unread count; nothing else changes |
| QuestionPage.InsertAnswer | question.php:89 | inserting into a listing-ordered list keeps the order and adds exactly that answer |
| QuestionPage.ListAnswers | question.php:85-93 | the answers come out accepted first, then oldest first, as a permutation of the question's rows |
| QuestionPage.AcceptedListedFirst | question.php:89 | with at most one accepted answer, an accepted answer is listed first |
| QuestionPage.ShowAcceptButton | question.php:325 | the button is shown to the logged-in author of the question on each answer not yet accepted |
| QuestionPage.AcceptButtonAuthorized | question.php:325 | the accept button appears only where the accept request would pass its author check |
| QuestionPage.PostAnswer | question.php:23-55 | the insert takes the next answer id, is never accepted, and stays written even if a later statement throws; the question's author, if not the answerer, gets one "answer" notification naming the new answer, unless that insert fails and is swallowed |
| QuestionPage.ViewQuestion | question.php:11-58 | id 0 redirects with no write; otherwise the question's view count rises by exactly 1; an answer is inserted only for a logged-in user with non-empty content, never accepted; after an insert the question's author, if not the answerer, gets one "answer" notification with the new answer's id |
| AskPage.Validate | ask.php:24-41 | each field's error is set exactly by its own chain: an empty trimmed title or a title under 10 bytes; an empty description or stripped text under 20 bytes; no tags or more than 5 |
| AskPage.LinkTag | ask.php:58-85 | one turn keeps every existing tag, never lowers the tag counter, and keeps the old links as a prefix with at most one link added |
| AskPage.LinkTags | ask.php:58-86 | the loop applies one LinkTag turn per submitted name, in order |
| AskPage.CountLinked | ask.php:58-60 | no more names are linked than submitted |
| AskPage.LinkTagStep | ask.php:58-85 | one turn keeps existing tags, gives a new tag a fresh id, and appends one link to the question, or none for a skipped name |
| AskPage.LinkTagsKeepsTags | ask.php:62-78 | existing tags keep their ids, and new tags get ids beyond the old counter |
| AskPage.LinkTagsAppends | ask.php:80-85 | one link to the question is appended per non-empty trimmed name, after the existing links |
| AskPage.LinkTagsLinksEach | ask.php:58-85 | every non-empty trimmed name becomes a tag that is linked to the question |
| AskPage.LinkTagTurn | ask.php:59-85 | a name that trims to an empty string runs no statement and succeeds; otherwise the turn fails exactly at its fault point, and on success the tables are one LinkTag step further |
| AskPage.LinkQuestionTags | ask.php:58-86 | the loop completes exactly when no statement of a tag it does not skip throws, and then the tables are those of LinkTags |
| AskPage.SubmitQuestion | ask.php:44-95 | the question is created exactly when neither the INSERT, nor any tag turn it does not skip, nor the commit throws; then it gets the next id and its tags are linked; otherwise all writes are rolled back |
| AskPage.AskQuestion | ask.php:8-97 | no user redirects to login; with field errors nothing is written; otherwise the question is inserted and its tags linked, unless any statement throws, in which case every write is rolled back |
| IndexPage.PageNumber | index.php:12 | the page is the parameter when it is at least 1, else 1 |
| IndexPage.Offset | index.php:13-14 | page p starts at the (p−1)-th block of 10 questions |
| IndexPage.TotalPages | index.php:56 | zero pages exactly for zero questions; otherwise (pages−1)·10 < total ≤ pages·10 |
| IndexPage.PagesTileResults | index.php:12-14 | every existing page starts inside the results, consecutive offsets are 10 apart, and the last page reaches the end |
| IndexPage.MakePager | index.php:330-374 | shown only when there is more than one page; Previous exactly when page > 1, Next exactly when page < total pages, each pointing to the neighbouring page |
| IndexPage.Window | index.php:352-357 | the links from start to end, one per page, in order |
| IndexPage.WindowAroundPage | index.php:340-357 | the window holds exactly the existing pages within ±2 of the page: at most 5, and the page itself when it exists |
| IndexPage.PageLinks | index.php:344-365 | the numbered links in rendering order: page 1 when linked, the window, the last page when linked |
| IndexPage.PageLinksReachBothEnds | index.php:340-365 | page 1 is always the first link; the last page is the last link exactly when the requested page is at most two past it |
| IndexPage.PageLinksIncreasing | index.php:344-365 | the numbered links never repeat a page: strictly increasing, all between 1 and the last page |
| IndexPage.EllipsisMarksSkippedPages | index.php:344-365 | an ellipsis appears exactly where the links skip pages: after the page-1 link and before the last-page link |
| IndexPage.Where | index.php:21-35 | the bound parameters match the placeholders of the conditions |
| IndexPage.Filters | index.php:17-35 | the trimmed parameters give a clause whose bound parameters match its placeholders |
| IndexPage.NoFilterNoWhere | index.php:35 | the WHERE clause is empty exactly when neither the trimmed search nor the trimmed tag is truthy |
| IndexPage.FiltersCombineWithAnd | index.php:21-35 | for any trimmed search and tag, a question is listed exactly when it matches the search, if truthy, and carries the tag, if truthy |
| TagInput.JsTrim | assets/main.js:667 | the result is no longer than the input and has no JavaScript white space at either end |
| TagInput.JsTrimUnchanged | assets/main.js:667 | trim leaves a string unchanged exactly when neither edge is white space |
| TagInput.JsTrimRemovesOnlySpaces | assets/main.js:667 | trim drops only white space, and only from the two ends |
| TagInput.Lower | assets/main.js:590 | the result has the same length, and each character is the lower-cased original |
| TagInput.LowerKeepsTrimmed | assets/main.js:590 | the lower-cased trimmed input is still trimmed |
| TagInput.AfterAdd | assets/main.js:666-672 | the trimmed tag is appended exactly when it is non-empty, not selected, and fewer than 5 are selected; otherwise nothing changes |
| TagInput.AfterRemove | assets/main.js:674-676 | the tag no longer occurs, and every other tag keeps its number of occurrences |
| TagInput.RemoveKeepsOrder | assets/main.js:675 | removing a tag that occurs once closes its gap and keeps the others in order |
| TagInput.NotInRemoveIsIdentity | assets/main.js:675 | removing a tag that is not selected changes nothing |
| TagInput.AddKeepsWellFormed | assets/main.js:666-672 | adding keeps the list duplicate-free, at most 5 long, and made of trimmed non-empty tags |
| TagInput.RemoveKeepsDistinct | assets/main.js:675 | removing keeps a duplicate-free list duplicate-free |
| TagInput.RemoveKeepsWellFormed | assets/main.js:674-676 | removing keeps the list well formed |
| TagInput.OpsKeepWellFormed | assets/main.js:666-676 | starting from empty, any sequence of adds and removes keeps the list duplicate-free and at most 5 long |
| TagInput.Matching | assets/main.js:592-594 | a tag is kept exactly when it is existing, its lower-cased form contains the input, and it is not selected |
| TagInput.Suggest | assets/main.js:589-601 | no list when the trimmed input is empty; otherwise the first at most 5 matches in order, and all matches when fewer than 5 are shown |
| TagInput.OfferCreate | assets/main.js:642 | the new-tag entry is offered for the lower-cased trimmed input when it is non-empty, not an existing tag and not selected |
| TagInput.ListShownExactly | assets/main.js:589-659 | the list is displayed exactly when the trimmed input is non-empty and either an unselected existing tag matches it or a new tag is offered; it is hidden when it would have no entry |
| TagInput.OfferedTagIsAdded | assets/main.js:642-651 | choosing "Create new tag" adds exactly the offered tag while fewer than 5 are selected |
| TagInput.TagInput.constructor | assets/main.js:573-578 | the widget starts with the given existing tags and no selection |
| TagInput.TagInput.AddTag | assets/main.js:666-672 | the selection becomes AfterAdd of the old one and stays well formed |
| TagInput.TagInput.RemoveTag | assets/main.js:674-678 | the selection becomes AfterRemove of the old one and stays well formed |
| TagInput.TagInput.SetTags | assets/main.js:704-707 | the selection is replaced wholesale, without the add checks |
| TagInput.TagInput.Suggestions | assets/main.js:589-597 | every suggestion is an existing tag that is not selected |
| TagInput.ClientTimeAgo | assets/main.js:545-556 | just now exactly below 60000 ms, minutes exactly from 60000 to below 3600000 ms, years exactly from 365 days on |
| TagInput.ClientMatchesServer | assets/main.js:545-556 | the client shows the same bucket and count as the server for the same whole number of seconds |
| RegisterPage.ValidateRegistration | register.php:15-28 | the first failing check is reported: a missing field (trimmed email, raw password, trimmed first name), then a password mismatch, then a password under 6 bytes; otherwise the trimmed values go on |
| RegisterPage.AcceptedForms | register.php:22-29 | registration is attempted exactly when the trimmed email and first name are non-empty and the confirmed password has at least 6 bytes |
| RegisterPage.PasswordNotTrimmed | register.php:16-24 | the password is compared untrimmed: a trailing space in the confirmation is a mismatch |
| RegisterPage.SignUp | register.php:15-36 | the form is rejected exactly when validation fails; a successful sign-up had a confirmed password of at least 6 bytes |

## Left out

- Sessions and authentication (`includes/auth.php`, `login.php`): the acting user is a parameter. `Auth::register` is a parameter of `SignUp`.
- `sanitizeHtml` and `strip_tags`: the sanitized description or answer is an input, and so is the stripped length.
- SQL `LIKE`: it is modelled as containment of the plain text, without wildcards in the search text and without collation or case folding.
- Tag-name equality: the tag lookup (`ask.php:63`) and the tag filter (`index.php:31`) compare names with SQL `=` under the default collation of the utf8mb4 character set the connection uses (`config/database.php:12`), which is case-insensitive; the model compares bytes exactly, so "PHP" and "php" are two tags in `AskPage.LinkTag` and `IndexPage.Holds`.
- Concurrency and isolation between requests: each request is one atomic step.
- Clocks: the elapsed time and the creation time are inputs.
- HTML rendering, URL building, number formatting, DOM handling, fetch, polling and toasts.
- `admin.php`, `admin2.php`, `profile.php`, `upload_image.php` and `api/get_question_from_answer.php` are not part of this model. The only logic of `profile.php` is `getUserStats`, which is modelled.
- Vote rows and notification rows: their ids are not modelled. `created_at` ties between notifications are ordered stably, not by id.
- The database schema: foreign keys and unique constraints are not modelled. In particular, inserting an answer for a missing question and submitting the same tag twice both succeed in the model.
- AUTO_INCREMENT counters: a rollback restores them, whereas InnoDB does not give back ids used by rolled-back inserts.
- VoteApi.CastVote: a PDOException in the content lookup before beginTransaction is not modelled. There the catch calls rollBack with no active transaction.
- AcceptApi.AcceptAnswer: a PDOException in the answer lookup before beginTransaction is not modelled, for the same reason.
- VoteApi.CheckRequest: JSON values that are not strings are not modelled (PHP's loose `in_array` accepts `true`). The three parameters are optional byte strings and the id is the integer after the `(int)` cast.
- TagInput.TagInput.SetTags: the widget stores the caller's array itself, so a later `push` in `addTag` (`assets/main.js:669`) also changes `window.selectedTags` (`assets/main.js:749`); the model copies the sequence and does not capture that aliasing.
- TagInput.Lower: lower-cases ASCII letters only; full Unicode case mapping is not modelled.
- TagInput.ClientTimeAgo: the millisecond difference of two `Date` objects is an input. Fractional milliseconds are not modelled.
- QuestionPage.ViewQuestion: a database error other than the numbered statements ends the request; the page rendering after the checks is not modelled.
- AskPage.LinkTagTurn: the statements of one tag (lookup, tag insert, link insert) share one fault point, because a throw at any of them leads to the same rollback.
