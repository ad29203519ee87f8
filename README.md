# StackIt forum core in Dafny

This project models the core of a question-and-answer forum: a REST backend over a document store and the self-contained logic of its single-page client.

**Backend.** The store is one object. It holds maps of questions, answers, users and notifications, the list of tag names, and a counter that fresh ids are drawn from. Every controller handler is a method of `Forum.Store`. It takes the caller (id and role, as the authentication layer resolves them) and answers with a status. Each method changes the store step by step, as the handler does, and is proved to end in exactly the state that a pure function of `ForumState` describes for that handler. The store also stays `Consistent`: ids stay below the counter, stored documents pass their schema's `required` checks, no user votes twice, a question's answers and accepted answer point back at it, and tag names are unique and non-empty. `ForumLaws` proves that every handler keeps this invariant, and proves the rules between handlers.

**Images.** `ImageScan` models the image-reference extractor:
- the `exec` loop of `/<img[^>]+src="([^">]+)"/g`, including the greedy backtracking of `[^>]+`;
- the public-id pattern `/\/v\d+\/([^\/]+)\./`;
- the three-way classification of each address;
- `cleanupImages`.

The media host's upload is a function parameter that may fail. Its destroy calls are returned as the list of ids passed to it.

**Queries.** `Queries` models the question list (filter, sort, skip, limit, total) and the newest-twenty notifications, over the stored documents in id order.

**Client.**
- `TextPreview`: the question card's plain-text preview.
- `AskForm`: the ask page's tag parsing, error filter and submission state.
- `Pagination`: the pager.
- `Toasts`: the toast list and its styles.
- `NotificationMenu`: the navigation bar's notification menu.
- `RichEditor`: the rich-text editor's upload checks and link-input state.

Shared pieces:
- `Text` holds the JavaScript string built-ins the core uses: `trim`, `includes`, `startsWith`, `split`, `replace` with a global pattern, and ASCII case folding.
- `Ordering` is the stable sort that stands for the store's `sort`.
- `Records` holds the schemas.

Where the design description of the repository and the code disagree, the model follows the code:
- A repeated upvote is answered with 400, not with a conflict status.
- Deleting a question removes its answers but not their hosted images: no handler calls `cleanupImages`.
- Only a new answer and a new question create notifications; an upvote does not.
- Accepting looks up the answer's own question, so an answer can only be accepted on the question it answers.
- Accepting has no admin override.
- A banned role is never checked by these handlers.

## Model

| member | source | states |
|---|---|---|
| ForumState.PostAnswer | backend/controllers/answerController.js:4-19 | 201 exactly when the description is truthy, otherwise 500 and nothing stored. The new answer has the caller as owner and no votes, at the next id. Its id is appended to the question's answers when the question exists; all else is unchanged. |
| Forum.Store.PostAnswer | backend/controllers/answerController.js:7-14 | Saves the answer, then pushes its id onto the question, ending in the state `PostAnswer` describes and consistent. |
| Forum.Store.CreateAnswer | backend/controllers/answerController.js:4-19 | The store ends in the state `PostAnswer` gives with no images, and stays consistent. The question is not checked to exist. |
| ForumState.UpdateAnswer | backend/controllers/answerController.js:21-34 | 404 iff the answer is missing; 403 iff the caller is neither owner nor admin; otherwise only that answer's description changes, to the new one when truthy. |
| Forum.Store.UpdateAnswer | backend/controllers/answerController.js:21-34 | Ends in the state `UpdateAnswer` describes and stays consistent. |
| ForumState.DeleteAnswer | backend/controllers/answerController.js:36-49 | 404 / 403 as for update, with the store unchanged. On success the answer is gone and its id is pulled from its question's answers; other questions are untouched. |
| Forum.Store.DeleteAnswer | backend/controllers/answerController.js:36-49 | Ends in the state `DeleteAnswer` describes and stays consistent. |
| ForumState.UpvoteAnswer | backend/controllers/answerController.js:51-64 | 404 iff missing; 400 iff the caller already voted (store unchanged). Otherwise the caller is appended, the vote count grows by one, and nothing else changes. There is no ownership check. |
| ForumLaws.UpvoteAnswerKeepsConsistent | backend/controllers/answerController.js:55-59 | After any upvote the voters of every answer are still distinct. |
| Forum.Store.UpvoteAnswer | backend/controllers/answerController.js:51-64 | Ends in the state `UpvoteAnswer` describes and stays consistent. |
| ForumState.AcceptAnswer | backend/controllers/answerController.js:66-81 | 404 iff the answer or its question is missing; 403 iff the caller does not own that question, admins included. Otherwise only that question's accepted answer becomes the answer. |
| ForumLaws.AcceptAnswerKeepsConsistent | backend/controllers/answerController.js:70-76 | Consistency is kept. After a successful accept, the question's accepted answer is that answer and the answer belongs to that question. |
| Forum.Store.AcceptAnswer | backend/controllers/answerController.js:66-81 | Ends in the state `AcceptAnswer` describes and stays consistent. |
| ForumLaws.CreateAnswerKeepsConsistent | backend/controllers/answerController.js:7-14 | Storing an answer keeps the store consistent. |
| ForumLaws.UpdateAnswerKeepsConsistent | backend/controllers/answerController.js:23-28 | Updating an answer keeps the store consistent. |
| ForumLaws.DeleteAnswerKeepsConsistent | backend/controllers/answerController.js:38-44 | Deleting an answer keeps the store consistent. |
| ForumLaws.UpdateAnswerNeverFails | backend/controllers/answerController.js:28 | On a consistent store, an update by the owner or an admin always succeeds: a falsy description keeps the old, non-empty one. |
| ForumState.PostQuestion | backend/controllers/questionController.js:37-52 | 201 iff title and description are truthy and no tag is empty (the schema's `required`), else 500 and nothing stored. The question is owned by the caller, has no answers and no accepted answer, and is stored at the next id. |
| Forum.Store.PostQuestion | backend/controllers/questionController.js:39-48 | Builds and saves the question, ending in the state `PostQuestion` describes and consistent. |
| Forum.Store.CreateQuestion | backend/controllers/questionController.js:37-52 | Ends in the state `PostQuestion` gives with no images, and stays consistent. |
| ForumLaws.CreateQuestionKeepsConsistent | backend/controllers/questionController.js:39-48 | Storing a question keeps the store consistent. |
| ForumState.Edited | backend/controllers/questionController.js:62-64 | Title and description are replaced only by truthy values; tags by any list, even an empty one. Owner, answers, accepted answer, images and creation time are unchanged. |
| ForumState.EditQuestion | backend/controllers/questionController.js:54-70 | 404 iff missing; 403 iff the caller is neither owner nor admin; a rejected edit changes nothing. A successful one changes only that question, to its `Edited` form, with the images replaced when given. |
| Forum.Store.EditQuestion | backend/controllers/questionController.js:56-66 | Looks the question up, checks the caller, assigns the fields and saves, ending in the state `EditQuestion` describes and consistent. |
| Forum.Store.UpdateQuestion | backend/controllers/questionController.js:54-70 | Ends in the state `EditQuestion` gives without images, and stays consistent. |
| ForumLaws.EditQuestionKeepsConsistent | backend/controllers/questionController.js:56-66 | An edit keeps the store consistent. |
| ForumLaws.EditFailsOnlyOnEmptyTag | backend/controllers/questionController.js:61-65 | On a consistent store, an edit by the owner or an admin fails only when the new tag list holds an empty tag. |
| ForumState.DeleteQuestion | backend/controllers/questionController.js:72-85 | 404 / 403 as for update, with the store unchanged. On success the question is gone, and so is exactly every answer to it; the other answers are kept as they were. |
| Forum.Store.DeleteQuestion | backend/controllers/questionController.js:72-85 | Ends in the state `DeleteQuestion` describes and stays consistent. |
| ForumLaws.DeleteQuestionKeepsConsistent | backend/controllers/questionController.js:79-80 | The cascade keeps the store consistent. |
| Queries.GetQuestionsMatch | backend/controllers/questionController.js:7-15 | Every question on the page is a stored one that carries the tag (when given) and has no answers (when `unanswered` is given). A positive limit bounds the page. |
| Queries.GetQuestionsOrder | backend/controllers/questionController.js:6-13 | The page is newest first when `sort` is absent or `newest`, and oldest first for any other value. |
| Queries.GetQuestionsWindow | backend/controllers/questionController.js:13-18 | The page is the stretch of a sorted ordering of the matches starting at `(page - 1) * limit`, and `total` counts every match. |
| Queries.NegativeSkipFails | backend/controllers/questionController.js:14 | A page below 1 with a positive limit gives a negative skip, which the store refuses. |
| Forum.Store.GetQuestions | backend/controllers/questionController.js:4-23 | The page holds stored, matching questions in the requested order, and `total` is the number of matches. |
| ForumState.DeleteUser | backend/controllers/adminController.js:5-13 | 403 iff the caller is not an admin, with nothing changed. Otherwise 200 whether or not the user existed, with the user absent afterwards and all else unchanged. |
| Forum.Store.DeleteUser | backend/controllers/adminController.js:5-13 | Ends in the state `DeleteUser` describes and stays consistent. |
| ForumLaws.DeleteUserIdempotent | backend/controllers/adminController.js:8-9 | Deleting a user twice gives the same store and status as deleting once. |
| ForumState.BanUser | backend/controllers/adminController.js:15-26 | 403 iff not an admin; 404 iff the user is missing; otherwise only that user's role becomes banned. |
| Forum.Store.BanUser | backend/controllers/adminController.js:15-26 | Ends in the state `BanUser` describes and stays consistent. |
| ForumState.UnbanUser | backend/controllers/adminController.js:28-39 | 403 iff not an admin; 404 iff missing; otherwise the role becomes user, whatever it was. |
| ForumLaws.UnbanDemotesAdmin | backend/controllers/adminController.js:31-34 | Unbanning an admin succeeds and leaves them an ordinary user. |
| Forum.Store.UnbanUser | backend/controllers/adminController.js:28-39 | Ends in the state `UnbanUser` describes and stays consistent. |
| ForumLaws.UserRolesKeepConsistent | backend/controllers/adminController.js:5-39 | Deleting, banning and unbanning users keep the store consistent. |
| ForumState.AdminDeleteQuestion | backend/controllers/adminController.js:41-49 | 403 iff not an admin. Otherwise only the question document goes; its answers stay. |
| Forum.Store.AdminDeleteQuestion | backend/controllers/adminController.js:41-49 | Ends in the state `AdminDeleteQuestion` describes and stays consistent. |
| ForumState.AdminDeleteAnswer | backend/controllers/adminController.js:51-59 | 403 iff not an admin. Otherwise only the answer document goes; its id stays in its question's answers. |
| Forum.Store.AdminDeleteAnswer | backend/controllers/adminController.js:51-59 | Ends in the state `AdminDeleteAnswer` describes and stays consistent. |
| ForumLaws.AdminDeletesKeepConsistent | backend/controllers/adminController.js:44-54 | Both admin deletes keep the store consistent, although they neither cascade nor unlink. |
| Queries.GetNotificationsSpec | backend/controllers/notificationController.js:5-7 | Only documents from the listing and only the caller's own, newest first; every one of the caller's that is left out is no newer than any returned. |
| Queries.GetNotificationsAll | backend/controllers/notificationController.js:5-7 | The list holds as many notifications as the caller has, up to twenty, drawn without repeats from the caller's documents; from a listing without repeats, none is returned twice. |
| Forum.Store.GetNotifications | backend/controllers/notificationController.js:3-12 | Returns as many of the caller's stored notifications as they have, up to twenty, each once, each the document stored under its id, newest first. |
| Forum.StoredNotifications | backend/controllers/notificationController.js:5-7 | Listed from the store's notification map, the result carries distinct ids, each the stored document of the caller, newest first. |
| ForumState.MarkAsRead | backend/controllers/notificationController.js:14-27 | 404 iff missing; 403 iff the caller is not its user, admins included. Otherwise only that notification becomes read. |
| Forum.Store.MarkAsRead | backend/controllers/notificationController.js:14-27 | Ends in the state `MarkAsRead` describes and stays consistent. |
| ForumLaws.MarkAsReadIdempotent | backend/controllers/notificationController.js:21-23 | Marking twice gives the same store as marking once. |
| ForumLaws.MarkAsReadKeepsConsistent | backend/controllers/notificationController.js:21-22 | Marking read keeps the store consistent. |
| Forum.Store.GetTags | backend/controllers/tagController.js:3-10 | Returns every stored tag name, each once and none empty. |
| ForumState.CreateTag | backend/controllers/tagController.js:12-24 | 403 iff not an admin. 500 iff the name is missing, empty or already stored (`required`, `unique` in backend/models/Tag.js). Otherwise 201 with exactly that name added. A refusal changes nothing. |
| Forum.Store.CreateTag | backend/controllers/tagController.js:12-24 | Ends in the state `CreateTag` describes and stays consistent. |
| ForumLaws.CreateTagKeepsConsistent | backend/models/Tag.js:4 | Tag names stay unique and non-empty. |
| ImageScan.SrcAt | backend/controllers/richContentController.js:15 | The tail `src="…"` matches at a position exactly when the result says so, with the capture the greedy class gives. |
| ImageScan.LastSrcIn | backend/controllers/richContentController.js:15 | The greedy `[^>]+` backtracks to the last position where the tail matches. |
| ImageScan.Exec | backend/controllers/richContentController.js:19 | One `exec` finds the leftmost match at or after `lastIndex` and ends after it. |
| ImageScan.MatchAtIsPatternMatch | backend/controllers/richContentController.js:15 | A match is `<img`, non-`>` characters, `src="`, the address and a quote, at the last possible `src="`. |
| ImageScan.SrcsAreClean | backend/controllers/richContentController.js:15 | Every captured address is non-empty and holds neither `"` nor `>`. |
| ImageScan.PublicIdFrom | backend/controllers/richContentController.js:25 | A found public id is non-empty and slash-free, and sits in `/v<digits>/<id>.`; when none is found, the pattern matches nowhere. |
| ImageScan.PublicIdAtComplete | backend/controllers/richContentController.js:25 | Wherever `/v<digits>/<id>.` occurs with a non-empty slash-free id, the pattern matches at that place, capturing at least that id. |
| ImageScan.PublicIdFromComplete | backend/controllers/richContentController.js:25 | If the pattern occurs anywhere from the search position on, a public id is found. |
| ImageScan.ProcessImagesFromContent | backend/controllers/richContentController.js:14-52 | An omitted content is scanned as the text "undefined", and there are no more entries than matches. |
| ImageScan.ScanImages | backend/controllers/richContentController.js:15-49 | The `exec` loop collects exactly the classified entries of the matches, left to right. |
| ImageScan.HostEntry | backend/controllers/richContentController.js:23-31 | A media-host address gives an entry iff the public-id pattern matches. The entry keeps the address, has the fixed alt text and a slash-free id. |
| ImageScan.DataEntry | backend/controllers/richContentController.js:33-47 | A `data:image/` address gives the uploaded image's id and URL, or nothing when the upload fails. |
| ImageScan.OtherEntry | backend/controllers/richContentController.js:23-33 | Any other address gives no entry. |
| ImageScan.ClassifyAllAppend | backend/controllers/richContentController.js:19-49 | Entries keep document order across concatenation. |
| ImageScan.DroppedAddress | backend/controllers/richContentController.js:45-47 | An address without an entry, such as a failed upload, drops only itself; scanning goes on. |
| ImageScan.NoTagNoSrcs | backend/controllers/richContentController.js:19 | Text without `<`, such as "undefined", yields no match. |
| ImageScan.DestroyCalls | backend/controllers/richContentController.js:201-208 | Only non-empty public ids are destroyed, at most one per image. A single image gives a call with its id iff it has one. When every image has one, the calls are exactly those ids in order. |
| ImageScan.DestroyCallsAreKeptIds | backend/controllers/richContentController.js:201-208 | Destroy is called exactly once per image with a non-empty public id, with that id, in document order, and for no other image. |
| ImageScan.DestroyCallsSkipUnnamed | backend/controllers/richContentController.js:202 | Images without a public id add no call: the calls for a list are those for its images that have one. |
| ImageScan.DestroyCallsAppend | backend/controllers/richContentController.js:201-209 | The calls for two lists in a row are the calls for the first followed by those for the second. |
| ImageScan.CleanupImages | backend/controllers/richContentController.js:198-210 | An absent or empty list destroys nothing. Otherwise the loop destroys exactly the public ids of the images that have one, in order, whatever each call's outcome. |
| ForumState.Notify | backend/controllers/richContentController.js:77-82 | Adds one unread notification at the next id, linking to the question, and changes nothing else. |
| Forum.Store.Notify | backend/controllers/richContentController.js:77-82 | Stores the notification, ending in the state `Notify` describes and consistent. |
| ForumLaws.NotifyKeepsConsistent | backend/controllers/richContentController.js:77-82 | Adding a notification keeps the store consistent. |
| ForumState.CreateQuestionWithImages | backend/controllers/richContentController.js:55-89 | Same status as creating the question. On success the new question (caller as owner, no answers, the extracted images, the given time) is stored at the next id, answers, users and tags are unchanged, and its author is told it was posted. |
| Forum.Store.CreateQuestionWithImages | backend/controllers/richContentController.js:55-89 | Runs the scan, then ends in the state `CreateQuestionWithImages` describes, and stays consistent. |
| ForumLaws.CreateQuestionWithImagesKeepsConsistent | backend/controllers/richContentController.js:60-82 | Creating a question with images keeps the store consistent. |
| ForumState.CreateAnswerWithImages | backend/controllers/richContentController.js:92-133 | 201 iff the description is truthy. On success the answer (caller as owner, no votes, the extracted images) is stored at the next id and appended to its question's answers; other questions, users and tags are unchanged. The question's owner is notified iff the question exists and the owner is not the caller. |
| Forum.Store.CreateAnswerWithImages | backend/controllers/richContentController.js:92-133 | Runs the scan, then ends in the state `CreateAnswerWithImages` describes, and stays consistent. |
| ForumLaws.CreateAnswerWithImagesKeepsConsistent | backend/controllers/richContentController.js:95-126 | Creating an answer with images keeps the store consistent. |
| ForumLaws.NotificationRecipients | backend/controllers/richContentController.js:77-82 | A new question always notifies its author. A new answer notifies the question's owner, never the caller. |
| Forum.Store.UpdateQuestionWithImages | backend/controllers/richContentController.js:136-165 | Ends in the state `EditQuestion` gives with the images replaced by those extracted from the request's description, and stays consistent. |
| ForumState.UpdateAnswerWithImages | backend/controllers/richContentController.js:168-195 | 404 / 403 as for update. Otherwise the description is replaced when truthy and the images are replaced by the extracted ones. |
| Forum.Store.UpdateAnswerWithImages | backend/controllers/richContentController.js:168-195 | Ends in the state `UpdateAnswerWithImages` describes and stays consistent. |
| ForumLaws.UpdateAnswerWithImagesKeepsConsistent | backend/controllers/richContentController.js:170-185 | Updating an answer with images keeps the store consistent. |
| ForumLaws.OmittedDescriptionDropsImages | backend/controllers/richContentController.js:138-155 | An edit without a description keeps the old text but empties the images, for questions and answers alike. |
| TextPreview.StripImages | frontend/src/components/QuestionCard.jsx:7 | Removing image tags never lengthens the text or adds a character. |
| TextPreview.StripImagesSplit | frontend/src/components/QuestionCard.jsx:7 | Text without `<` before an image tag (`<img` in any case up to the next `>`) is kept, the tag is dropped, and the rest is stripped in turn. |
| TextPreview.StripImagesPlainPrefix | frontend/src/components/QuestionCard.jsx:7 | Text without `<` is kept as it is in front of whatever follows. |
| TextPreview.ParagraphKeptByImageStrip | frontend/src/components/QuestionCard.jsx:7 | A paragraph `<p>…</p>` around text without `<` is no image tag and is kept whole. |
| TextPreview.StripTags | frontend/src/components/QuestionCard.jsx:9 | Removing tags never lengthens the text or adds a character. |
| TextPreview.StripTagsSplit | frontend/src/components/QuestionCard.jsx:9 | Text without `<` before a tag `<m>` with non-empty `m` is kept, the tag is dropped, and the rest is stripped in turn. |
| TextPreview.StripTagsPlainPrefix | frontend/src/components/QuestionCard.jsx:9 | Text without `<` is kept as it is in front of whatever follows. |
| TextPreview.ParagraphTagsStripped | frontend/src/components/QuestionCard.jsx:9 | Stripping tags from `<p>…</p>` around text without `<` leaves exactly the text. |
| TextPreview.StripTagsLeavesNone | frontend/src/components/QuestionCard.jsx:9 | After tags are removed, no `<` followed by a non-`>` character is ever closed. |
| TextPreview.Truncate | frontend/src/components/QuestionCard.jsx:14-16 | The cut text is the first `maxLength` characters trimmed, followed by `...`; it is trimmed, non-empty and at most `maxLength + 3` long. |
| TextPreview.Preview | frontend/src/components/QuestionCard.jsx:4-18 | Empty exactly for an absent or empty input. Otherwise: the fixed notice when the plain text is empty, the plain text itself when it fits, and the cut text with `...` when it is longer than `maxLength`. Always trimmed. |
| TextPreview.ImageTagIgnored | frontend/src/components/QuestionCard.jsx:7-17 | Inserting an image tag after text without `<` does not change the preview. |
| TextPreview.ParagraphPreview | frontend/src/components/QuestionCard.jsx:4-17 | A short paragraph without markup or entities previews as its trimmed text. |
| TextPreview.PlainTextPreview | frontend/src/components/QuestionCard.jsx:11-15 | Short text without markup or entities previews as itself, trimmed. |
| TextPreview.LongTextIsCut | frontend/src/components/QuestionCard.jsx:14-16 | Text longer than `maxLength` ends in `...`, and what precedes it is exactly the first `maxLength` characters of the plain text, trimmed. |
| AskForm.TidyTagsIsTrimThenFilter | frontend/src/pages/AskPage.jsx:28 | Tidying is exactly trimming every piece, then keeping the non-empty ones in order. |
| AskForm.TidyTags | frontend/src/pages/AskPage.jsx:28 | Trimmed non-empty pieces, no more than the input; a single piece gives its trimmed form, or nothing when that is empty; no comma when the pieces have none. |
| AskForm.TidyTagsAppend | frontend/src/pages/AskPage.jsx:28 | Tidying works piece by piece: the tags of two runs of pieces are the tags of the first followed by those of the second. |
| AskForm.ParsedTagsArePieces | frontend/src/pages/AskPage.jsx:28 | The parsed tags are exactly the comma-separated pieces of the field, trimmed, with the empty ones dropped, in order. |
| AskForm.ParsedTagsAreClean | frontend/src/pages/AskPage.jsx:28 | Each tag is non-empty, trimmed and comma-free; there are at most one more tags than commas. |
| AskForm.BlankFieldHasNoTags | frontend/src/pages/AskPage.jsx:28 | A field of white space and commas gives no tags. |
| AskForm.ParseJoinedTags | frontend/src/pages/AskPage.jsx:28 | Joining well-formed tags with commas and parsing gives them back in order. |
| AskForm.ShownError | frontend/src/pages/AskPage.jsx:36-41 | The server message is shown iff it is present, non-empty and mentions none of `token`, `unauthorized` or `login` in any case; otherwise nothing is shown. |
| AskForm.Form.BeginSubmit | frontend/src/pages/AskPage.jsx:19-28 | Clears both messages, sets loading, and sends the fields with the parsed tags. |
| AskForm.Form.FinishSubmit | frontend/src/pages/AskPage.jsx:29-44 | On success it resets the fields and sets the success message; on failure it keeps the fields and sets the filtered error. Loading ends either way. |
| Pagination.PageNumbers | frontend/src/components/Pagination.jsx:5-6 | The loop builds exactly 1 to `totalPages`, ascending. |
| Pagination.Render | frontend/src/components/Pagination.jsx:3-38 | Nothing is shown iff there is at most one page. Prev requests `page - 1` and is disabled iff `page == 1`. Next requests `page + 1` and is disabled iff `page == totalPages`. Button k requests k+1, is never disabled, and is highlighted iff it is the page. Exactly one is highlighted when the page is in range. |
| Pagination.OneHighlighted | frontend/src/components/Pagination.jsx:21-22 | If only the button at one index is highlighted, the count is one when that index is in range and zero otherwise. |
| Toasts.ToastList.AddToast | frontend/src/components/ToastContainer.jsx:10-28 | The counter advances. The new id is above every id in the list. The toast is appended with type `info` and action `''` by default. The stored id is returned. |
| Toasts.Without | frontend/src/components/ToastContainer.jsx:31 | Keeps exactly the toasts with another id; an absent id leaves the list as it is. |
| Toasts.WithoutKeepsOrder | frontend/src/components/ToastContainer.jsx:31 | Removal keeps the remaining toasts in order: ids still increase. |
| Toasts.WithoutIdempotent | frontend/src/components/ToastContainer.jsx:30-32 | Removing the same id twice is removing it once. |
| Toasts.ToastList.RemoveToast | frontend/src/components/ToastContainer.jsx:30-32 | The list becomes `Without` of the old one, with increasing ids kept; an absent id changes nothing. |
| Toasts.ToastList.ShowLoginToast | frontend/src/components/ToastContainer.jsx:34-36 | Appends a warning `Please login to <action>` carrying the action. |
| Toasts.IconFor | frontend/src/components/ToastContainer.jsx:42-53 | The icon colour is the type's tone at 600. It is a check iff the type is success and an alert iff error or warning. |
| Toasts.BorderColor | frontend/src/components/ToastContainer.jsx:55-66 | The border is the same tone at 200. |
| Toasts.BgColor | frontend/src/components/ToastContainer.jsx:68-79 | The background is the same tone at 50. |
| NotificationMenu.UnreadCount | frontend/src/components/Navbar.jsx:29 | The count is at most the list's length, and is zero iff every notification is read. |
| NotificationMenu.UnreadCountCountsUnread | frontend/src/components/Navbar.jsx:29 | The count is the number of positions in the list holding an unread notification. |
| NotificationMenu.UnreadCountAppend | frontend/src/components/Navbar.jsx:29 | The count of two lists in a row is the sum of their counts. |
| NotificationMenu.ShowBadge | frontend/src/components/Navbar.jsx:72 | The badge is shown iff some notification is unread. |
| NotificationMenu.MarkRead | frontend/src/components/Navbar.jsx:37-40 | Same length and order. The entries with that id become read, and every other entry and field is unchanged. |
| NotificationMenu.MarkReadLowersCount | frontend/src/components/Navbar.jsx:39 | Marking never raises the unread count, and lowers it iff an unread entry had that id. |
| NotificationMenu.MarkReadOfReadIsNoOp | frontend/src/components/Navbar.jsx:39 | Marking an id no unread entry carries leaves the list unchanged. |
| NotificationMenu.MarkReadIdempotent | frontend/src/components/Navbar.jsx:39 | Marking twice is marking once. |
| NotificationMenu.MarkReadCommutes | frontend/src/components/Navbar.jsx:45-47 | The marks issued on opening may complete in any order: two marks commute. |
| NotificationMenu.UnreadIds | frontend/src/components/Navbar.jsx:45-47 | As many ids as unread entries; every unread entry's id is there, and only ids of unread entries. |
| NotificationMenu.MarkAllOnOpen | frontend/src/components/Navbar.jsx:43-50 | When open with something unread, the loop issues exactly the unread ids in order; otherwise none. |
| NotificationMenu.AllMarksClearUnread | frontend/src/components/Navbar.jsx:43-48 | Once every issued mark has completed, nothing is unread. |
| NotificationMenu.ItemClick | frontend/src/components/Navbar.jsx:93-96 | A click marks the item iff it was unread, and always closes the menu. |
| NotificationMenu.ClickedItemIsRead | frontend/src/components/Navbar.jsx:93-96 | Once the mark a click issues has completed, the clicked item is read. |
| NotificationMenu.Href | frontend/src/components/Navbar.jsx:90 | An item with a link opens that link; one without opens `#`. |
| RichEditor.CheckFile | frontend/src/components/RichTextEditor.jsx:115-128 | No file gives no action. A file is accepted iff its type starts with `image/` and it is at most 5 MiB; a refusal names the failed check. |
| RichEditor.SizeLimitIsInclusive | frontend/src/components/RichTextEditor.jsx:125-128 | Exactly 5 MiB is accepted; one byte more is refused. |
| RichEditor.CheckAlert | frontend/src/components/RichTextEditor.jsx:119-128 | A wrong type or a too-large file raises an alert; no file raises none. |
| RichEditor.AltText | frontend/src/components/RichTextEditor.jsx:138 | The alt text is the file name, or `Uploaded image` when the name is empty; never empty. |
| RichEditor.Editor.BeginAddImage | frontend/src/components/RichTextEditor.jsx:114-130 | A refused file changes nothing and raises its alert. An accepted one sets the uploading flag. |
| RichEditor.Editor.FinishAddImage | frontend/src/components/RichTextEditor.jsx:131-149 | Inserts the image with the file name, or `Uploaded image`, as alt text; or alerts on failure. Uploading ends and the file input is cleared either way. |
| RichEditor.Editor.ImageButtonDisabled | frontend/src/components/RichTextEditor.jsx:340-342 | The image button is disabled iff an upload is running. |
| RichEditor.Editor.ApplyLink | frontend/src/components/RichTextEditor.jsx:152-158 | With an empty URL nothing changes. Otherwise the link is set, the URL is cleared and the input is hidden. |
| RichEditor.Editor.RemoveLink | frontend/src/components/RichTextEditor.jsx:160-162 | Asks the document to remove the link; the component's state is unchanged. |
| RichEditor.Editor.KeyDown | frontend/src/components/RichTextEditor.jsx:302-311 | Enter applies the link. Escape hides the input and clears the URL. Other keys change nothing. |
| RichEditor.Editor.Cancel | frontend/src/components/RichTextEditor.jsx:316 | Hides the input but keeps the URL. |
| RichEditor.Editor.OpenLinkInput | frontend/src/components/RichTextEditor.jsx:323 | Shows the input and keeps the URL. |
| RichEditor.Editor.TypeUrl | frontend/src/components/RichTextEditor.jsx:300 | The URL becomes what was typed. |

## Left out

- Database access: MongoDB I/O, `populate`, the schema machinery other than the `required` and `unique` checks, server start-up and routing. The store is in memory and handlers run one at a time, so races between concurrent requests are not modelled.
- Error paths: the generic 500 answers for arbitrary database exceptions. Only the schema failures are modelled.
- Identifiers: document ids (ObjectIds) are natural numbers drawn from one counter. Creation times are a `now` parameter.
- Authentication: the middleware is not part of this model. The caller's id and role are inputs.
- `getQuestionById` and the client pages that only render are not part of this model.
- Queries.GetQuestions: the free-text `search` filter is left out because it hands user input to the database's regular-expression engine. Query-string parsing of `page` and `limit` is not modelled either; they arrive as integers. Ties in creation time keep id order, where the database promises no order.
- Forum.Store.GetNotifications: the Notification schema is not part of the selected sources. Its fields (user, type, message, link, read flag defaulting to false, creation time) follow how the controllers use them.
- The `upvoteQuestion` route points at a handler that does not exist, so there is nothing to model. The accept route on the server and the path the client calls do not match; this is routing and is not modelled.
- The media host: upload is a function parameter that may fail, and destroy calls are returned as a list of ids. The folder and resource-type options, and the host's configuration, are not modelled.
- Strings are sequences of characters: lengths count code points, not UTF-16 code units, and only ASCII letters fold case.
- TextPreview.Preview: `maxLength` is a natural number; negative or non-numeric lengths are not modelled.
- Toasts.ToastList: the id counter is shared by every list in the page; the model follows one list and its counter. Increments by other lists only raise the counter, which keeps ids fresh.
- Toasts: the automatic removal after five seconds is not modelled, because it is a timer; an explicit `RemoveToast` stands for it. The timestamp is a `now` parameter. Rendering and animation are not modelled.
- NotificationMenu.MarkAllOnOpen: takes the list as held when the menu opens. That is the list of the previous fetch, since the new fetch has not returned yet; the fetch, its loading flag and a failed server mark (which leaves the list as it was) are not modelled.
- RichEditor.Editor: the editor document is not modelled; what the component asks it to do is recorded as a list of commands. Alerts are returned as strings. The check that the file input exists is not modelled: the input is always present.
- Client rendering, effects, animations, date formatting, the HTTP client and the toast helpers are not modelled.
