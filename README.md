# Board front-end list handlers, modelled in Dafny

This project models the in-memory list logic of a Korean bulletin-board front-end. The
front-end is written in React with mock data. Five pieces are modelled:

- **Category administration table.** Add, edit and delete categories. Move a row up or
  down by swapping it with its neighbour, then renumber every `order` field. Also the
  rules that enable the up, down and delete buttons.
- **Comment section.** Submit a comment, toggle a like, edit and delete comments, report
  a comment, and group replies under their root comment by `parentId`.
- **Notification inbox.** Mark one notification read, mark all read, and count the unread
  ones for the badge and the "mark all" button.
- **Post listing.** Filter by list type (notice, popular, all). Then sort a copy with
  pinned posts first and each group newest first.
- **Post-compose pages** (`/posts/write` and `/posts/create`, near-identical). The ordered
  validation of a submit, the duplicate-free tag list, and the attachment list.

Layout:

- `seqs.dfy` (module `Seqs`): `Array.prototype.filter` as `Filter`, with the facts the
  handlers rely on.
- `js_text.dfy` (module `JsText`): ECMAScript `String.prototype.trim` over its whitespace
  set, the JavaScript falsiness of an optional id, and the decimal strings that
  `` `${n}` `` produces.
- One module per component:
  - `category_management.dfy`
  - `comment_section.dfy`
  - `notifications.dfy`
  - `post_list.dfy`
  - `post_form.dfy`, the logic both compose pages share
  - `write_page.dfy`
  - `create_page.dfy`

Each component's form of the model follows its source:

- State that a component updates field by field is a `class`. Its handlers are methods
  that state the whole new state: `CategoryManager`, `CommentBoard`, `WritePostForm` and
  `CreatePostForm`.
- The list transforms are functions, and their properties are lemmas.
- The move handler is imperative, as in the source. It copies the table into a fresh
  array, swaps two slots through a temporary, and renumbers in a loop. It is proved equal
  to the function `Moved`.
- The notification page and the post listing are pure functions over sequences.

Modelling choices:

- `new Date().toISOString()` is the parameter `now`. The post timestamps that the
  comparator parses are the integers `createdAt`.
- An id that JavaScript tests with `!id` is an `Option<string>`. It is falsy when absent
  or empty.
- `findIndex` returns `-1` for an id that no row carries. `handleMoveCategory` then does
  the following:
  - Moving up writes to the non-index keys `-1` and `-2`, so it only renumbers the table.
  - Moving down puts `undefined` into slot 0, and the renumbering `forEach` throws a
    `TypeError` before any write. `Moved` returns `TypeError` and the table is left as it
    was.
  - On an empty table, moving down is the early return.

## Model

| member | source | states |
|---|---|---|
| JsText.TrimIsCore | components/comment-section.tsx:83 | `trim` removes exactly a whitespace prefix and a whitespace suffix: the result is a slice of the input whose ends are not whitespace |
| JsText.BlankIffAllWhitespace | components/admin/admin-category-management.tsx:94 | a string is blank after `trim` exactly when every character is ECMAScript whitespace |
| JsText.TrimIdempotent | app/posts/write/page.tsx:149-152 | trimming a trimmed string changes nothing, so an added tag is its own trim |
| JsText.DecimalString | components/admin/admin-category-management.tsx:104 | `` `${n}` `` is a non-empty string of decimal digits with no leading zero |
| JsText.DecimalRoundTrip | components/comment-section.tsx:93 | parsing the decimal id back gives the number it was made from |
| JsText.DecimalInjective | components/comment-section.tsx:93 | different list lengths give different ids |
| Seqs.Filter | components/admin/admin-category-management.tsx:162 | `filter` keeps at most the input's entries, each satisfying the predicate and taken from the input |
| Seqs.FilterMembership | components/comment-section.tsx:195 | an entry survives a filter exactly when it was in the input and satisfies the predicate |
| Seqs.FilterAppend | components/comment-section.tsx:203-204 | filtering keeps list order: it distributes over concatenation |
| Seqs.FilterKeepsDistinct | app/posts/write/page.tsx:158-160 | filtering a list without repeats leaves no repeats |
| Seqs.CountIsFilterLength | app/notifications/page.tsx:63 | the length of a filtered list is the number of entries satisfying the predicate |
| CategoryManagement.FindIndex | components/admin/admin-category-management.tsx:172 | `findIndex` gives the first row with the id, or -1 exactly when no row has it |
| CategoryManagement.AddAppendsOne | components/admin/admin-category-management.tsx:103-113 | an add appends one row after the unchanged rows: id = decimal of old length + 1, no posts, order = old length + 1; a numbered table stays numbered |
| CategoryManagement.AddAfterDeleteCanRepeatAnId | components/admin/admin-category-management.tsx:104 | ids are not checked for uniqueness: delete then add can mint an id a remaining row has |
| CategoryManagement.EditChangesOnlySelected | components/admin/admin-category-management.tsx:134-145 | an edit changes only name, description and visibility, and only of the rows with the selected id |
| CategoryManagement.EditIdempotent | components/admin/admin-category-management.tsx:134-145 | saving the same edit twice equals saving it once |
| CategoryManagement.DeleteRemovesExactly | components/admin/admin-category-management.tsx:162 | delete removes exactly the rows with the id; the length drops by their count |
| CategoryManagement.RemovedLength | components/admin/admin-category-management.tsx:162 | the table shrinks by the number of rows carrying the id |
| CategoryManagement.DeleteKeepsOrder | components/admin/admin-category-management.tsx:162 | the surviving rows keep their order |
| CategoryManagement.DeleteRemovesOnlyEmpty | components/admin/admin-category-management.tsx:315-316 | on a table with distinct ids, a delete confirmed from an enabled button removes only rows without posts |
| CategoryManagement.DeleteCanRemoveRowWithPosts | components/admin/admin-category-management.tsx:104-113 | with repeated ids, an enabled delete button also removes a row with posts (concrete witness) |
| CategoryManagement.MaxIdNumber | components/admin/admin-category-management.tsx:104 | the largest numeric id bounds the number of every row's id |
| CategoryManagement.FreshIdIsNew | components/admin/admin-category-management.tsx:104 | the corrected add mints an id that no row carries |
| CategoryManagement.AddFreshIdKeepsIdsDistinct | components/admin/admin-category-management.tsx:103-113 | the corrected add appends one row after the unchanged rows and keeps ids distinct |
| CategoryManagement.RemovedKeepsIdsDistinct | components/admin/admin-category-management.tsx:162 | delete keeps ids distinct |
| CategoryManagement.EditedKeepsIdsDistinct | components/admin/admin-category-management.tsx:134-145 | saving an edit keeps ids distinct |
| CategoryManagement.MovedKeepsIdsDistinct | components/admin/admin-category-management.tsx:172-189 | a move that reorders the table keeps ids distinct |
| CategoryManagement.DeleteCanBreakNumbering | components/admin/admin-category-management.tsx:158-163 | delete does not renumber: a numbered table can lose its numbering |
| CategoryManagement.MoveNoOpAtBoundary | components/admin/admin-category-management.tsx:172-178 | a move returns early exactly for up at index 0 or down at the last index |
| CategoryManagement.MoveUnknownId | components/admin/admin-category-management.tsx:172-189 | for an id no row has: up only renumbers; down throws on a non-empty table and returns early on an empty one |
| CategoryManagement.MoveRenumbers | components/admin/admin-category-management.tsx:186-189 | after any effective move every row's order is its index + 1, and the length is kept |
| CategoryManagement.SwappedIsPermutation | components/admin/admin-category-management.tsx:182-184 | swapping two slots permutes the table |
| CategoryManagement.MoveSwapsNeighbours | components/admin/admin-category-management.tsx:180-189 | apart from order numbers, a move exchanges exactly the row and its neighbour, so the result is a permutation |
| CategoryManagement.FindIndexAt | components/admin/admin-category-management.tsx:172 | the first position carrying the id is what `findIndex` returns |
| CategoryManagement.RenumberedOfNumbered | components/admin/admin-category-management.tsx:186-189 | renumbering a numbered table changes nothing |
| CategoryManagement.SwapBackRestores | components/admin/admin-category-management.tsx:180-189 | swapping back after a renumbered swap restores the table up to numbering |
| CategoryManagement.MovedAt | components/admin/admin-category-management.tsx:171-189 | away from the boundary, a present row is swapped with its neighbour and the table renumbered |
| CategoryManagement.FoundAfterMoveUp | components/admin/admin-category-management.tsx:171-189 | after moving up, the row is found one position higher |
| CategoryManagement.FoundAfterMoveDown | components/admin/admin-category-management.tsx:171-189 | after moving down, the row is found one position lower, unless the row below has the same id |
| CategoryManagement.MoveUpThenDownRestores | components/admin/admin-category-management.tsx:171-189 | up then down restores the table up to numbering, and exactly restores a numbered table |
| CategoryManagement.MoveDownThenUpRestores | components/admin/admin-category-management.tsx:171-189 | down then up restores the table up to numbering, provided the row below the first row with the id carries a different id |
| CategoryManagement.ArrowsMatchHandler | components/admin/admin-category-management.tsx:294-303 | on a numbered table, for the first row carrying its id, the up/down arrow is disabled exactly when the handler would return early |
| CategoryManagement.ArrowsMisleadOnRepeatedId | components/admin/admin-category-management.tsx:294-303 | after a delete, an add that repeats an id (:104) and a move (:172-189), with every pressed control enabled, the page can reach a numbered table with a repeated id on which the third row's arrows disagree with the handler (concrete witness) |
| CategoryManagement.RenumberInPlace | components/admin/admin-category-management.tsx:187-189 | the `forEach` loop sets every slot's order to its index + 1 and changes nothing else |
| CategoryManagement.SwapSlots | components/admin/admin-category-management.tsx:182-184 | the swap through a temporary exchanges exactly two slots |
| CategoryManagement.CategoryManager.constructor | components/admin/admin-category-management.tsx:36-91 | the initial table with an empty form, visibility on and nothing selected |
| CategoryManagement.CategoryManager.HandleAddCategory | components/admin/admin-category-management.tsx:93-122 | a blank name changes nothing; otherwise one row is appended and the form is reset |
| CategoryManagement.CategoryManager.HandleEditCategory | components/admin/admin-category-management.tsx:124-156 | a blank name or no selection changes nothing; otherwise the selected rows are edited and the form and selection reset |
| CategoryManagement.CategoryManager.SelectForDelete | components/admin/admin-category-management.tsx:315-316 | an enabled delete button selects its row's id, so some row with that id has no posts; nothing else changes |
| CategoryManagement.CategoryManager.HandleDeleteCategory | components/admin/admin-category-management.tsx:158-169 | no selection changes nothing; otherwise the selected rows are removed and the selection cleared |
| CategoryManagement.CategoryManager.HandleMoveCategory | components/admin/admin-category-management.tsx:171-196 | the array copy, swap and renumbering loop produce exactly `Moved`; a `TypeError` or early return leaves the table as it was |
| CategoryManagement.CategoryManager.StartEditCategory | components/admin/admin-category-management.tsx:198-207 | the first row with the id is loaded into the form and selected; an unknown id changes nothing |
| CommentSection.FindComment | components/comment-section.tsx:130 | `find` gives the first comment with the id, or none exactly when no comment has it |
| CommentSection.SubmitAppendsOne | components/comment-section.tsx:92-107 | a submit appends one untrimmed, unliked root comment with id = decimal of length + 1 and the form's secret flag |
| CommentSection.LikeFlipsAndCounts | components/comment-section.tsx:117-128 | a like flips `isLiked` and moves `likeCount` by +1 or -1 on the matching comments only |
| CommentSection.LikeTwiceRestores | components/comment-section.tsx:117-128 | liking twice restores the list |
| CommentSection.LikeToastReportsOldState | components/comment-section.tsx:130-135 | the toast reads the first matching comment before the click: "cancelled" exactly when it was liked, none for an unknown id |
| CommentSection.EditChangesOnlyContent | components/comment-section.tsx:174-184 | saving an edit changes only the content of the comments with the id |
| CommentSection.DeleteRemovesExactly | components/comment-section.tsx:195 | delete removes exactly the comments with the id |
| CommentSection.DeleteKeepsOrder | components/comment-section.tsx:195 | the surviving comments keep their order |
| CommentSection.DeleteOrphansReplies | components/comment-section.tsx:195-204 | replies of a deleted comment stay in the list, under the removed id, and right after the delete no root carries that id |
| CommentSection.SubmitCanAdoptOrphans | components/comment-section.tsx:93-107 | a later submit can mint a deleted comment's id, and its orphaned reply becomes the new root's child (concrete witness) |
| CommentSection.GroupingByParent | components/comment-section.tsx:203-204 | roots are exactly the comments without a parent, children of p exactly those whose parent is p; no comment is both |
| CommentSection.GroupingKeepsOrder | components/comment-section.tsx:203-204 | roots and children keep list order |
| CommentSection.CommentBoard.constructor | components/comment-section.tsx:28-80 | the initial list with an empty draft and no report or edit in progress |
| CommentSection.CommentBoard.HandleSubmitComment | components/comment-section.tsx:82-114 | blank text changes nothing; otherwise the comment is appended and the draft and secret flag are cleared |
| CommentSection.CommentBoard.HandleLikeComment | components/comment-section.tsx:116-136 | the matching comments are toggled, and the toast is chosen from the list before the click |
| CommentSection.CommentBoard.SelectForReport | components/comment-section.tsx:247 | the report item records the comment being reported |
| CommentSection.CommentBoard.HandleReportComment | components/comment-section.tsx:138-155 | a blank reason or no reported comment changes nothing; otherwise only the report form resets |
| CommentSection.CommentBoard.HandleEditComment | components/comment-section.tsx:157-163 | the editor opens on the first comment with the id, loaded with its content; an unknown id changes nothing |
| CommentSection.CommentBoard.CancelEdit | components/comment-section.tsx:280 | cancel closes the editor and changes nothing else |
| CommentSection.CommentBoard.HandleSaveEdit | components/comment-section.tsx:165-192 | blank text or no edited comment changes nothing; otherwise the content is replaced and the editor closed |
| CommentSection.CommentBoard.HandleDeleteComment | components/comment-section.tsx:194-200 | the comments with the id are removed; nothing else changes |
| Notifications.MarkAsReadChangesOnlyMatching | app/notifications/page.tsx:45-48 | mark-as-read sets `isRead` on the matching notifications only and changes no other field |
| Notifications.MarkAsReadIdempotent | app/notifications/page.tsx:47 | marking the same notification twice equals marking it once |
| Notifications.MarkAllReadsEverything | app/notifications/page.tsx:55-56 | mark-all reads every notification and keeps length, order and other fields |
| Notifications.UnreadCountCountsUnread | app/notifications/page.tsx:63 | the counter is the number of unread notifications, zero exactly when all are read |
| Notifications.MarkAllClearsCounter | app/notifications/page.tsx:63-72 | after mark-all the counter is zero and neither badge nor button is shown |
| Notifications.MarkAsReadLowersCounter | app/notifications/page.tsx:47-63 | mark-as-read lowers the counter by the number of unread matching notifications, so never raises it |
| Notifications.MarkAsReadOfUnreadLowersCounter | app/notifications/page.tsx:47-63 | marking an unread notification strictly lowers the counter |
| PostList.Insert | components/post-list.tsx:102-106 | inserting into a comparator-sorted list gives a sorted permutation with the post added |
| PostList.SortPosts | components/post-list.tsx:102-106 | the sort gives a permutation of its input that is sorted by the comparator |
| PostList.InsertKeepsTies | components/post-list.tsx:102-106 | insertion keeps posts the comparator ties in their order, the new one first |
| PostList.CompareTiesExactlyOnKey | components/post-list.tsx:102-106 | the comparator returns 0 exactly when the pinned flags and timestamps are equal |
| PostList.SortKeepsTies | components/post-list.tsx:102-106 | the sort is stable: posts the comparator ties keep their relative order |
| PostList.FilterKeepsExactly | components/post-list.tsx:95-99 | notice keeps exactly the notices, popular exactly the posts with more than 5 likes, all keeps the list as is |
| PostList.ListingOrder | components/post-list.tsx:102-106 | the listing is a permutation of the filtered posts with every pinned post first and each group newest first |
| PostList.ListingKeepsTies | components/post-list.tsx:102-106 | posts with the same pinned flag and timestamp keep their filtered order |
| PostForm.ValidationOrder | app/posts/write/page.tsx:115-145 | the checks run title, content, category; the first failure alone is reported, success only when all pass |
| PostForm.WhitespaceTitleRejected | app/posts/create/page.tsx:32-38 | a title of whitespace only is rejected whatever else is filled in |
| PostForm.AddTagKeepsTagsClean | app/posts/write/page.tsx:149-153 | adding a tag keeps the list distinct, trimmed and free of empty tags |
| PostForm.AddTagAppendsTrimmed | app/posts/create/page.tsx:66-70 | the trimmed input ends up in the list, appended exactly when absent; repeating the Enter changes nothing |
| PostForm.RemoveTagDropsEqual | app/posts/write/page.tsx:158-160 | removing a tag drops all equal entries and keeps the rest in order |
| PostForm.RemoveTagKeepsTagsClean | app/posts/create/page.tsx:75-77 | removing a tag keeps the list clean |
| PostForm.RemoveUndoesAdd | app/posts/write/page.tsx:148-160 | adding a new tag and removing it restores the list |
| PostForm.FilesAppendAndRemove | app/posts/write/page.tsx:162-171 | picked files go after the existing ones in order; removal drops only identical entries, so it undoes a pick of a new file |
| PostForm.UploadFile.constructor | app/posts/write/page.tsx:164 | a picked file with its name and size |
| WritePage.WritePostForm.constructor | app/posts/write/page.tsx:21-28 | the empty form |
| WritePage.WritePostForm.HandleSubmit | app/posts/write/page.tsx:112-146 | the outcome is the first failing check, or success exactly when all three pass; no field changes |
| WritePage.WritePostForm.HandleAddTag | app/posts/write/page.tsx:148-156 | Enter with non-blank input appends the trimmed tag if absent and clears the input; anything else changes nothing; a clean tag list stays clean |
| WritePage.WritePostForm.HandleRemoveTag | app/posts/write/page.tsx:158-160 | equal tags are dropped; a clean tag list stays clean |
| WritePage.WritePostForm.HandleFileChange | app/posts/write/page.tsx:162-167 | picked files are appended; a null pick changes nothing |
| WritePage.WritePostForm.HandleRemoveFile | app/posts/write/page.tsx:169-171 | entries identical to the file are dropped |
| CreatePage.CreatePostForm.constructor | app/posts/create/page.tsx:20-27 | the empty form |
| CreatePage.CreatePostForm.HandleSubmit | app/posts/create/page.tsx:29-63 | the outcome is the first failing check, or success exactly when all three pass; no field changes |
| CreatePage.CreatePostForm.HandleAddTag | app/posts/create/page.tsx:65-73 | Enter with non-blank input appends the trimmed tag if absent and clears the input; anything else changes nothing; a clean tag list stays clean |
| CreatePage.CreatePostForm.HandleRemoveTag | app/posts/create/page.tsx:75-77 | equal tags are dropped; a clean tag list stays clean |
| CreatePage.CreatePostForm.HandleFileChange | app/posts/create/page.tsx:79-84 | picked files are appended; a null pick changes nothing |
| CreatePage.CreatePostForm.HandleRemoveFile | app/posts/create/page.tsx:86-88 | entries identical to the file are dropped |

## Left out

- Toasts, dialog open flags, tabs and navigation (`router.push`) are UI effects. They are left out, except where a toast's choice is data: the like toast is `LikeToast`, and a submit's outcome is `SubmitOutcome` or a boolean.
- The form setters bound to inputs (`setNewCategoryName`, `setCommentText`, `setTagInput`, `setTitle` and the like) are plain field writes and have no methods. Each handler takes the fields as they stand.
- Clocks: `new Date().toISOString()` is the parameter `now`. Parsing `createdAt` with `new Date(...).getTime()` is done beforehand, and `Post.createdAt` holds the milliseconds. An unparsable date, for which the comparator returns `NaN`, is not modelled.
- The mock data arrays (the initial categories, comments, notifications and the constant post list) are not fixed. The constructors and the listing functions take any list.
- PostList.SortPosts: an insertion sort. It stands for the engine's stable `Array.prototype.sort`. The model states the same outcome (a sorted, stable permutation), not the engine's algorithm. The sort works on a copy, so the input list is never reordered. In the model this holds because every function returns a new sequence.
- CategoryManagement.CategoryManager.HandleMoveCategory: the renumbering `forEach` writes `order` into the category objects. Those objects are shared with the previous state. Categories are values here, so that aliasing of the old table is not modelled.
- CategoryManagement.CategoryManager.HandleDeleteCategory: the handler checks only that an id is selected, as the source does. The enabled button guarantees `DeleteAllowed`: some row with the selected id has no posts (`SelectForDelete`). Other rows with that id may have posts, and they are removed too (see Findings).
- CategoryManagement.CategoryManager.HandleAddCategory: keeps the id minting of the source (`` `${length + 1}` ``). The corrected minting is `AddedFreshId`, stated and proved beside it; the class is not switched to it, because the class models the page as written. With `AddedFreshId`, ids stay distinct under add, edit, delete and move (`AddFreshIdKeepsIdsDistinct`, `EditedKeepsIdsDistinct`, `RemovedKeepsIdsDistinct`, `MovedKeepsIdsDistinct`), so `DeleteRemovesOnlyEmpty` holds on every table the corrected page reaches from one with distinct ids.
- Rendering, date formatting (`toLocaleString`) and the API description objects are display only.

## Findings

| source | as written | input that shows it | evidently intended | confidence | as-written member | corrected member |
|---|---|---|---|---|---|---|
| components/admin/admin-category-management.tsx:104 | a new category's id is the table length + 1, and delete removes every row with the selected id (:162) | rows 1, 2, 3 where 3 has five posts; delete 1, then add: the new row gets id "3", and its enabled delete button removes both rows "3", including the one with posts. With the page's own initial rows this cannot happen: rows "1" to "4" carry posts and can never be deleted, so the table keeps at least four rows, every minted id is "5" or higher, and every row carrying such an id has no posts. The case needs a table loaded from elsewhere, such as the API the page is meant to call | ids are unique, so the delete button, which is enabled only on rows without posts, removes only such rows | not executed; high that the duplicate id arises, medium that it is unintended | CategoryManagement.DeleteCanRemoveRowWithPosts | CategoryManagement.AddFreshIdKeepsIdsDistinct |
