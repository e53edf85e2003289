# Flashcard back end and vocabulary scripts, in Dafny

This project models the core of a flashcard web application for learners of
Chinese (HSK level 1) and proves properties of that model. It covers:

- the data-access models over the SQLite tables: topics, levels, flashcards,
  users, badges (and the user/badge link table), bookmarks and study streaks.
  One `Tables.Database` class holds every table as a field. Its `Valid()`
  invariant states the primary-key, unique, not-null and foreign-key
  constraints that the schema declares;
- the admin flashcard controller: boolean coercion of form fields, payload
  normalisation and validation, topic and level auto-creation, create,
  update and the paged, filtered listing;
- the Express middlewares: sensitive-path blocking, the per-IP sliding-window
  rate limiter, the Authorization header format check, and the role checks;
- the three maintenance scripts: generation of the HSK 1 word list (number
  words, days of the week, months, first-wins de-duplication), the JSON
  import inside one transaction, and the duplicate report.

JavaScript values that cross untyped boundaries (request bodies, JSON items)
are `JsValues.JsValue`. `Or` models `||`, `Truthy` models truthiness,
`ToText` models binding a value to an SQL parameter, and `JsString` models
`String(v)`. SQL errors are the `Tables.SqlError` values the schema's
constraints raise; their message is the driver's, which starts with
'SQLITE_CONSTRAINT: '. A single SQL statement either keeps every table
unchanged and returns the error, or performs its update. Operations made
of several statements are not atomic unless the source wraps them in a
transaction, and their contracts say what stays done after a failure:
`BookmarkModel.UpdateUserBookmarks` keeps the deletion and the inserts
before the failing one, `FlashcardAdmin.CreateValid` keeps a default topic
or a level it created before a later step fails, and `ImportWords.Import`
keeps the default topic and the level it created when the transaction of
inserts is rolled back.

## Model

| member | source | states |
|---|---|---|
| Authorize.RequireAdmin | src/middlewares/authorize.js:2-12 | 401 exactly when no admin is attached; the request goes on exactly when the role is the string 'admin'; any other role gets 403 'Admin access required' |
| Authorize.RequireAdminOrModerator | src/middlewares/authorize.js:15-25 | 401 exactly when no admin is attached; the request goes on exactly when the role is 'admin' or 'moderator'; any other role gets 403 'Insufficient permissions' |
| Authorize.AdminOnlyIsStricter | src/middlewares/authorize.js:2-25 | whatever the admin-only check lets through, the admin-or-moderator check does too; a moderator is the only role the second admits and the first refuses; both give 401 for the same requests |
| Security.MatchesAny | src/middlewares/security.js:19-23 | true exactly when some pattern occurs in the text |
| Security.BlockSensitiveFiles | src/middlewares/security.js:6-26 | the request is refused exactly when the lower-cased path contains one of the eight sensitive patterns, and a refusal is 403 'Access denied' |
| Security.GitignoreRedundant | src/middlewares/security.js:7-16 | the '.gitignore' pattern never changes the verdict: dropping it refuses exactly the same paths, because '.git' already matches |
| Security.DatabaseFileRefused | src/middlewares/security.js:8-20 | the match ignores case: an upper-case '.SQLITE' path is refused |
| Security.Recent | src/middlewares/security.js:38-45 | the filtered log keeps exactly the timestamps later than now minus the window |
| Security.RecentKeepsAll | src/middlewares/security.js:45 | when every timestamp is inside the window, the filter keeps the whole log in order |
| Security.RecentDropsAll | src/middlewares/security.js:45 | when no timestamp is inside the window, the filter empties the log |
| Security.Admit | src/middlewares/security.js:44-52 | a request is admitted exactly when fewer than the maximum recent requests remain; an admitted request leaves the recent log plus now, which is at most the maximum long; a refused one leaves the stored log as it was |
| Security.RequestCounts.Limit | src/middlewares/security.js:34-55 | the new per-IP map is the old one with this IP's log replaced by the decision of Admit; 429 'Too many requests' on refusal; other IPs unchanged; the bound on every log is preserved |
| Security.BurstBound | src/middlewares/security.js:34-55 | within one window no more than the maximum number of requests are admitted, counting those already logged |
| Security.WindowReopens | src/middlewares/security.js:45-52 | once every logged request is older than the window, the next request is admitted and the log restarts at now |
| Security.ValidateTokenFormat | src/middlewares/security.js:60-74 | a missing or empty header passes; a header that does not split on spaces into "Bearer" and one token is refused with 400 'Invalid Authorization header format', and one that does but whose token is not JWT-shaped with 400 'Invalid JWT format' |
| Security.BearerShape | src/middlewares/security.js:63-71 | a non-empty header gets the format refusal exactly when it is not "Bearer", one space and a space-free token; with that form, it gets the JWT refusal exactly when the token is not JWT-shaped |
| Security.WellFormedAccepted | src/middlewares/security.js:63-71 | 'Bearer ' followed by three non-empty segments of letters, digits, '_' and '-' joined by dots is accepted |
| Security.AcceptedWellFormed | src/middlewares/security.js:63-71 | conversely, a non-empty accepted header is 'Bearer ' followed by a token of exactly that shape |
| Constants.FindAllowedLevel | src/constants.js:6-13 | a level id matches an allowed level exactly when it is the string of one of the six ids (case-sensitive), and the match returned is that level |
| Constants.FindIn | src/controllers/FlashcardAdminController.js:87 | the same lookup over any level list: found exactly when some entry's id equals the value as a string |
| Constants.OnlyExactIds | src/controllers/FlashcardAdminController.js:87 | the lookup uses strict equality: 'HSK1' and the number 1 match no allowed level |
| LabelTables.Find | src/models/Topic.js:17-20 | the row with the given id is found exactly when the id is in the table, and it is a row of the table with that id |
| LabelTables.FindAt | src/models/Topic.js:17-20 | with distinct ids, looking up a row's id returns that row |
| LabelTables.FindAppended | src/models/Topic.js:7-15 | after inserting a row with a fresh id, the lookup of that id returns the new row and every other lookup is unchanged |
| LabelTables.Relabel | src/models/Topic.js:33-41 | the update keeps the ids and the order, replaces the label of the rows with the given id, and leaves every other row as it was |
| LabelTables.FindRelabel | src/models/Topic.js:33-41 | after the update, the lookup of the id returns the new label if the id existed and nothing otherwise; other lookups are unchanged |
| LabelTables.Remove | src/models/Topic.js:43-46 | the delete keeps exactly the rows whose id differs |
| LabelTables.RemoveIds | src/models/Topic.js:43-46 | after the delete, the ids are the old ids minus the deleted one, still distinct |
| LabelTables.FindRemoved | src/models/Topic.js:43-46 | after the delete, the id is not found and every other lookup is unchanged |
| LabelTables.CountOf | src/models/Topic.js:25-28 | the flashcard count for a label is at most the number of flashcards and is zero exactly when no flashcard refers to it |
| LabelTables.Counted | src/models/Topic.js:24-28 | the left join pairs every row, in table order, with its id, its label and the number of flashcards that refer to it |
| LabelTables.InsertByLabel | src/models/Topic.js:29 | inserting into a label-sorted listing keeps it sorted and adds exactly that entry |
| LabelTables.SortByLabel | src/models/Topic.js:29 | the listing is sorted by label and is a permutation of its input |
| LabelTables.ListingSpec | src/models/Topic.js:22-31 | the listing is sorted by label, has one entry per row, holds exactly the rows with their counts, and repeats no entry |
| TopicModel.GetById | src/models/Topic.js:17-20 | a topic is found exactly when its id is in the table, and the result has that id |
| TopicModel.GetAllSpec | src/models/Topic.js:22-31 | the topic listing is sorted by label, has one entry per topic with its flashcard count, and a count is zero exactly when no flashcard uses the topic |
| TopicModel.Create | src/models/Topic.js:7-15 | a duplicate id fails with the unique-constraint error and changes nothing; otherwise the row is appended and reads back as created; the database stays valid |
| TopicModel.Update | src/models/Topic.js:33-41 | the table becomes the relabelled table; the result is the updated row when the id exists and nothing otherwise; the database stays valid |
| TopicModel.Delete | src/models/Topic.js:43-46 | a topic still used by a flashcard is refused with the foreign-key error and nothing changes; otherwise the row is removed and no longer found |
| TopicModel.CreateThenGet | src/models/Topic.js:7-20 | a topic created with a fresh id is then found with its label |
| TopicModel.UpdateOnlyThat | src/models/Topic.js:33-41 | updating one topic does not change the lookup of any other id |
| TopicModel.DeleteThenGet | src/models/Topic.js:43-46 | a deleted topic is no longer found, and every other topic still is |
| LevelModel.GetById | src/models/Level.js:17-20 | a level is found exactly when its id is in the table, and the result has that id |
| LevelModel.GetAllSpec | src/models/Level.js:22-31 | the level listing is sorted by label, has one entry per level with its flashcard count, and a count is zero exactly when no flashcard uses the level |
| LevelModel.Create | src/models/Level.js:7-15 | a duplicate id fails with the unique-constraint error and changes nothing; otherwise the row is appended and reads back as created |
| LevelModel.Update | src/models/Level.js:33-41 | the table becomes the relabelled table; the result is the updated row when the id exists and nothing otherwise |
| LevelModel.Delete | src/models/Level.js:43-46 | a level still used by a flashcard is refused with the foreign-key error and nothing changes; otherwise the row is removed and no longer found |
| BookmarkModel.GetUserBookmarks | src/models/Bookmark.js:22-27 | a flashcard id is listed exactly when the user has bookmarked it |
| BookmarkModel.OtherUsers | src/models/Bookmark.js:31 | deleting a user's bookmarks keeps exactly the bookmarks of other users |
| BookmarkModel.MarksOf | src/models/Bookmark.js:39-41 | the inserted rows are exactly the user paired with each listed flashcard id |
| BookmarkModel.AddBookmark | src/models/Bookmark.js:7-13 | an existing bookmark is ignored; a new one is added when the user and flashcard exist, and fails with the foreign-key error otherwise, changing nothing; after success the flashcard is among the user's bookmarks |
| BookmarkModel.RemoveBookmark | src/models/Bookmark.js:15-20 | exactly that bookmark is removed and the flashcard is no longer among the user's bookmarks |
| BookmarkModel.Accepted | src/models/Bookmark.js:39-41 | the insert loop stops at the first id whose insert fails: every earlier insert succeeds and, short of the end, the id where it stops fails |
| BookmarkModel.UpdateUserBookmarks | src/models/Bookmark.js:29-43 | a missing or empty list only deletes the user's bookmarks; otherwise the user's bookmarks become exactly the ids inserted before the first failure, other users' are kept, and the result is that failure's error or success |
| BookmarkModel.ReplaceAll | src/models/Bookmark.js:29-43 | with distinct, existing ids every insert succeeds, the user's bookmarks become exactly the list, and any other user's bookmarks are unchanged |
| BookmarkModel.RepeatFails | src/models/Bookmark.js:35-41 | an id listed twice makes the plain insert fail at or before its second occurrence |
| StreakModel.GetByUserId | src/models/Streak.js:7-10 | a streak is found exactly when the user has one, and it is the row stored under the user |
| StreakModel.Initialized | src/models/Streak.js:12-18 | afterwards the user has a streak; a new one starts at 0, 0 and today; an existing one is left alone; other users are unchanged |
| StreakModel.InitializeIdempotent | src/models/Streak.js:12-18 | initialising twice, on any later day, is the same as initialising once |
| StreakModel.InitializeStreak | src/models/Streak.js:12-18 | an existing streak or a known user gives the initialised table; an unknown user without a streak fails with the foreign-key error and changes nothing |
| StreakModel.Updated | src/models/Streak.js:20-28 | an existing streak takes the new current, best and date; a missing one is not created; other users and the set of users with streaks are unchanged |
| StreakModel.UpdateStreak | src/models/Streak.js:20-28 | the streak table becomes the updated table |
| StreakModel.DeleteByUserId | src/models/Streak.js:30-33 | the user's streak is gone and every other user's streak is unchanged |
| BadgeModel.FindBadge | src/models/Badge.js:17-20 | a badge is found exactly when its id is in the table, and the result is a row with that id |
| BadgeModel.GetById | src/models/Badge.js:17-20 | a badge is found exactly when its id is in the table, and the result is a row with that id |
| BadgeModel.GetByIdExact | src/models/Badge.js:17-20 | with distinct ids, looking up a badge's id returns that badge |
| BadgeModel.GetAll | src/models/Badge.js:22-25 | the listing holds exactly the badges, one entry per row, in reverse creation order: position i holds the badge created i-th from last |
| BadgeModel.Create | src/models/Badge.js:7-15 | a null or missing name fails the not-null constraint; a used id fails the unique constraint; both change nothing; otherwise the row, with null icon and description when absent, is appended and reads back |
| BadgeModel.Overwrite | src/models/Badge.js:27-35 | the update keeps ids and order and replaces exactly the row with that id |
| BadgeModel.OverwriteFinds | src/models/Badge.js:27-35 | after the update the badge reads back as written and every other badge is unchanged |
| BadgeModel.Update | src/models/Badge.js:27-35 | an unknown id changes nothing and returns nothing; a null name fails the not-null constraint and changes nothing; otherwise the row is overwritten and returned |
| BadgeModel.RemoveBadge | src/models/Badge.js:37-40 | the delete keeps exactly the badges with another id |
| BadgeModel.RemoveBadgeIds | src/models/Badge.js:37-40 | after the delete, the ids are the old ids minus the deleted one, still distinct |
| BadgeModel.Delete | src/models/Badge.js:37-40 | the badge is removed and, by the cascading foreign key, so is every link of a user to it; the database stays valid |
| BadgeModel.EarnedBy | src/models/Badge.js:46-47 | the badge ids listed for a user are exactly those linked to the user, without repeats |
| BadgeModel.JoinBadges | src/models/Badge.js:45-46 | the join returns only badges with a listed id, and when every id exists one badge per id in the same order |
| BadgeModel.GetUserBadgesOrder | src/models/Badge.js:42-50 | a user's badges are their earned badges, the last one earned first |
| BadgeModel.GetUserBadgesSpec | src/models/Badge.js:42-50 | a badge is listed for a user exactly when the user earned it, and none is listed twice |
| BadgeModel.AddBadgeToUser | src/models/Badge.js:52-58 | an existing link is ignored; a new link is appended when the user and badge exist, and fails with the foreign-key error otherwise, changing nothing |
| BadgeModel.AddedComesFirst | src/models/Badge.js:42-58 | the badge just added comes first in the user's badge list |
| BadgeModel.EarnedAppended | src/models/Badge.js:52-58 | appending a link appends its badge to the user's earned list and to no one else's |
| BadgeModel.RemoveBadgeFromUser | src/models/Badge.js:60-65 | exactly that link is removed and every other link is kept |
| UserModel.GetById | src/models/User.js:17-20 | a user is found exactly when the id is in the table, and the result has that id |
| UserModel.GetByEmail | src/models/User.js:22-25 | a user is found exactly when the email is in the table, and the result has that email |
| UserModel.FindsExactly | src/models/User.js:17-25 | in a valid table, since ids and emails are unique, looking up a user's id or email returns that user |
| UserModel.NewRow | src/models/User.js:7-15 | the row is built exactly when name, email and password are present; a missing name fails first, then a missing email; a missing avatar is null |
| UserModel.Create | src/models/User.js:7-15 | the not-null errors of the new row, then a used email, then a used id fail and change nothing (SQLite checks the later-declared email index first); otherwise the row is appended and reads back by id and by email |
| UserModel.Overwrite | src/models/User.js:42-51 | the update keeps ids and order and replaces exactly the row with that id |
| UserModel.OverwriteValid | src/models/User.js:42-51 | overwriting with an email no other user has keeps the table valid, reads back as written, and leaves every other user unchanged |
| UserModel.Update | src/models/User.js:42-51 | an unknown id changes nothing and returns nothing; a null name or email fails the not-null constraint; an email another user has fails the unique constraint; otherwise name, email and avatar are replaced, the password is kept, and the row is returned |
| UserModel.RemoveUser | src/models/User.js:53-56 | the delete keeps exactly the users with another id |
| UserModel.RemoveUserIds | src/models/User.js:53-56 | after the delete, the ids are the old ids minus the deleted one, still distinct |
| UserModel.RemoveUserEmails | src/models/User.js:53-56 | deleting a user keeps the emails distinct |
| UserModel.Delete | src/models/User.js:53-56 | the user is removed and, by the cascading foreign keys, so are their bookmarks, badge links and streak; nothing of the user remains and the database stays valid |
| UserModel.NoneEarned | src/models/User.js:53-56 | once no link names the user, the user has earned no badge |
| UserModel.GetAll | src/models/User.js:27-40 | the users are the requested page of all users newest first; the total is the number of users and the page count is computed from it; the page and page size are echoed; a page holds at most the page size, and only users |
| UserModel.GetAllSpec | src/models/User.js:27-40 | page k of the listing is the slice of all users newest first from position (k-1) times the size, cut at the end; the page count is not negative; the pages 1 to the page count, put together, are all users newest first; a page past the count is empty; there are no pages exactly when there are no users |
| UserModel.GetUserWithProfile | src/models/User.js:58-86 | there is no profile exactly when the user does not exist |
| UserModel.ProfileSpec | src/models/User.js:58-86 | the profile carries the user's id, name, email and avatar, exactly the badges the user earned, exactly the user's bookmarks, and the stored streak or 0, 0 and a null date when there is none |
| FlashcardModel.FormatRoundTrip | src/models/Flashcard.js:143-170 | the nested card is a lossless view of the row: flattening a formatted row with a 0/1 premium flag gives the row back, and formatting a flattened card gives the card back |
| FlashcardModel.StoredPayloadReadsBack | src/models/Flashcard.js:7-30 | building the row fails exactly when topic, level, hanzi or pinyin is null or missing; otherwise the formatted row carries the id, the premium flag and every payload field as its text or null |
| FlashcardModel.FindRow | src/models/Flashcard.js:32-36 | a row is found exactly when its id is in the table, and it is a row of the table with that id |
| FlashcardModel.FindRowUnique | src/models/Flashcard.js:32-36 | with distinct ids, looking up a row's id returns that row |
| FlashcardModel.GetById | src/models/Flashcard.js:32-39 | nothing is returned exactly when the id is absent; otherwise the result is the formatted row with that id |
| FlashcardModel.Create | src/models/Flashcard.js:7-30 | a not-null failure, then a used id, then a topic or level that does not exist fail and change nothing; otherwise the row is appended and the formatted card is returned and reads back by id |
| FlashcardModel.Replace | src/models/Flashcard.js:112-136 | the update keeps ids and order and replaces exactly the row with that id |
| FlashcardModel.Update | src/models/Flashcard.js:112-136 | an unknown id changes nothing and returns nothing; a not-null failure or a missing topic or level fails and changes nothing; otherwise the row is replaced and its formatted card returned |
| FlashcardModel.ReplaceValid | src/models/Flashcard.js:112-136 | replacing a row with one whose topic and level exist keeps the flashcard table valid |
| FlashcardModel.ReplaceOthers | src/models/Flashcard.js:112-136 | replacing one card does not change the lookup of any other id |
| FlashcardModel.Remove | src/models/Flashcard.js:138-141 | the delete keeps exactly the rows with another id |
| FlashcardModel.RemoveIds | src/models/Flashcard.js:138-141 | after the delete, the ids are the old ids minus the deleted one, still distinct |
| FlashcardModel.Delete | src/models/Flashcard.js:138-141 | the card is removed and, by the cascading foreign key, so is every bookmark of it; the card is no longer found |
| FlashcardModel.DeleteOthers | src/models/Flashcard.js:138-141 | a deleted card is no longer found and every other card still is |
| FlashcardModel.LikeSearchable | src/models/Flashcard.js:62-66 | the LIKE '%kw%' test holds exactly when the column is not null and contains the keyword, ignoring the case of ASCII letters |
| FlashcardModel.MentionsKeyword | src/models/Flashcard.js:62-66 | the keyword condition holds exactly when one of hanzi, pinyin, the two meanings or the phonetic contains the keyword |
| FlashcardModel.HoldsAllAppend | src/models/Flashcard.js:45-71 | adding a condition to the WHERE clause keeps exactly the rows that met the earlier ones and meet the new one |
| FlashcardModel.AppendFilters | src/models/Flashcard.js:45-71 | the conditions built from the query hold of a row exactly when it has the wanted topic and level (when given), an image (when asked), the keyword (when given) and the premium flag (when not null) |
| FlashcardModel.Select | src/models/Flashcard.js:45-76 | the query returns exactly the rows meeting every condition |
| FlashcardModel.Matching | src/models/Flashcard.js:41-110 | the matching rows are exactly the rows the query wants |
| FlashcardModel.SelectMatching | src/models/Flashcard.js:41-110 | the rows selected by the built conditions are the rows the query wants, in table order |
| FlashcardModel.FormatAll | src/models/Flashcard.js:76 | every selected row is formatted, in order |
| FlashcardModel.GetAll | src/models/Flashcard.js:41-110 | the listing is the requested page of the matching cards, newest first, formatted; the total counts all matching cards and the page count is computed from it |
| FlashcardModel.ListingSpec | src/models/Flashcard.js:41-110 | a page holds at most the page size and only wanted cards; the pages 1 to the page count, put together, are all matching cards; there are no pages exactly when no card matches |
| Paging.HexValue | src/controllers/FlashcardAdminController.js:152-153 | a hexadecimal digit's value is below 16 |
| Paging.DigitRun | src/controllers/FlashcardAdminController.js:152-153 | parseInt reads the longest prefix of digits: the run is a prefix of digits, followed by a non-digit or the end |
| Paging.DigitRunAll | src/controllers/FlashcardAdminController.js:152-153 | a string of decimal digits is read whole |
| Paging.RunValueDecimal | src/controllers/FlashcardAdminController.js:152-153 | the value read from decimal digits is their decimal value |
| Paging.UnsignedPartNat | src/controllers/FlashcardAdminController.js:152-153 | parseInt reads back the decimal text of any natural number |
| Paging.ParseIntDecimal | src/controllers/FlashcardAdminController.js:152-153 | parseInt reads back the decimal text of any integer, sign included |
| Paging.PageParam | src/controllers/FlashcardAdminController.js:152 | the page is the parsed integer, or 1 when the text is not a number or is 0; it is never 0 |
| Paging.PageSizeParam | src/controllers/FlashcardAdminController.js:153 | the page size is 20 when the text is not a number or is 0, otherwise the parsed integer capped at 100; it is never 0 and never above 100 |
| Paging.PageSizeCases | src/controllers/FlashcardAdminController.js:153 | sizes 1 to 100 are kept, larger ones become 100, negative ones pass through, and a missing size gives 20 |
| Paging.Window | src/models/Flashcard.js:73-74 | LIMIT and OFFSET give at most the limit rows, and none past the end |
| Paging.WindowSlice | src/models/Flashcard.js:73-74 | with a non-negative offset the window is the slice from the offset, up to the limit, clipped to the end; a negative limit means no limit |
| Paging.WindowSubset | src/models/Flashcard.js:73-74 | the window only holds rows of the input |
| Paging.PageCountSpec | src/models/Flashcard.js:107 | the page count is the ceiling of total over page size: the smallest non-negative n with n pages covering the total; it is 0 exactly when the total is 0 |
| Paging.FirstPagesPrefix | src/models/Flashcard.js:43-74 | the first n pages, put together, are the first n times page size rows |
| Paging.PagesPartition | src/models/Flashcard.js:43-107 | the pages 1 to the page count, put together, are the whole list, and each page holds at most the page size |
| Paging.PastTheEnd | src/models/Flashcard.js:43-107 | a page number past the page count gives an empty page |
| Paging.NegativeSizeUnlimited | src/models/Flashcard.js:43-74 | a negative page size from the query string is not capped: with page 1 or later, the offset is not positive, so SQLite's LIMIT -n returns every row |
| FlashcardAdmin.ToBooleanSpec | src/controllers/FlashcardAdminController.js:11-32 | null or missing gives the default; a boolean is itself; a number is true exactly when non-zero; a string is false exactly when, trimmed and lower-cased, it is 'false', '0', 'no' or empty |
| FlashcardAdmin.Coerce | src/controllers/FlashcardAdminController.js:21-30 | a string whose trimmed lower-case form is 'true', '1' or 'yes' is true, 'false', '0', 'no' or empty is false, and any other string is true unless it is empty |
| FlashcardAdmin.ToBooleanBlank | src/controllers/FlashcardAdminController.js:22-27 | any string made only of whitespace (including the empty string) counts as false, whatever the default |
| FlashcardAdmin.TrimOf | src/controllers/FlashcardAdminController.js:22 | trim removes exactly the leading and trailing whitespace around a word |
| FlashcardAdmin.NormalizeSpec | src/controllers/FlashcardAdminController.js:34-61 | each field is the first truthy of its camelCase and snake_case forms; the topic falls back to the default topic and is always truthy; the premium flag coerces isPremium when present, else is_premium, else false; with an id requested the id is the body's id or the fresh one, otherwise there is none |
| FlashcardAdmin.ValidatePayload | src/controllers/FlashcardAdminController.js:64-68 | nothing is reported exactly when level, hanzi, pinyin and both meanings are truthy; otherwise the report is non-empty and lists exactly the falsy ones |
| FlashcardAdmin.Missing | src/controllers/FlashcardAdminController.js:66 | the filter keeps exactly the listed fields whose value is falsy |
| FlashcardAdmin.ValidateOrder | src/controllers/FlashcardAdminController.js:65-67 | the missing fields are reported in the order levelId, hanzi, pinyin, meaningEn, meaningVi |
| FlashcardAdmin.EnsureTopic | src/controllers/FlashcardAdminController.js:71-83 | the default topic is created when absent; any other topic must already exist, else the error names it and nothing changes; on success the topic exists |
| FlashcardAdmin.EnsureLevel | src/controllers/FlashcardAdminController.js:86-95 | a level id that is not one of the allowed ids is refused with 'Invalid level'; an allowed level is created from its metadata when absent; on success the level exists |
| FlashcardAdmin.Create | src/controllers/FlashcardAdminController.js:98-148 | missing required fields give 400 with their list and change nothing; otherwise the outcome of the topic check, the level check, the upload and the insert, in that order |
| FlashcardAdmin.CreateValid | src/controllers/FlashcardAdminController.js:123-135 | a missing topic gives 400 'Topic not found' and changes nothing; an invalid level gives 400 'Invalid level' after the default topic step; a failed upload gives 400 with the upload's message after both steps; otherwise the new topics and levels are those the steps add, and the insert of the payload with the uploaded URL decides the reply: 400 with the driver's message for a NULL column, a used id or a missing reference, else 201 with the stored card read back |
| FlashcardAdmin.CreateSucceeds | src/controllers/FlashcardAdminController.js:123-135 | create answers 201 exactly when the topic exists or is the default, the level is allowed, the upload did not fail, the row has its NOT NULL columns and its id is new, and then the reply is that row read back |
| FlashcardAdmin.ValidPayloadStores | src/controllers/FlashcardAdminController.js:113-135 | a validated payload with its defaulted topic always yields a row with the NOT NULL columns, with or without an uploaded image, so after validation only the topic, level, upload and id decide the 201 |
| FlashcardAdmin.Insert | src/controllers/FlashcardAdminController.js:133-135 | a NULL in a NOT NULL column, an id in use or a missing topic or level gives 400 with the driver's message and nothing inserted; otherwise 201 with the stored row read back, which keeps the payload's id, image and premium flag |
| FlashcardAdmin.GetAll | src/controllers/FlashcardAdminController.js:151-167 | the page and size are the parsed query values (never 0, size at most 100); the total and the cards are the matching cards for the topic and level filters, newest first, paged; the page count is the total divided by the size, rounded up |
| FlashcardAdmin.MergeSpec | src/controllers/FlashcardAdminController.js:193-227 | each field is the body's value when truthy, else the stored one; the premium flag is kept unless the body sends one; an uploaded image wins; the topic falls back to the default topic, never to the stored one |
| FlashcardAdmin.Update | src/controllers/FlashcardAdminController.js:179-246 | an unknown id gives 404; a failed upload gives 400; otherwise the merged payload is stored and returned, or the SQL error comes back as 400 with nothing changed |
| GenerateWords.MakeItem | scripts/generate_hsk1_words.js:10-21 | every generated item has level id 'HSK1' and carries its five fields unchanged |
| GenerateWords.DigitOf | scripts/generate_hsk1_words.js:290-301 | a character recognised as a digit is the numeral of that digit |
| GenerateWords.DigitOfDigit | scripts/generate_hsk1_words.js:290-301 | each numeral 零 to 九 is recognised as its digit |
| GenerateWords.Below100RoundTrip | scripts/generate_hsk1_words.js:303-310 | below 100 the numeral has one to three characters, reads back as the number, contains no 百, and starts with 零 only for zero |
| GenerateWords.HanziRoundTrip | scripts/generate_hsk1_words.js:303-319 | every number's text, Chinese numeral below 200 and decimal digits from 200 on, reads back as that number |
| GenerateWords.HanziInjective | scripts/generate_hsk1_words.js:303-319 | no two numbers get the same text |
| GenerateWords.HundredTen | scripts/generate_hsk1_words.js:303-342 | 110 is written 一百十 / 'yìbǎi shí' and 115 一百十五 / 'yìbǎi shíwǔ': the tens after 百 are not preceded by 一 |
| GenerateWords.PinyinFollowsHanzi | scripts/generate_hsk1_words.js:303-342 | from 200 on the pinyin is the same decimal text as the hanzi; both start with the word for one hundred exactly for 100 to 199 |
| GenerateWords.PinyinBelow100 | scripts/generate_hsk1_words.js:321-333 | below 100 the pinyin never starts with 'yìbǎi' |
| GenerateWords.BuildNumberItems | scripts/generate_hsk1_words.js:344-355 | the loop produces one item per number from 0 to max, in order, each the item of its number |
| GenerateWords.NumberItemsDistinct | scripts/generate_hsk1_words.js:344-355 | the number items have pairwise distinct hanzi |
| GenerateWords.BuildDaysOfWeek | scripts/generate_hsk1_words.js:357-368 | seven items, Monday to Sunday, whose example sentence is 今天是 followed by the day |
| GenerateWords.BuildMonths | scripts/generate_hsk1_words.js:371-383 | the loop produces the twelve month items, January to December, in order |
| GenerateWords.MonthsDistinct | scripts/generate_hsk1_words.js:371-383 | the twelve months have pairwise distinct hanzi |
| GenerateWords.WordItems | scripts/generate_hsk1_words.js:389-700 | each vocabulary row becomes its item, in order |
| GenerateWords.Dedup | scripts/generate_hsk1_words.js:701-710 | the loop with its seen set keeps the first item of each hanzi, as the first-wins filter does |
| GenerateWords.KeepFirstOrder | scripts/generate_hsk1_words.js:701-710 | the de-duplicated list is a subsequence of the input: order is kept |
| GenerateWords.KeepFirstHanzi | scripts/generate_hsk1_words.js:701-710 | the de-duplicated list has pairwise distinct hanzi and exactly the hanzi of the input not already seen |
| GenerateWords.KeepFirstFirst | scripts/generate_hsk1_words.js:701-710 | every item kept is the first item of the input with its hanzi |
| GenerateWords.BuildAll | scripts/generate_hsk1_words.js:386-711 | the output is the first-wins de-duplication of base words, numbers 0 to 500, days, months and the further words; it keeps their order, holds only HSK1 items that come first for their hanzi, has distinct hanzi and covers every hanzi of the list |
| ImportWords.LevelLabelAgrees | scripts/import_hsk1_words.js:13-17 | for each allowed level, its id in lower or upper case gets the same label the application's level list gives it ('hsk3' and 'HSK3' both give 'HSK 3') |
| ImportWords.EnsureTopicAndLevel | scripts/import_hsk1_words.js:19-34 | the default topic is appended when absent; the level is appended with its derived label when absent; afterwards both exist and nothing else changed |
| ImportWords.PayloadRow | scripts/import_hsk1_words.js:36-55 | the row fails exactly when the level, hanzi or pinyin is null or missing; otherwise it has the given id, the default topic, no premium, the item's hanzi and level, nulls for the media fields, and the example and example meaning only when truthy |
| ImportWords.RunLevel | scripts/import_hsk1_words.js:68 | the run's level is always truthy: the first item's level when truthy, else 'HSK1' |
| ImportWords.ImportOne | scripts/import_hsk1_words.js:80-90 | an item whose hanzi and level already exist is skipped; otherwise the payload is inserted, or the SQL error is returned with nothing inserted |
| ImportWords.Transaction | scripts/import_hsk1_words.js:72-98 | the loop does what the specification of the run says: on the first error the flashcard table is rolled back to its state before the loop and the error returned; otherwise the table holds the inserted rows and the counts are returned |
| ImportWords.Import | scripts/import_hsk1_words.js:57-101 | a list that is not an array fails with 'Invalid JSON: expected an array' and changes nothing; otherwise the default topic and the run's level (labelled from the allowed levels) are each appended only when absent, with the other topic and level rows kept, and the flashcard table and the counts are those of the run, or the table is unchanged and the error message is returned |
| ImportWords.RunCounts | scripts/import_hsk1_words.js:74-91 | a successful run counts every item once, as inserted or skipped, appends one row per insert and keeps the existing rows as they were |
| ImportWords.RunNoDuplicates | scripts/import_hsk1_words.js:76-91 | after a successful run every item's hanzi and level exist, and no inserted row repeats the hanzi and level of an earlier row |
| ImportWords.NewRowMatches | scripts/import_hsk1_words.js:82-89 | a row inserted for an item carries its hanzi and effective level, which no earlier row has |
| ImportWords.ExistsKept | scripts/import_hsk1_words.js:82 | a hanzi and level that exist keep existing as rows are appended |
| CheckDuplicates.Select | scripts/check_duplicates.js:20-24 | a key's group has one entry per occurrence of the key, and each entry is an item listed under that key |
| CheckDuplicates.FirstIndex | scripts/check_duplicates.js:20-23 | the first position of a key: the key is there and not earlier |
| CheckDuplicates.GroupOrder | scripts/check_duplicates.js:15-25 | the Map's keys are distinct, are exactly the keys met, and come in the order of their first occurrence |
| CheckDuplicates.GroupMembers | scripts/check_duplicates.js:15-25 | each key's array holds exactly the items with that key, in list order |
| CheckDuplicates.GroupsPartition | scripts/check_duplicates.js:15-25 | the groups partition the list: their sizes add up to the number of items |
| CheckDuplicates.HanziKeys | scripts/check_duplicates.js:16 | the hanzi grouping key of each item is its hanzi value as it is |
| CheckDuplicates.PinyinText | scripts/check_duplicates.js:17 | a falsy pinyin counts as the empty string, a string pinyin is trimmed, and any other truthy value has no trim, so the script stops |
| CheckDuplicates.KeysOf | scripts/check_duplicates.js:15-18 | keys are produced for the whole list exactly when every item has one, and then one per item in order |
| CheckDuplicates.PairKeyDeterminesHanzi | scripts/check_duplicates.js:16-18 | for string hanzi without a bar, equal pair keys mean equal hanzi and equal trimmed pinyin |
| CheckDuplicates.PairKeysDetermineHanzi | scripts/check_duplicates.js:16-18 | over such a list, items with the same pair key have the same hanzi key |
| CheckDuplicates.PairGroupWithinHanziGroup | scripts/check_duplicates.js:15-28 | over such a list, two items grouped under the same pair key have the same hanzi and sit in the same hanzi group, so every duplicated pair lies within a duplicated hanzi |
| CheckDuplicates.PairKeyNumberCollision | scripts/check_duplicates.js:18 | the pair key is built from text: the string '1' and the number 1 share one pair key, 1, a bar and yi, though their hanzi keys differ |
| CheckDuplicates.PairKeyBarCollision | scripts/check_duplicates.js:18 | a bar inside a field makes distinct pairs collide: hanzi 'a' plus bar plus 'b' with pinyin 'c', and hanzi 'a' with pinyin 'b' plus bar plus 'c', share one key |
| CheckDuplicates.Duplicates | scripts/check_duplicates.js:27-28 | the duplicate groups are exactly the keys whose array has more than one item, without repeats |
| CheckDuplicates.DuplicatesAreRepeatedKeys | scripts/check_duplicates.js:15-28 | a key is reported as duplicated exactly when it occurs more than once in the list |
| CheckDuplicates.Head | scripts/check_duplicates.js:36-47 | at most the first fifty duplicate groups are listed, and all of them when there are no more than fifty |
| CheckDuplicates.More | scripts/check_duplicates.js:40-52 | the 'and N more' line appears exactly when there are more than fifty groups |
| CheckDuplicates.ShownPairOfKey | scripts/check_duplicates.js:48 | splitting a pair key on the bar gives back the hanzi and pinyin when neither holds a bar |
| CheckDuplicates.HanziLines | scripts/check_duplicates.js:36-39 | one line per listed hanzi, with its group size |
| CheckDuplicates.PairLines | scripts/check_duplicates.js:47-50 | one line per listed pair, with the two parts of its key and its group size |
| CheckDuplicates.ReportOf | scripts/check_duplicates.js:27-54 | the report gives the item total and the two duplicate-group counts; it lists at most fifty groups of each kind, in Map order, each of more than one item, and the listed lines plus the remainder make up the count |
| CheckDuplicates.MapPush | scripts/check_duplicates.js:20-24 | adding an item to a key creates the key's array at the end of the Map when it is new, then appends the item |
| CheckDuplicates.Check | scripts/check_duplicates.js:7-55 | the loop's report is the report of the hanzi grouping and the pair grouping of the whole list, or there is none exactly when some pinyin cannot be trimmed |
| JsValues.Or | src/controllers/FlashcardAdminController.js:36-53 | the first operand when it is truthy, else the second; the result is truthy exactly when either is |
| JsValues.ToText | src/models/Flashcard.js:23-27 | an undefined or null value is stored as NULL, any other value as its text, a string as itself |
| JsValues.FromText | src/controllers/FlashcardAdminController.js:215-226 | a stored column read back into a value turns back into the same column when stored again |
| Tables.Database.constructor | src/config/database.js:38-113 | a new database has all tables empty and satisfies every constraint |
| Tables.Filter | src/models/User.js:53-56 | the rows kept by a delete are exactly the rows meeting the condition, and distinct rows stay distinct |
| Tables.NewestFirst | src/models/Badge.js:24 | ORDER BY created_at DESC lists the rows in reverse insertion order |
| Strings.Trim | src/controllers/FlashcardAdminController.js:22 | String.prototype.trim: the result is a slice of the input with only whitespace removed before and after it, and it neither starts nor ends with whitespace |
| Strings.Lower | src/controllers/FlashcardAdminController.js:22 | String.prototype.toLowerCase maps each character on its own and keeps the length |
| Strings.Upper | scripts/import_hsk1_words.js:15 | String.prototype.toUpperCase maps each character on its own and keeps the length |
| Strings.Split | src/middlewares/security.js:63 | String.prototype.split on one character gives at least one part, and no part holds the separator |
| Strings.SplitJoin | src/middlewares/security.js:63 | joining the parts of a split with the separator gives the string back |
| Strings.JoinSplit | src/middlewares/security.js:63 | splitting parts joined with a separator they do not hold gives the parts back |
| Strings.ContainsIffOccurs | src/middlewares/security.js:20 | a pattern matches exactly when it occurs at some position |
| Strings.NatStringRoundTrip | scripts/generate_hsk1_words.js:318 | the decimal text of a natural number reads back as that number |
| Strings.DecimalStringInjective | scripts/generate_hsk1_words.js:318 | distinct integers have distinct decimal texts |
| LabelTables.LabelLeTotal | src/models/Topic.js:29 | any two labels are ordered one way or the other |
| LabelTables.LabelLeTransitive | src/models/Topic.js:29 | the label order is transitive |

## Left out

- I/O is not modelled: reading and writing `data/hsk1_words.json`, the console output of the scripts, the HTTP responses and Express routing. The scripts' results are returned as values (`CheckDuplicates.Report`, the counts of `ImportWords.Import`). `CheckDuplicates.Check` assumes the JSON is an array of objects.
- The clock, random ids and uploads are parameters. This covers `Date.now()` in the rate limiter, `CURRENT_DATE` in streaks, `uuidv4()` in the controller and the import, and the Cloudinary upload in create and update.
- `created_at`, `updated_at` and `earned_at` are not stored. "Newest first" is the reverse of insertion order, which is what these columns give when no two rows share a timestamp.
- The controller's `uploadImage` and `uploadAudio` handlers are not modelled; they need the image service. `CloudinaryService` is not part of this model, and `uploadAudio` calls an `uploadAudio` method that file may not define.
- The controller's `getById` and `delete` handlers are not modelled separately. They only forward to `FlashcardModel.GetById` and `FlashcardModel.Delete`, then answer 404 or success.
- The temporary-file clean-up in the `finally` blocks is not modelled (file system).
- JSON values are undefined, null, booleans, integers and strings. Fractional numbers, objects and arrays inside an item are not modelled. `JsValues.ToText` stores a boolean as 1 or 0 and an integer as its decimal text, which is what a TEXT column holds.
- Bookmarks are a set of (user, flashcard) pairs. Their autoincrement id and insertion order are not kept, because no query orders by them. The profile's badge list carries no order either, because that query has no ORDER BY.
- LIKE in `FlashcardModel` treats the keyword as plain text. A `%` or `_` typed in the keyword is not treated as a wildcard.
- `Strings.Lower` and `Strings.Upper` model only the case mappings that can produce or match the ASCII words compared against: A-Z, the Kelvin sign and the long s. Other characters are kept as they are. Mappings that change the length (such as ß to SS) cannot form any of those words and are not modelled.
- `GenerateWords.BuildAll` takes the literal vocabulary tables (`baseWords` and the further word lists) as parameters instead of spelling out their several hundred rows.
- UserModel.GetAll: requires a non-zero page size. With 0 the page count would be `Infinity` or `NaN`, which is not an integer. Its controller caller never passes 0, because it replaces a zero size by 20.
- FlashcardModel.GetAll: requires a non-zero page size, for the same reason; `FlashcardAdmin.GetAll` always supplies one.
- The database drivers, authentication and JWT signing, backup, seeding and the admin-user model are outside this core.
- The duplicate checker's pair key is plain text concatenation. `CheckDuplicates.PairKeyNumberCollision` and `CheckDuplicates.PairKeyBarCollision` show two groupings that it merges.
