# quotes-app: a verified model of the request handlers

This project models the decision rules of the quotes-app backend, a Go web
service where users post quotes, react to them (like or dislike), comment on
them and like comments. The store is kept in memory, one table per record
type, as the value `Store.Tables` and as the class `Store.Database`. The
database class has one field per table, and the handlers change those fields
in place.

Each handler that changes state is an imperative `method` on a `Database`. Its
postcondition ties the returned HTTP status and the new tables to a pure
`...Effect` function of the old tables. It also keeps the store invariant
`Store.Consistent`, which says:

- a quote's like and dislike counters equal the numbers of its reaction rows of each kind;
- a comment's like counter equals the number of its like rows;
- no (quote, user) or (comment, user) pair has two rows;
- every reaction row and every comment names an existing quote;
- no two users share an e-mail address or a username.

Lemmas about the `...Effect` functions state what each handler promises:

- the three-way reaction state machine, and the like toggle on comments;
- the order of the error checks (bad id, then missing caller, then missing
  row, then a foreign owner, then the body), and that an error changes nothing;
- the partial update of a quote;
- the cascade when a quote is deleted;
- the uniqueness of users across registrations;
- that login gives one answer for an unknown address and for a wrong password;
- the arithmetic and filters of the quote listing.

Path and query parameters are parsed by a model of Go's `strconv.Atoi` on a
64-bit platform: an optional sign, decimal digits, and an int64 range.
Go's 64-bit wrap-around and truncating division are written out where the
listing uses them.

Some parts are not visible to the model, so they are parameters:

- the bcrypt hash and its check: `hash`, which yields nothing when hashing fails, and `matches`;
- the validation library's e-mail check: `isEmail`;
- the database's case folding for `ILIKE`: `fold`;
- the comment's creation time: `now`;
- the order in which the database returns quote rows: `rows`, already sorted.

The caller of a protected route is an `Option<nat>`: nothing means no user was
put in the request context.

Files:

- `wrappers.dfy`, `http.dfy`: `Option` and the response statuses;
- `strconv.dfy`: `Atoi`, `Itoa`, Go's int64 wrap-around and division;
- `models.dfy`: the records, the request bodies and their validation bounds;
- `rows.dfy`: the reaction and like tables as rows, their counts and the lookups;
- `store.dfy`: the tables, the invariant and the `Database` class;
- `quote_reaction.dfy`: like and dislike on quotes;
- `quote_edit.dfy`: create, fetch, update and delete of quotes;
- `comment_like.dfy`: the comment like toggle;
- `comment_edit.dfy`: add, list, update and delete of comments;
- `auth.dfy`: register and login;
- `quote_listing.dfy`: filters and pagination of the quote list.

## Model

| member | source | states |
|---|---|---|
| Strconv.Atoi | backend/handlers/quote_handler.go:244-248 | parsing succeeds exactly for an optional sign followed by one or more decimal digits whose value fits in int64; the value is in range, its magnitude is the value of the digits, and it is negative only after a `-` and never positive after one |
| Strconv.AtoiItoa | backend/handlers/quote_handler.go:244 | every int64 id printed in decimal parses back to itself, so every stored id can be named in a path |
| Strconv.AtoiIgnoringError | backend/handlers/quote_handler.go:51-52 | the value used when the parse error is dropped: the parsed number when parsing succeeds, the nearest int64 bound for an all-digit number out of range, and also for text whose leading digit run already exceeds 2^64-1 (the parser reports the range error before it reaches the non-digit), and 0 for any other text that is not a number |
| Strconv.DigitsThenText | backend/handlers/quote_handler.go:51-52 | a digit run followed by a non-digit reads as the int64 bound of its sign when the run exceeds 2^64-1, and as 0 otherwise |
| Strconv.OverflowComesBeforeSyntaxError | backend/handlers/quote_handler.go:51-52 | "99999999999999999999x" reads as MaxInt64 |
| Strconv.SyntaxErrorWithinUint64 | backend/handlers/quote_handler.go:51-52 | "9999999999999999999x" reads as 0 |
| Strconv.Wrap64 | backend/handlers/quote_handler.go:53 | Go int arithmetic: the result is in int64 range, congruent to the exact value modulo 2^64, and equal to it when it fits |
| Strconv.GoDiv | backend/handlers/quote_handler.go:69 | Go integer division of int64 operands: the quotient's magnitude is abs(a) / abs(b) and it is positive only for operands of equal sign and negative only for operands of opposite sign (truncation toward zero); MinInt64 / -1 wraps to MinInt64; the result is always in range |
| Strconv.GoDivTruncates | backend/handlers/quote_handler.go:69 | the remainder left by the quotient is smaller than the divisor in magnitude and is zero or carries the dividend's sign, which is how Go defines division |
| Strconv.GoDivRoundsTowardZero | backend/handlers/quote_handler.go:69 | -3 / 5 is 0, 7 / -2 is -3, -7 / -2 is 3, and MinInt64 / -1 is MinInt64 |
| Models.Quote.Bump | backend/handlers/quote_handler.go:280-284 | the `++`/`--` on one counter: it moves that counter by the delta and leaves the other counter and every other field unchanged |
| Models.ValidQuoteCreate | backend/models/quote.go:22-26 | the binding of a new quote: a body that passes it also passes the update binding, and has content, author and a category; a body with a category and one-character or full-length (1000 and 100) content and author passes |
| Models.ValidQuoteUpdate | backend/models/quote.go:28-32 | the update binding: a body that leaves both texts out always passes, a text that is sent keeps within 1000 (content) and 100 (author) characters, and texts of exactly those lengths pass |
| Models.ValidCommentContent | backend/models/comment.go:16-18 | comment content binding: empty content and content over 500 characters fail, and content of exactly 1 or exactly 500 characters passes |
| Models.ValidRegister | backend/handlers/auth_handler.go:20-24 | a body that passes the registration binding carries a username of 3 to 50 characters, and its e-mail and password also pass the login binding; a password under 6 characters fails, and a 3-character username with a well-formed e-mail and a 6-character password passes |
| Models.ValidLogin | backend/handlers/auth_handler.go:26-29 | a body that passes the login binding has a well-formed e-mail and a non-empty password; an empty e-mail never passes, and a well-formed e-mail with a one-character password passes |
| Models.OwnedBy | backend/handlers/quote_handler.go:159 | the ownership check passes exactly when the owner is the caller; a quote or comment with no owner passes for nobody |
| Store.CountersNeverNegative | backend/models/quote.go:13-14 | in a store that satisfies the invariant no quote counter and no comment counter is negative, although the handlers decrement them |
| Rows.FindReaction | backend/handlers/quote_handler.go:258-259 | the lookup of a (quote, user) reaction finds the first row of the pair, and finds nothing exactly when the pair has no row |
| Rows.FindReactionIsTheRow | backend/handlers/quote_handler.go:258-259 | when a pair has only one row, the lookup returns that row |
| Rows.AppendReaction | backend/handlers/quote_handler.go:270-277 | inserting a reaction row adds one to the count of its own quote and kind and of its own pair, and changes no other count or row |
| Rows.RemoveReaction | backend/handlers/quote_handler.go:288-290 | deleting a reaction row removes one from its own quote, kind and pair counts and keeps the other pairs' rows in order |
| Rows.ReplaceReaction | backend/handlers/quote_handler.go:299-302 | rewriting a row's kind in place moves one count from the old kind to the new one and changes no pair count and no other row |
| Rows.DropQuoteReactions | backend/models/quote.go:16 | the cascade on the reaction table keeps exactly the reactions on other quotes, and the counts of every other quote unchanged |
| Rows.FindLike | backend/handlers/comment_handler.go:109-110 | the lookup of a (comment, user) like finds the first row of the pair, and finds nothing exactly when there is none |
| Rows.FindLikeIsTheRow | backend/handlers/comment_handler.go:109-110 | when a pair has only one like, the lookup returns that row |
| Rows.AppendLike | backend/handlers/comment_handler.go:120-126 | inserting a like adds one to its comment's count and to its pair's count, and changes nothing else |
| Rows.RemoveLike | backend/handlers/comment_handler.go:130-132 | deleting a like removes one from its comment's and its pair's counts and keeps the other rows in order |
| QuoteReaction.ApplyReaction | backend/handlers/quote_handler.go:262-315 | a reaction changes only the reacted-on quote, and of it only the two counters, whose sum moves by at most one; every other quote, the users, the categories and the comment tables stay as they were |
| QuoteReaction.ReactionEffect | backend/handlers/quote_handler.go:243-327 | a bad id gives BadRequest, then no caller gives Unauthorized, then a missing quote gives NotFound, otherwise OK with the reaction applied; a failure changes no table |
| QuoteReaction.HandleQuoteReaction | backend/handlers/quote_handler.go:243-327 | the handler changes the counters with explicit increments and decrements; its status and new tables are exactly what `ReactionEffect` gives, and it keeps the store invariant |
| QuoteReaction.LikeQuote | backend/handlers/quote_handler.go:234-236 | the like route is the reaction handler with kind like |
| QuoteReaction.DislikeQuote | backend/handlers/quote_handler.go:239-241 | the dislike route is the reaction handler with kind dislike |
| QuoteReaction.ReactionOnAbsent | backend/handlers/quote_handler.go:268-284 | with no reaction yet, one row of the requested kind is appended, only that counter goes up by one, and the pair then has one row |
| QuoteReaction.ReactionRepeated | backend/handlers/quote_handler.go:286-296 | repeating the recorded kind deletes that row, only its counter goes down by one, and the pair then has no row |
| QuoteReaction.ReactionSwitched | backend/handlers/quote_handler.go:298-310 | switching kind rewrites the row in place, adds one to the new kind's counter and takes one from the old kind's, and likes plus dislikes stays the same |
| QuoteReaction.ReactionPreservesConsistency | backend/handlers/quote_handler.go:258-314 | counters equal to the row counts, with at most one row per pair, stay so after any reaction |
| QuoteReaction.ReactionLeavesOthers | backend/handlers/quote_handler.go:258-314 | other quotes, other pairs' rows, and the comment and user tables are untouched, and of the reacted quote only its counters change |
| QuoteReaction.ReactionTwiceFromAbsent | backend/handlers/quote_handler.go:268-296 | from no reaction, the same reaction twice restores every table; only a row id has been used up |
| QuoteReaction.ReactionTwiceRestoresCounters | backend/handlers/quote_handler.go:268-296 | from any consistent state with no row of the other kind, the same reaction twice restores every quote's counters |
| QuoteEdit.CreateQuoteEffect | backend/handlers/quote_handler.go:98-134 | the body is checked before the caller: an invalid body gives BadRequest, then no caller gives Unauthorized, then an unknown category gives BadRequest, otherwise Created with one new quote under the next id; a failure changes nothing |
| QuoteEdit.CreateQuote | backend/handlers/quote_handler.go:98-134 | the handler inserts the row as `CreateQuoteEffect` says and keeps the store invariant |
| QuoteEdit.CreatePreservesConsistency | backend/handlers/quote_handler.go:120-127 | inserting a new quote under a fresh id keeps the store invariant, because no reaction names that id |
| QuoteEdit.CreatedQuoteIsFresh | backend/models/quote.go:5-19 | a created quote has zero likes and zero dislikes, the caller as owner, the requested category, and the body's content and author |
| QuoteEdit.GetQuote | backend/handlers/quote_handler.go:75-95 | a bad id gives BadRequest, an unknown id gives NotFound, otherwise OK with the stored quote |
| QuoteEdit.CreateThenGet | backend/handlers/quote_handler.go:75-134 | a created quote can be fetched by the id it was given, and it is exactly what was stored |
| QuoteEdit.Patched | backend/handlers/quote_handler.go:171-186 | an update touches only content, author and category, and an update that sends none of them leaves the quote as it was |
| QuoteEdit.PatchIdempotent | backend/handlers/quote_handler.go:171-188 | sending the same update twice gives the same quote as sending it once |
| QuoteEdit.UpdateQuoteEffect | backend/handlers/quote_handler.go:137-195 | id, then caller, then existence, then ownership give BadRequest, Unauthorized, NotFound and Forbidden (no owner, or another owner) in that order, all before the body is read; then an invalid body or unknown category gives BadRequest; a failure changes nothing |
| QuoteEdit.UpdateQuote | backend/handlers/quote_handler.go:137-195 | the handler builds the change field by field, gives the status and new tables that `UpdateQuoteEffect` gives, and keeps the store invariant |
| QuoteEdit.UpdatePreservesConsistency | backend/handlers/quote_handler.go:171-191 | a partial update keeps the store invariant |
| QuoteEdit.PartialUpdate | backend/handlers/quote_handler.go:171-188 | empty content, empty author and a zero category leave those fields as they were; a field that is given replaces the stored one; counters, owner, other quotes and other tables do not change |
| QuoteEdit.UpdateThenGet | backend/handlers/quote_handler.go:137-195 | after an update, fetching the quote shows the patched quote |
| QuoteEdit.CommentsWithoutQuote | backend/models/quote.go:15 | the cascade on comments keeps exactly the comments of other quotes, unchanged |
| QuoteEdit.DeleteQuoteEffect | backend/handlers/quote_handler.go:198-231 | the same precedence as update (BadRequest, Unauthorized, NotFound, Forbidden); on OK the quote, its reactions and its comments are gone; a failure changes nothing |
| QuoteEdit.DeleteQuote | backend/handlers/quote_handler.go:198-231 | the handler removes the rows as `DeleteQuoteEffect` says and keeps the store invariant |
| QuoteEdit.DeletePreservesConsistency | backend/models/quote.go:15-16 | deleting a quote with its cascades keeps the store invariant |
| QuoteEdit.DeleteQuoteCascades | backend/models/quote.go:15-16 | after a delete, the reaction rows are exactly the old rows on other quotes, no comment names the quote, and every other quote and its counters are unchanged |
| QuoteEdit.DeleteThenGet | backend/handlers/quote_handler.go:198-231 | a deleted quote is then NotFound |
| CommentLikes.ApplyCommentLike | backend/handlers/comment_handler.go:112-135 | a like changes only the liked comment, and of it only the counter, by exactly one up or down; every other comment, the users, the categories and the quote tables stay as they were |
| CommentLikes.LikeCommentEffect | backend/handlers/comment_handler.go:94-149 | a bad id gives BadRequest, then no caller gives Unauthorized, then a missing comment gives NotFound, otherwise OK with the toggle applied; a failure changes nothing |
| CommentLikes.LikeComment | backend/handlers/comment_handler.go:94-149 | the handler changes the counter with explicit increments and decrements, gives what `LikeCommentEffect` gives, and keeps the store invariant |
| CommentLikes.CommentLikeOnAbsent | backend/handlers/comment_handler.go:118-127 | with no like yet, one row is appended and the counter goes up by one |
| CommentLikes.CommentLikeOnExisting | backend/handlers/comment_handler.go:128-134 | with a like, that row is deleted and the counter goes down by one |
| CommentLikes.CommentLikePreservesConsistency | backend/handlers/comment_handler.go:109-137 | the counter equal to the like rows, with at most one per pair, stays so after the toggle |
| CommentLikes.CommentLikeLeavesOthers | backend/handlers/comment_handler.go:109-137 | other comments, other pairs' likes, quotes, reactions and users are untouched, and of the liked comment only its counter changes |
| CommentLikes.CommentLikeTwiceRestores | backend/handlers/comment_handler.go:118-134 | two likes in a row by the same user restore the comments and the other pairs' likes |
| CommentLikes.LikeMissingComment | backend/handlers/comment_handler.go:113-116 | liking a comment that does not exist gives NotFound and changes nothing |
| CommentEdit.AddCommentEffect | backend/handlers/comment_handler.go:23-64 | a bad id gives BadRequest, then no caller gives Unauthorized, then an invalid body gives BadRequest, then a missing quote gives NotFound; otherwise Created with a comment on that quote, owned by the caller, with no likes; a failure changes nothing |
| CommentEdit.AddComment | backend/handlers/comment_handler.go:23-64 | the handler inserts the comment as `AddCommentEffect` says and keeps the store invariant |
| CommentEdit.AddPreservesConsistency | backend/models/comment.go:5-14 | a new comment with zero likes under a fresh id keeps the store invariant |
| CommentEdit.InsertByTime | backend/handlers/comment_handler.go:84 | inserting a comment into a newest-first list keeps it newest first and adds exactly that comment |
| CommentEdit.CommentsUpTo | backend/handlers/comment_handler.go:81-85 | the listing is newest first |
| CommentEdit.ListedOnce | backend/handlers/comment_handler.go:82-83 | every stored comment of the quote is listed exactly once, and no other comment appears |
| CommentEdit.GetComments | backend/handlers/comment_handler.go:67-91 | a bad id gives BadRequest, an unknown quote gives NotFound with no comments, otherwise OK with a newest-first list |
| CommentEdit.GetCommentsListsTheQuote | backend/handlers/comment_handler.go:74-85 | a comment is listed exactly when it is stored and belongs to the quote, and it is listed at most once |
| CommentEdit.AddThenList | backend/handlers/comment_handler.go:23-91 | a comment just added appears in its quote's listing |
| CommentEdit.UpdateCommentEffect | backend/handlers/comment_handler.go:188-231 | id, then caller, then existence, then ownership give BadRequest, Unauthorized, NotFound and Forbidden in that order, before the body is read; then content outside 1..500 gives BadRequest; a failure changes nothing |
| CommentEdit.UpdateComment | backend/handlers/comment_handler.go:188-231 | the handler assigns the content as `UpdateCommentEffect` says and keeps the store invariant |
| CommentEdit.UpdateCommentChangesOnlyContent | backend/handlers/comment_handler.go:215-224 | an update changes only that comment's content, which is 1..500 characters, and nothing else in the store, so a consistent store stays consistent |
| CommentEdit.DeleteCommentEffect | backend/handlers/comment_handler.go:152-185 | the same precedence as update; on OK only that comment row is removed, and its like rows stay |
| CommentEdit.DeleteComment | backend/handlers/comment_handler.go:152-185 | the handler removes the row as `DeleteCommentEffect` says and keeps the store invariant |
| CommentEdit.DeleteThenList | backend/handlers/comment_handler.go:152-185 | a deleted comment no longer appears in any quote's listing, and the store stays consistent |
| CommentEdit.OwnerlessCommentIsLocked | backend/models/comment.go:9 | a comment without an owner can be neither updated nor deleted by anyone, and the attempts change nothing |
| Auth.FindByEmailOrUsername | backend/handlers/auth_handler.go:41 | the lookup finds a user exactly when some user has the e-mail address or the username |
| Auth.FindByEmail | backend/handlers/auth_handler.go:82 | the lookup finds the first user with the address, and nothing exactly when no user has it |
| Auth.RegisterEffect | backend/handlers/auth_handler.go:32-71 | an invalid body (username 3..50, e-mail present and well formed, password at least 6) gives BadRequest; a user sharing the e-mail or the username gives Conflict; a hashing failure gives InternalServerError; otherwise Created, appending one user with the hashed password; Created exactly when the body is valid, no user shares the e-mail or the username, and hashing succeeds; only Created changes the store |
| Auth.Register | backend/handlers/auth_handler.go:32-71 | the handler appends the user as `RegisterEffect` says and keeps the store invariant |
| Auth.RegisterKeepsUsersUnique | backend/handlers/auth_handler.go:39-59 | no two users share an e-mail address or a username, before and after any registration |
| Auth.RegisterAddsOneUser | backend/handlers/auth_handler.go:46-59 | a successful registration adds exactly one user, with the given username and e-mail and the hash of the password, and keeps the earlier users |
| Auth.Login | backend/handlers/auth_handler.go:74-102 | an invalid body gives BadRequest; otherwise login succeeds exactly when the first user with the address has a hash that matches the password; every other refusal is Unauthorized with "Invalid credentials" |
| Auth.LoginHidesUnknownEmail | backend/handlers/auth_handler.go:81-90 | an unknown address and a wrong password get the very same answer |
| Auth.RegisterThenLogin | backend/handlers/auth_handler.go:32-102 | a user who has just registered logs in with the same address and password and gets the new account |
| QuoteListing.Matches | backend/handlers/quote_handler.go:29-43 | with no filter given every quote matches; a category filter that parses admits only quotes of that category; an author filter admits only quotes whose author contains the text, and a content filter only quotes whose content contains it, ignoring case |
| QuoteListing.FilteredConcat | backend/handlers/quote_handler.go:29-43 | the filters judge each row on its own: filtering a concatenation of rows is the concatenation of the filtered parts, order kept |
| QuoteListing.Filtered | backend/handlers/quote_handler.go:29-43 | a quote is kept exactly when it passes all three filters: a category filter that applies only when the parameter parses, and case-insensitive substring filters on author and content when they are given |
| QuoteListing.UnparsableCategoryIgnored | backend/handlers/quote_handler.go:29-33 | a category parameter that does not parse filters nothing out |
| QuoteListing.Offset | backend/handlers/quote_handler.go:53 | `(page-1)*limit` in int64 arithmetic stays in int64 range, and page 1 starts at offset 0 |
| QuoteListing.PageCount | backend/handlers/quote_handler.go:69 | `(total+limit-1)/limit` in int64 arithmetic stays in range, and with a limit of 1 there is one page per quote |
| QuoteListing.PageParamOfItoa | backend/handlers/quote_handler.go:51 | a `page` parameter holding the decimal text of any int64 is read as that page |
| QuoteListing.Window | backend/handlers/quote_handler.go:58 | with no offset and no limit, every row is kept; a non-negative limit bounds the count; every row shown is a row of the input |
| QuoteListing.GetQuotes | backend/handlers/quote_handler.go:22-72 | a limit of 0 gives InternalServerError; otherwise the reply shows the parsed page and limit and the total of matching quotes, the page count `(total+limit-1)/limit` in int64 arithmetic, every quote shown matches the filters, and there are at most `limit` of them |
| QuoteListing.PageCountIsCeiling | backend/handlers/quote_handler.go:69 | for a positive limit, `(total+limit-1)/limit` is the ceiling of total/limit: 0 for no quotes, otherwise the least page count whose pages hold every quote |
| QuoteListing.PageContents | backend/handlers/quote_handler.go:51-58 | page p (from 1) shows the matching quotes from position (p-1)·limit up to p·limit, cut short at the end |
| QuoteListing.EveryQuoteOnItsPage | backend/handlers/quote_handler.go:51-58 | the i-th matching quote appears on page i/limit+1, at position i mod limit |
| QuoteListing.DefaultsShowFirstTen | backend/handlers/quote_handler.go:51-52 | without page and limit the listing is page 1 with limit 10, showing the first ten matching quotes |
| QuoteListing.UnparsablePageShowsFirstPage | backend/handlers/quote_handler.go:51-58 | a page that is not a number, and whose leading digits stay within 2^64-1, reads as 0; its negative offset is dropped, so the first page is shown, reported as page 0 |
| QuoteListing.NegativeLimitListsAll | backend/handlers/quote_handler.go:52-58 | a negative limit is dropped by the query, so page 1 lists every matching quote |
| QuoteListing.FifteenQuotesTenPerPage | backend/handlers/quote_handler.go:51-69 | 15 matching quotes with limit 10 give 2 pages, and page 2 holds the last 5 |

## Left out

- Database failures: every "Failed to …" InternalServerError path is left out. This includes a lookup error other than "not found", which the handlers treat as an existing row. Each store operation is modelled as succeeding.
- Concurrency: each handler call is one atomic step. The reaction lookup runs outside the transaction, so concurrent calls could race. That is not modelled.
- Token generation after register and login (`config.GenerateToken`) is left out, and so is its InternalServerError, which is sent after the user has already been stored. A successful register is modelled as Created, and a successful login as the signed-in user.
- The bcrypt hash and check, the e-mail format check and `ILIKE` case folding are parameters, not models of those algorithms. `ILIKE` is modelled as a plain substring test, and the `%` and `_` wildcards in a filter value are not interpreted.
- The `sort` and `order` query parameters are left out. The rows are given to `GetQuotes` already in the order the database returns them, and an invalid sort column, which the database would reject, is not modelled.
- `Preload` of related records and the JSON shape of replies are left out. So are `UpdatedAt` and all timestamps except a comment's creation time, which `AddComment` takes as a parameter.
- Two comments with the same creation time may be listed by the database in either order. The model puts the later id first.
- The JSON binding error text is left out: a body that fails to bind is modelled only by its BadRequest status.
- The authentication middleware that sets the caller and the category listing handler are not part of this model. Categories are a fixed set of ids.
- The foreign-key behaviour of comment likes when a comment, or the quote holding it, is deleted: the SQL migrations that create the tables are not part of this model. No cascade is assumed, so like rows of a deleted comment stay. Whether the database would instead refuse the delete is not modelled.
- QuoteListing.Window: a row count above the int64 maximum is not considered.
