# Blog posts: request validation, post handlers and form checks

This is a Dafny model of the core of a small blogging application, which consists of an Express server over a `posts` table and a React client. It covers four pieces:

- **The validation middleware.** `validateRegistration`, `validateLogin` and `validatePost` each build a map from field to error message. Each then either passes the body on unchanged or answers 400 `Validation failed` with every error.
- **The `/api/posts` router.** It covers listing with search and pagination, the same listing restricted to one user, fetching by id, creating, updating and deleting. Update and delete allow only the owner.
- **The create-post page.** This is its `validate()`, which repeats the server's rules with its own messages. It also covers `handleChange` and the guard in `handleSubmit` that sends nothing while there are errors.
- **The registration page.** This is its `validate()`, whose username rule differs from the server's, and the same submit guard.

The table is a sequence of `Post` rows whose ids are unique. A handler is a pure function. It takes the table, the caller as the token middleware classified it, and the request. It returns the response together with the table after the call. The insert clock (`created_at`/`updated_at` defaults) is a parameter `now`. The database's id sequence is modelled as one more than the largest id present.

JavaScript details are modelled explicitly:
- **Falsy fields.** `!field` on a JSON body field means "absent or the empty string". Each field is an `Option<string>`.
- **Whitespace.** `String.prototype.trim` and the regex class `\s` use the same set of whitespace characters.
- **Line terminators.** The regex `.` refuses line terminators only (LF, CR, U+2028, U+2029).
- **Email pattern.** `/^[^\s@]+@[^\s@]+\.[^\s@]+$/` is written as a match at two split positions. A lemma proves it equal to the plain reading: no whitespace, exactly one `@` with text on both sides, and a dot strictly inside the domain.
- **URL pattern.** `/^https?:\/\/.+/` has no end anchor. It accepts any string that starts with the scheme and has one more character that is not a line terminator.
- **Case-insensitive search.** PostgreSQL `ilike '%s%'` becomes an infix test after ASCII lower-casing.

## Model

| member | source | states |
|---|---|---|
| Text.Trim | server/middleware/validation.js:5 | `trim()` removes exactly the whitespace at both ends: the result sits in the input with only whitespace before and after it, and it is empty or starts and ends with a non-space character. It is empty exactly when the input is all whitespace |
| Text.TrimIsUnique | server/middleware/validation.js:5 | only one string is the input minus whitespace padding with non-space ends, so that description fixes `trim()` |
| Text.IsSpace | server/middleware/validation.js:5-9 | among ASCII characters the whitespace of `trim()` and `\s` is the space and TAB through CR, and every line terminator is whitespace |
| Text.TrimStart | server/middleware/validation.js:5 | removes only leading whitespace and leaves a suffix that starts with a non-space character |
| Text.TrimEnd | server/middleware/validation.js:5 | removes only trailing whitespace and leaves a prefix that ends with a non-space character |
| Text.TrimIdempotent | server/routes/posts.js:91-92 | trimming an already trimmed value changes nothing |
| Text.TrimOfTrimmed | server/routes/posts.js:91-92 | a string with non-space ends is its own trim |
| Text.TrimEmpty | server/middleware/validation.js:58 | the empty string trims to itself, so `!content` adds nothing beyond the length test |
| Text.TrimStartPadding | server/middleware/validation.js:5 | leading whitespace before a string that starts with a non-space character is exactly what is dropped at the front |
| Text.TrimEndPadding | server/middleware/validation.js:5 | trailing whitespace after a string that ends with a non-space character is exactly what is dropped at the back |
| Text.TrimPadded | server/middleware/validation.js:5 | `trim()` removes exactly the whitespace padding around a string whose ends are not whitespace |
| Text.Lower | server/routes/posts.js:20 | lower-casing leaves no ASCII capital behind, lowers each capital to its small letter and keeps every other character and the length |
| Text.LowerIdempotent | server/routes/posts.js:20 | lower-casing twice is lower-casing once |
| Text.SearchIgnoresCase | server/routes/posts.js:20 | the case-insensitive test gives the same answer when either text is lower-cased first |
| Text.SearchIsInfix | server/routes/posts.js:20 | the case-insensitive test holds exactly when the lower-cased pattern occurs in the lower-cased text |
| Text.ContainsIsInfix | server/routes/posts.js:20 | the scanning substring test holds exactly when the pattern occurs at some position |
| Text.EmptyContained | server/routes/posts.js:19-21 | the empty pattern occurs in every string |
| Patterns.EmailRegexIsShape | server/middleware/validation.js:9-10 | the email pattern matches exactly the strings with no whitespace, one `@` with text before it, and a dot strictly inside the part after it |
| Patterns.UrlRegexIgnoresTail | server/middleware/validation.js:63-64 | the URL pattern has no end anchor: anything may follow a match |
| Patterns.UrlRegexRejectsLeadingSpace | server/middleware/validation.js:63-64 | the URL pattern is anchored at the start, so it never matches a string that starts with whitespace |
| Patterns.UrlRegexNeedsHost | server/middleware/validation.js:63 | a bare scheme fails; the scheme followed by any one character that is not a line terminator matches |
| Validation.Flag | server/middleware/validation.js:5-7 | recording an error adds exactly that key with that message and keeps every other entry |
| Validation.Flag3 | server/middleware/validation.js:50-67 | three tests on three different fields report each field, with its message, exactly when its own test failed |
| Validation.ValidateRegistration | server/middleware/validation.js:1-16 | username flagged iff absent or its trimmed length is outside 3..30; email iff absent or not of the email shape; password iff absent or shorter than 6; each with its own message and no other key |
| Validation.ValidateLogin | server/middleware/validation.js:28-38 | email and password are flagged iff absent or empty; no format or length test |
| Validation.ValidatePost | server/middleware/validation.js:50-67 | title flagged iff absent or trimmed length outside 5..120; content iff absent or trimmed length under 50; image URL iff present, not blank and not matching the URL pattern; nothing else |
| Validation.Decide | server/middleware/validation.js:18-25 | a body passes on unchanged iff there are no errors; otherwise the answer is 400 `Validation failed` carrying every error |
| Validation.RegistrationGate | server/middleware/validation.js:18-25 | registration goes on with the body untouched iff the validator found nothing; otherwise 400 `Validation failed` with exactly its errors |
| Validation.LoginGate | server/middleware/validation.js:40-47 | login goes on with the body untouched iff the validator found nothing; otherwise 400 `Validation failed` with exactly its errors |
| Validation.PostGate | server/middleware/validation.js:69-76 | a post body goes on untouched iff the validator found nothing; otherwise 400 `Validation failed` with exactly its errors |
| Validation.RegistrationGateIff | server/middleware/validation.js:1-26 | registration passes iff username, email and password all satisfy their rules, and it rejects with exactly the validator's errors |
| Validation.LoginGateIff | server/middleware/validation.js:28-48 | login passes iff both fields are present and non-empty |
| Validation.PostGateIff | server/middleware/validation.js:50-77 | a post body passes iff title, content and image URL satisfy their rules |
| Validation.PaddedImageUrl | server/middleware/validation.js:62-66 | an image URL that starts with whitespace is rejected exactly when it is not all whitespace: the blank test trims it and the pattern does not |
| Validation.ImageUrlEdgeCases | server/middleware/validation.js:62-66 | an all-blank image URL is not checked at all, and a space-prefixed URL is rejected |
| PostStore.Filter | server/routes/posts.js:19-21 | a filter keeps exactly the rows it accepts, each as often as stored |
| PostStore.FilterKeepsAll | server/routes/posts.js:19-21 | a filter that accepts every row is the identity |
| PostStore.FilterUnique | server/routes/posts.js:215-218 | removing rows keeps ids unique |
| PostStore.Find | server/routes/posts.js:53-57 | a lookup by id finds a stored row with that id, and finds nothing iff no row has it |
| PostStore.FindUnique | server/routes/posts.js:126-130 | with unique ids, the lookup finds the one row with that id |
| PostStore.NextId | server/routes/posts.js:87-99 | a new id differs from every id in the table |
| PostStore.AppendUnique | server/routes/posts.js:87-99 | inserting a row with a fresh id keeps ids unique |
| PostStore.ReplaceById | server/routes/posts.js:153-162 | an update by id touches only the rows with that id and keeps the table's length. When the new row keeps the id, the lookup by that id finds the new row, unique ids stay unique, and every row with another id keeps its count |
| PostStore.ReplaceTwice | server/routes/posts.js:153-162 | replacing twice with the same row is replacing once |
| PostStore.RemoveById | server/routes/posts.js:215-218 | exactly the rows with that id are removed; every other row keeps its multiplicity |
| Ordering.Insert | server/routes/posts.js:16 | inserting into a newest-first list keeps it newest first and adds exactly that row |
| Ordering.SortNewestFirst | server/routes/posts.js:16 | `order('created_at', descending)` yields a permutation of its input, newest first |
| Ordering.SortKeepsRows | server/routes/posts.js:16 | sorting neither loses nor invents rows |
| Pagination.Offset | server/routes/posts.js:11 | the offset of page p is exactly p-1 whole pages of `limit` rows, and lies before the end of page p |
| Pagination.Range | server/routes/posts.js:17 | the inclusive `range(from, to)` returns the rows from..to, clipped to the end of the list |
| Pagination.PageOf | server/routes/posts.js:10-17 | page p holds at most `limit` rows, starting at offset (p-1)*limit; it is empty iff that offset is past the end, and otherwise has min(limit, rows left) rows |
| Pagination.CeilDiv | server/routes/posts.js:38 | `Math.ceil(count / limit)` is the least number of pages of size `limit` that hold `count` rows, and is 0 iff `count` is 0 |
| Pagination.PagesArePrefix | server/routes/posts.js:10-17 | pages 1..n together are the first n*limit rows |
| Pagination.PageIsSlice | server/routes/posts.js:11-17 | page p is the slice from its offset to the next page's offset, both clipped to the end of the list |
| Pagination.PagesCoverAll | server/routes/posts.js:10-38 | pages 1..totalPages together are the whole list, in order |
| Pagination.PagesDisjoint | server/routes/posts.js:11 | two different pages of a list without duplicates share no row |
| Pagination.LastPageSize | server/routes/posts.js:11-38 | the last page holds `count % limit` rows, or a full `limit` when that is 0 |
| Pagination.PastLastPageEmpty | server/routes/posts.js:11-38 | a page is empty exactly when it lies beyond totalPages |
| PostRoutes.Authenticate | server/routes/posts.js:82 | the token check runs first: only a caller with a valid identity goes on to the body check and the store, and any other caller is refused |
| PostRoutes.MatchesSearchMeans | server/routes/posts.js:19-21 | a post matches a search iff the lower-cased search text occurs in its lower-cased title or author name |
| PostRoutes.OwnerRows | server/routes/posts.js:247 | the owner filter keeps exactly that user's rows, each as often as stored |
| PostRoutes.EmptySearchKeepsAll | server/routes/posts.js:19-21 | skipping the filter for an empty search is the same as applying it |
| PostRoutes.ListView | server/routes/posts.js:13-21 | the listing order is a newest-first permutation of the matching rows |
| PostRoutes.PageOfListView | server/routes/posts.js:13-23 | every listed page is newest first and holds only stored rows that match |
| PostRoutes.ListViewRows | server/routes/posts.js:13-21 | a listed row is a stored row that matches |
| PostRoutes.RunOfNewestFirst | server/routes/posts.js:16-17 | a slice of a newest-first list is newest first |
| PostRoutes.Paged | server/routes/posts.js:32-40 | the envelope answers 200 with `total` the number of rows and `totalPages` its ceiling over `limit`; the page listed is empty exactly when it lies beyond `totalPages` |
| PostRoutes.ListPosts | server/routes/posts.js:8-40 | a listing changes nothing and answers 200. `page` and `limit` default to 1 and 10. `total` is the number of matching rows and `totalPages` is its ceiling over `limit`. The posts are that page of the matching rows, newest first, at most `limit` of them |
| PostRoutes.ListUserPosts | server/routes/posts.js:238-266 | the same envelope over exactly the rows owned by that user; no token needed |
| PostRoutes.ListingPartitionsMatches | server/routes/posts.js:8-40 | page k of a search is the k-th slice of the matching rows, and pages 1..totalPages together hold every match exactly as often as stored, newest first |
| PostRoutes.GetPost | server/routes/posts.js:49-73 | fetching changes nothing and answers 404 iff no row has that id; otherwise it answers 200 with a stored row of that id |
| PostRoutes.StoredImageUrl | server/routes/posts.js:93 | a falsy image URL is stored as null. Otherwise the stored value is the URL minus its whitespace padding with non-space ends (the trim, unique by Text.TrimIsUnique), and it is empty iff the URL is blank |
| PostRoutes.CreatePost | server/routes/posts.js:82-111 | the token is checked first, then the body. A body with errors answers 400 with those errors. A create succeeds (201) iff both pass. It then appends exactly one row with a fresh id, the trimmed title and content, the caller's own id and name, and the clock's time |
| PostRoutes.UpdatePost | server/routes/posts.js:120-174 | token, then body: an invalid body answers 400 `Validation failed` with exactly the validator's errors. Then 404 iff no row has the id. The answer is 403 "You can only update your own posts" exactly when the caller is authenticated, the body is valid and the row belongs to someone else. Success (200) changes only title, content and image URL of that row and leaves every other row in place; every failure leaves the table as it was |
| PostRoutes.DeletePost | server/routes/posts.js:183-229 | token, then 404 iff no row has the id. The answer is 403 "You can only delete your own posts" exactly when the caller is authenticated and the row belongs to someone else. Success removes exactly the rows with that id; every failure leaves the table as it was |
| PostRouteProperties.CreateIgnoresOwnerFields | server/routes/posts.js:84-95 | `user_id` and `username` in the body have no effect on a create |
| PostRouteProperties.CreateThenGet | server/routes/posts.js:53-73 | a post just created is found by its new id, carrying the creator's identity |
| PostRouteProperties.StoredTextRevalidates | server/routes/posts.js:91-92 | the stored title and content pass validation again |
| PostRouteProperties.StoredImageUrlMayNotRevalidate | server/routes/posts.js:93 | a valid `"http:// "` is stored as `"http://"`, which the validator rejects |
| PostRouteProperties.SampleBodyValid | server/middleware/validation.js:50-67 | a sixteen-character title, sixty characters of content and the image URL `"http:// "` pass validation |
| PostRouteProperties.OthersPostsAreForbidden | server/routes/posts.js:146-151 | deleting someone else's post answers 403. Updating it answers 403 with a valid body and 400 with an invalid one. Neither changes the table |
| PostRouteProperties.DeleteTwiceIsNotFound | server/routes/posts.js:201-206 | after a successful delete the same delete answers 404 and the post cannot be fetched |
| PostRouteProperties.UpdateIdempotent | server/routes/posts.js:153-174 | repeating an update gives the same response and the same table |
| PostRouteProperties.HandlersKeepUniqueIds | server/routes/posts.js:82-229 | create, update and delete all keep ids unique |
| PostRouteProperties.CreateKeepsUniqueIds | server/routes/posts.js:87-99 | a create keeps ids unique |
| PostRouteProperties.UpdateKeepsUniqueIds | server/routes/posts.js:153-162 | an update keeps ids unique |
| PostRouteProperties.DeleteKeepsUniqueIds | server/routes/posts.js:215-218 | a delete keeps ids unique |
| CreatePostPage.ValidateForm | client/src/pages/CreatePost.jsx:23-44 | a title whose trimmed length is under 5 gets the "at least 5" message, one over 120 gets the "must not exceed 120" message. Content and image URL follow the server's rules and messages |
| CreatePostPage.SameKeysAsServer | client/src/pages/CreatePost.jsx:23-44 | the page and the server's `validatePost` flag exactly the same fields for every form |
| CreatePostPage.SetInput | client/src/pages/CreatePost.jsx:17 | the named input takes the value; the others keep theirs |
| CreatePostPage.HandleChange | client/src/pages/CreatePost.jsx:15-21 | only the named input changes. A non-empty error under that name is blanked but its key stays, and all other errors and the loading flag are kept |
| CreatePostPage.HandleSubmit | client/src/pages/CreatePost.jsx:46-59 | nothing is sent iff `validate()` finds an error, and then the errors are shown. Otherwise the form is sent as it stands, with loading on and errors cleared, and the server's validator accepts it |
| RegisterPage.ValidateForm | client/src/pages/Register.jsx:25-41 | username flagged iff shorter than 3 before trimming; email and password by the server's rules and messages |
| RegisterPage.ClientNoStricterThanServer | client/src/pages/Register.jsx:25-41 | every field the page flags, the server flags too; so a body the server accepts the page accepts |
| RegisterPage.EmailAndPasswordAgree | client/src/pages/Register.jsx:32-38 | the email and password rules of the page and the server coincide |
| RegisterPage.ServerRefusesLongName | client/src/pages/Register.jsx:28-30 | a 31-character username passes the page and is refused by the server |
| RegisterPage.ServerRefusesPaddedName | client/src/pages/Register.jsx:28-30 | `"  a  "` passes the page, which counts the spaces, and is refused by the server, which trims |
| RegisterPage.HandleSubmit | client/src/pages/Register.jsx:43-56 | nothing is sent iff `validate()` finds an error, and then the errors are shown; otherwise the form is sent as it stands |

## Left out

- The database client's own failures: the 400 answers for a failed fetch, insert, update or delete, and the 500 catch-all. The model has no failing store.
- The token middleware (`middleware/auth.js`) is not part of this model. The caller is given already classified as no token, invalid token, or an identity.
- PostRoutes.Authenticate: the statuses 401 for a missing token and 403 for an invalid one are assumed, because the middleware's code is not part of this model. The routes file shows only that the token check runs before the body check and the store; the `status in {401, 403}` clauses of CreatePost, UpdatePost and DeletePost rest on this assumption.
- `routes/auth.js`, login and registration handling, JWT signing, password hashing and the rest of the client (routing, rendering, navigation, the API wrapper) are not part of this model.
- Query-string coercion: `page` and `limit` arrive as strings. The model takes them as integers of at least 1, with the defaults 1 and 10. Zero, negative and non-numeric values (NaN offsets, `parseInt` of garbage) are not modelled.
- The `%` and `_` wildcards and the `\` escape character inside a search text, and the quoting of `,` and `.` in the `or(...)` filter, are not modelled: the search text is matched literally. Case folding is ASCII only, not PostgreSQL's locale-aware `ilike`.
- Unicode: a string is a sequence of Unicode scalar values, and each counts 1 towards a length. JavaScript's `length` counts UTF-16 code units, so a character outside the Basic Multilingual Plane counts 2 there. A title of three emoji has length 3 here and 6 in the server, so the two disagree on length limits for such text. Normalisation is not modelled.
- Concurrency: each handler is one atomic step. The read-then-write race in update and delete is not modelled.
- PostRoutes.UpdatePost: `updated_at` is left as it was. A database trigger may refresh it, and no such trigger is part of this model.
- Ties on `created_at` are broken in one fixed order. The database guarantees no particular order among equal timestamps.
- The registration page's `handleChange` is the same code as the create-post page's and is modelled only there. The response handling after a request is sent (navigation, `login`, the `form` error) is not modelled.
- PostRouteProperties.StoredImageUrlMayNotRevalidate states the behaviour of the code as written: the image URL is validated untrimmed and stored trimmed. It is not claimed as a defect.
- PostStore.NextId: the database's id sequence is modelled as one more than the largest id present. A real sequence never hands out an id twice, but the model does reuse the id of a deleted newest row. Only freshness against the current table is promised.
- JSON values other than strings are not modelled: every body field is absent or a string. In the server a number such as `password: 1234567` is truthy with an undefined `length`, so it passes the length test, and a number `title` makes `trim()` throw and answers 500. The model has neither case.
