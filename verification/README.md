# yamdb core in Dafny

yamdb is a Django REST API for reviews of titles (books, films, music). It has:

- titles sorted into categories and genres;
- users who sign up by email and receive a confirmation code;
- a token endpoint that exchanges that code for a JWT;
- reviews with a 1–10 score, one per title and author;
- comments on reviews;
- a per-title rating, which is the mean score.

This project models the logic that is left once the framework is taken away:

- **the three permission classes** (`Permissions`);
- **the username validator** (`Validators`);
- **the character fields of the serializers** (`Fields`, `Text`): strip, then refuse a blank, too long or NUL-containing value;
- **the relational store** (`Schema`): one table per model, kept in insertion order. `Valid` gathers the unique constraints, foreign keys, score and year bounds and `pub_date` ordering. Deleting a row cascades along every foreign key, except that a title's category is set to null;
- **the view flows**:
  - `Accounts`: idempotent signup, the token exchange, `/users/me/` and the administrators' user management;
  - `Catalog`: categories, genres, titles with their genre links, and the rating;
  - `Feedback`: reviews and comments nested under their title and review.

Each operation is a pure function `Store -> Result<...>`. The one exception is the title POST as the code is written. Its inserts are not wrapped in a transaction, so it returns the store as the database holds it afterwards, next to the response. An error is one of:

- a validation error with its reason;
- not authenticated;
- permission denied;
- not found;
- an integrity error, raised when the database refuses an insert.

Every successful operation is proved to return a store that is still `Valid`.

Inputs the program takes from outside are parameters:

- the freshly drawn confirmation code (a `Uuid` of 32 nibbles);
- Django's email-syntax check (`isEmail`);
- `timezone.now()`, modelled as the store's `clock`, which only moves forward.

Primary keys come from the store's `nextId`.

## Model

| member | source | states |
|---|---|---|
| Permissions.IsAdminPermission | api_yamdb/api/permissions.py:9-13 | allows exactly an authenticated superuser or admin, whatever the method |
| Permissions.IsAdminOrReadOnlyPermission | api_yamdb/api/permissions.py:21-27 | allows exactly a safe method (anonymous included), or an authenticated superuser or admin |
| Permissions.AuthorPermission | api_yamdb/api/permissions.py:35-37 | request level: allows exactly a safe method or any authenticated requester |
| Permissions.AuthorObjectPermission | api_yamdb/api/permissions.py:39-47 | object level: allows exactly a safe method, a superuser, admin or moderator, or the object's author |
| Permissions.AdminAllowsImplyAdminOrReadOnly | api_yamdb/api/permissions.py:9-27 | whatever `IsAdmin` allows, `IsAdminOrReadOnly` allows |
| Permissions.AnonymousNeverWrites | api_yamdb/api/permissions.py:9-47 | no policy allows an anonymous requester an unsafe method |
| Permissions.PlainUserOnOthersObject | api_yamdb/api/permissions.py:35-47 | a plain user on someone else's object may read but not write, while the request-level check lets them through |
| Permissions.ObjectCheckImpliesRequestCheck | api_yamdb/api/permissions.py:35-47 | the object-level check never allows what the request-level check denies |
| Permissions.PoliciesMonotone | api_yamdb/api/permissions.py:9-47 | raising the requester's privilege, keeping authorship, never turns an allow into a deny |
| Users.NewUser | api_yamdb/users/models.py:26-54 | a created row fits the user columns exactly when the given username (length and characters), email (length) and role do, because its names and bio are blank; it is never a superuser |
| Users.ExactlyOneRole | api_yamdb/users/models.py:56-66 | for a valid role exactly one of `is_user`, `is_moderator`, `is_admin` holds |
| Validators.ForbiddenRuns | api_yamdb/users/validators.py:9 | the runs `findall` returns are non-empty, all forbidden, and together are exactly the forbidden characters in order |
| Validators.NoRunsIffAllAllowed | api_yamdb/users/validators.py:9 | `findall` finds nothing exactly when every character is in `[\w.@+-]` |
| Validators.ValidateUsername | api_yamdb/users/validators.py:6-12 | passes exactly when every character is allowed; otherwise fails with the username-characters error |
| Validators.EmptyUsernamePasses | api_yamdb/users/validators.py:9 | the empty string passes |
| Validators.ConcatenationPasses | api_yamdb/users/validators.py:9 | two accepted names concatenated are accepted |
| Validators.SubstringPasses | api_yamdb/users/validators.py:9 | every substring of an accepted name is accepted |
| Fields.CleanChar | api_yamdb/api/serializers.py:37-38 | a character field accepts exactly a value that is non-blank, fits and holds no NUL after stripping; the value it yields is the stripped input |
| Uuids.UuidText | api_yamdb/users/models.py:51-54 | the text of a code is 36 characters with dashes at 8, 13, 18 and 23 |
| Uuids.ParseOfText | api_yamdb/api/serializers.py:53 | parsing the text of a code gives the code back |
| Uuids.TextOfParse | api_yamdb/api/serializers.py:53 | a text that parses to a code is that code's text |
| Uuids.TextMatchIffParse | api_yamdb/api/serializers.py:53 | `code == str(stored)` exactly when the code parses to the stored value |
| Uuids.TextInjective | api_yamdb/api/serializers.py:53 | distinct codes have distinct texts |
| Schema.UsersUnique | api_yamdb/users/models.py:26-36 | in a valid store, two users sharing a username, an email or a key are the same user |
| Schema.SlugsUnique | api_yamdb/reviews/models.py:21-44 | category slugs are unique, and so are genre slugs |
| Schema.PairsUnique | api_yamdb/reviews/models.py:119-172 | at most one link per (genre, title) and at most one review per (title, author) |
| Schema.Cascade | api_yamdb/reviews/models.py:104-196 | deleting rows keeps exactly the links, reviews and comments whose parents all survive, and the store stays valid |
| Schema.RemoveGenre | api_yamdb/reviews/models.py:112-117 | deleting a genre removes only that genre and its links |
| Schema.RemoveTitle | api_yamdb/reviews/models.py:106-186 | deleting a title removes its links and its reviews, and those reviews' comments |
| Schema.RemoveReview | api_yamdb/reviews/models.py:181-186 | deleting a review removes it and exactly its comments; users, titles, links, genres and categories stay |
| Schema.RemoveComment | api_yamdb/reviews/models.py:179-205 | deleting a comment removes only that comment; every other table keeps its rows |
| Schema.RemoveUser | api_yamdb/reviews/models.py:152-196 | deleting a user removes their reviews and their comments, and the comments on their reviews; titles, links, genres and categories stay |
| Schema.RemoveCategory | api_yamdb/reviews/models.py:80-86 | deleting a category keeps every title in place and nulls the category of exactly those that pointed to it |
| Schema.RemoveCategoryKeepsValid | api_yamdb/reviews/models.py:80-86 | the store with the category gone and its titles nulled is valid |
| Schema.AddUser | api_yamdb/users/models.py:26-36 | adding a user with a fresh username and email keeps the store valid |
| Schema.ReplaceUser | api_yamdb/users/models.py:26-36 | replacing a user by one with the same key and no other user's username or email keeps the store valid |
| Schema.AddCategory | api_yamdb/reviews/models.py:15-24 | adding a category with a free, well-formed slug keeps the store valid |
| Schema.AddGenre | api_yamdb/reviews/models.py:35-44 | adding a genre with a free, well-formed slug keeps the store valid |
| Schema.AddTitle | api_yamdb/reviews/models.py:55-86 | adding a title with a year in range and an existing or no category keeps the store valid |
| Schema.AddLink | api_yamdb/reviews/models.py:104-126 | adding a link for a pair not yet linked keeps the store valid |
| Schema.AddReview | api_yamdb/reviews/models.py:132-172 | adding a review for a new (title, author) pair, with a score in range, keeps the store valid and the newest `pub_date` last |
| Schema.ReplaceReview | api_yamdb/reviews/models.py:132-172 | editing a review's text or score in place keeps the store valid |
| Schema.AddComment | api_yamdb/reviews/models.py:179-205 | adding a comment to an existing review keeps the store valid |
| Schema.ReplaceComment | api_yamdb/reviews/models.py:179-205 | editing a comment's text in place keeps the store valid |
| Catalog.CleanSlug | api_yamdb/reviews/models.py:21-24 | a slug is accepted exactly when its stripped form matches `validate_slug` within 50 characters |
| Catalog.CreateCategory | api_yamdb/api/views.py:113-116 | succeeds exactly for an administrator with an acceptable name and a free valid slug; a missing name or slug is a required-field error; appends one category and changes nothing else but the key counter |
| Catalog.DeleteCategory | api_yamdb/reviews/models.py:80-86 | a non-administrator is refused before the lookup (not authenticated when anonymous, permission denied otherwise); deleting by slug: not found when no category has it; otherwise the titles stay, in place, with their category nulled exactly when it was the deleted one, and every other table is unchanged |
| Catalog.CategorySlugIdentifies | api_yamdb/reviews/models.py:21-24 | within a valid store a category's slug and key pick out the same row |
| Catalog.CreateGenre | api_yamdb/api/views.py:119-122 | succeeds exactly for an administrator with an acceptable name and a free valid slug; a missing name or slug is a required-field error; appends one genre and changes nothing else but the key counter |
| Catalog.DeleteGenre | api_yamdb/reviews/models.py:112-117 | a non-administrator is refused before the lookup (not authenticated when anonymous, permission denied otherwise); deleting by slug: not found when no genre has it, otherwise removes that genre and only its links; users, categories, titles, reviews and comments stay |
| Catalog.GenreSlugIdentifies | api_yamdb/reviews/models.py:41-44 | within a valid store a genre's slug and key pick out the same row |
| Catalog.ResolveGenres | api_yamdb/api/serializers.py:92-94 | a slug list resolves exactly when every slug names a genre, position by position; else an unknown-slug error |
| Catalog.Dedup | api_yamdb/api/serializers.py:105-106 | drops repeats and keeps every element; a list without repeats is returned as it is |
| Catalog.FirstClash | api_yamdb/api/serializers.py:105-106 | the number of inserts a loop gets through: those before it are distinct and new, and the one it stops at repeats an earlier one or one already present; it is the whole list exactly when there are no repeats and nothing is present |
| Catalog.InsertLinks | api_yamdb/api/serializers.py:105-106 | one committed insert per key: succeeds exactly when the keys are distinct and none is linked yet; otherwise an integrity error. Either way the links made before the first clash stay, exactly one per key before it, other titles' links unchanged |
| Catalog.CheckYear | api_yamdb/reviews/models.py:61-71 | a year passes exactly when it lies in [868, 2026], with the bound it breaks named |
| Catalog.ValidateTitle | api_yamdb/api/serializers.py:87-98 | title fields are accepted exactly when name, year, description, category slug and every genre slug are; the category and genres are resolved to their keys |
| Catalog.NewTitle | api_yamdb/api/serializers.py:103 | the new title is appended with a fresh key and no genre links, and the store stays valid |
| Catalog.AdmitTitle | api_yamdb/api/serializers.py:87-98 | a title POST passes the permission check and validation exactly when the requester is an administrator and the fields are acceptable; others get 401 or 403 |
| Catalog.CreateTitleAsWritten | api_yamdb/api/serializers.py:100-108 | as written: succeeds exactly when the request is acceptable and no genre slug repeats; an acceptable request with a repeat is an integrity error. A refused request writes nothing. An acceptable one always leaves the new title (stripped name and description, year, named category) with one link per slug before the first repeated slug, and no other row changes |
| Catalog.WriteTitleAsWritten | api_yamdb/api/serializers.py:102-106 | the title is appended with a fresh key, then the links before the first repeated key; the response is the title exactly when no key repeats |
| Catalog.NamedBeforeClash | api_yamdb/api/serializers.py:92-106 | the resolved keys first repeat where the slugs first repeat, and the keys before that are those of the genres named before it |
| Catalog.ResolvedDistinctIff | api_yamdb/api/serializers.py:92-106 | resolved genre keys repeat exactly when the slugs repeat, and first at the same place |
| Catalog.AsWrittenAgreesWhenDistinct | api_yamdb/api/serializers.py:100-108 | when no genre slug repeats, the code as written and the corrected creation give the same response and the same store |
| Catalog.LinkOnce | api_yamdb/api/serializers.py:105-106 | linking a fresh title once per distinct genre links it to exactly the given genres and leaves other titles' links alone; on a list without repeats it is the loop as written |
| Catalog.CreateTitle | api_yamdb/api/serializers.py:100-108 | succeeds exactly for an administrator with acceptable fields; the title carries the stripped name and description, the year and the named category, and is linked to exactly the genres the slugs name; nothing else changes |
| Catalog.ResolvedGenresAreNamed | api_yamdb/api/serializers.py:92-94 | the keys a slug list resolves to are the keys of the genres whose slugs it names |
| Catalog.RepeatedGenreSlugRejected | api_yamdb/api/serializers.py:103-106 | an administrator posting a title with genres ["drama", "drama"] gets an integrity error from the code as written, while the title stays in the store linked to "drama" once |
| Catalog.RepeatedGenreSlugLinkedOnce | api_yamdb/api/serializers.py:105-106 | the same request to the corrected operation succeeds and links the title to that genre once |
| Catalog.DeleteTitle | api_yamdb/reviews/models.py:106-139 | a non-administrator is refused before the lookup (not authenticated when anonymous, permission denied otherwise); an administrator deleting an existing title removes it, its links, its reviews and their comments; users, genres and categories stay |
| Catalog.StoredScoresInRange | api_yamdb/reviews/models.py:144-151 | every stored score lies in [1, 10] |
| Catalog.Mean | api_yamdb/api/serializers.py:115 | the integer mean of scores in [1, 10] lies in [1, 10] and is the truncated mean |
| Catalog.Rating | api_yamdb/api/views.py:127-128 | null exactly when the title has no reviews; otherwise the truncated mean of its scores, in [1, 10] |
| Catalog.ReadTitle | api_yamdb/api/serializers.py:111-122 | reading a title: not found exactly when no title has the key; otherwise its category row, exactly its linked genres, and its rating. The genres are a set, not the list in `Genre`'s ordering that the serializer returns |
| Catalog.TitleSerializerFor | api_yamdb/api/views.py:135-138 | GET, HEAD and OPTIONS get the nested read serializer; POST, PUT, PATCH and DELETE get the slug-based write serializer |
| Catalog.WriteSerializerOnlyForAdministrators | api_yamdb/api/views.py:129-138 | whenever the write serializer is reached past `IsAdminOrReadOnly`, the requester is an administrator |
| Feedback.CheckScore | api_yamdb/api/serializers.py:141-146 | a score passes exactly when it lies in [1, 10], both bounds inclusive, with the bound it breaks named |
| Feedback.PostReview | api_yamdb/api/views.py:146-155 | needs a login; a missing text or score is a required-field error; a second review by the same author on the title is refused, a missing title is not found; the review is bound to the requester and the URL's title and is the newest; only the reviews, the key counter and the clock change |
| Feedback.LocateReview | api_yamdb/api/views.py:146-159 | finds the review only among the URL title's reviews; not found when either is missing |
| Feedback.ReadReview | api_yamdb/api/views.py:157-159 | a review is read exactly when it belongs to the URL's existing title |
| Feedback.UpdateReview | api_yamdb/api/serializers.py:152-161 | editing skips the one-review check; succeeds exactly for the author, a moderator or an admin with valid fields (PUT needs both); key, title, author and date never change |
| Feedback.DeleteReview | api_yamdb/reviews/models.py:181-186 | deleting a review allowed to the requester removes it and exactly its comments, and no row of another table; someone else's review is permission denied to a plain user |
| Feedback.ListReviews | api_yamdb/api/views.py:157-159 | a title's listing holds exactly that title's reviews, oldest first, one per author; a missing title is not found |
| Feedback.PostComment | api_yamdb/api/views.py:167-176 | needs a login; a missing text is a required-field error; a missing review is not found; the comment is bound to the requester and the URL's review and is the newest; only the comments, the key counter and the clock change |
| Feedback.CommentIgnoresTitle | api_yamdb/api/views.py:167-171 | the title in the URL plays no part in creating a comment, even one naming no title |
| Feedback.LocateComment | api_yamdb/api/views.py:167-180 | finds the comment only among the URL review's comments; not found otherwise |
| Feedback.UpdateComment | api_yamdb/api/views.py:162-180 | editing a comment succeeds exactly for the author, a moderator or an admin with valid text; key, review, author and date never change |
| Feedback.DeleteComment | api_yamdb/api/views.py:162-180 | deleting a comment allowed to the requester removes exactly that comment and no other row; someone else's comment is permission denied to a plain user |
| Feedback.ListComments | api_yamdb/api/views.py:178-180 | a review's listing holds exactly that review's comments, newest first; a missing review is not found |
| Feedback.ReversedNewestFirst | api_yamdb/reviews/models.py:203 | comments stored oldest first read newest first when reversed |
| Accounts.CleanUsername | api_yamdb/users/models.py:31-36 | a username is accepted exactly when stripped it is non-blank, at most 150 characters, passes the validator and is free |
| Accounts.CleanEmail | api_yamdb/users/models.py:26-30 | an email is accepted exactly when stripped it is non-blank, at most 254 characters, an address and free |
| Accounts.ApplyFields | api_yamdb/api/serializers.py:58-70 | a partial update is accepted exactly when every submitted field is; submitted fields change, key, code and superuser flag stay |
| Accounts.AppliedUserFits | api_yamdb/users/models.py:26-50 | a user updated with accepted fields fits the columns and clashes with no other user |
| Accounts.SignUp | api_yamdb/api/views.py:33-51 | an exactly registered (email, username) pair gets its stored user with nothing changed; any other request goes through the serializer; the reply echoes the request |
| Accounts.Register | api_yamdb/api/views.py:41-43 | adds exactly one user, with the default role and the drawn code, exactly when the serializer accepts |
| Accounts.SignupFields | api_yamdb/api/serializers.py:19-29 | both fields valid and then: username "me" refused, username equal to email refused, otherwise the cleaned pair is returned |
| Accounts.SignUpIdempotent | api_yamdb/api/views.py:38-39 | signing up twice with the same unpadded pair leaves the store as after the first and returns the same user |
| Accounts.PaddedSignUpNotRepeatable | api_yamdb/api/views.py:35-43 | an acceptable signup whose username has surrounding spaces succeeds, but the name is stored stripped, so repeating the same request is refused |
| Accounts.SignUpStripped | api_yamdb/api/views.py:33-51 | with the lookup made on stripped values: a recognised pair gets its stored user with nothing changed, whose email and username are the stripped request values; any other request goes through the serializer |
| Accounts.StrippedSignUpIdempotent | api_yamdb/api/views.py:38-39 | with the stripped lookup, signing up twice with any accepted pair leaves the store as after the first and returns the same user |
| Accounts.StrippedAgreesWhenUnpadded | api_yamdb/api/views.py:35-43 | on fields without surrounding whitespace the stripped lookup and the code as written give the same answer |
| Accounts.ObtainToken | api_yamdb/api/serializers.py:49-55 | succeeds exactly when both fields are given, the user exists and the code is the text of the stored code; a missing user is not found, a wrong code a validation error |
| Accounts.MailedCodeObtainsToken | api_yamdb/api/serializers.py:49-55 | every stored user obtains a token with their username and the text of their code |
| Accounts.SignUpThenToken | api_yamdb/api/views.py:33-72 | after any successful signup the mailed code obtains a token for the user signed up |
| Accounts.Me | api_yamdb/api/views.py:97-110 | GET returns the requester; PATCH validates every field, email and role included, then changes only username, names and bio, keeping email, role and code |
| Accounts.CreateUser | api_yamdb/api/views.py:75-87 | an administrator creates a user with the given username and email, the given role or the default one, the submitted names and bio (blank when omitted), and the drawn code; a non-administrator is refused |
| Accounts.UpdateUser | api_yamdb/api/views.py:75-87 | an administrator edits a user found by username: submitted fields change, role, names and bio included; key, code and superuser flag stay; no other user and no other table changes |
| Accounts.DeleteUser | api_yamdb/api/views.py:75-87 | a non-administrator is refused before the lookup (not authenticated when anonymous, permission denied otherwise); an administrator deleting a user by username removes that user, their reviews and their comments; titles, links, genres and categories stay |
| Accounts.UsernameIdentifies | api_yamdb/users/models.py:31-36 | within a valid store a username and a key pick out the same user |

## Left out

- Sending the confirmation mail and minting the JWT (`send_mail`, `AccessToken.for_user`) are foreign calls. Signup returns the user whose code would be mailed; the token exchange returns the user the token would be minted for.
- Drawing the UUID and reading the clock are inputs. The code is a parameter and `pub_date` is the store's `clock` counter.
- `CURRENT_YEAR` is the constant 2026. The source reads it from the clock once, when the module loads. `FIRST_BOOK_YEAR` is 868, as the model's validator message says; the settings file is not part of this model.
- Validators.ValidateUsername, Validators.ForbiddenRuns and Validators.NoRunsIffAllAllowed: `\w` is taken as ASCII letters, digits and underscore, while Python's `re` also counts Unicode letters and digits. The model therefore refuses some non-ASCII usernames that the source accepts.
- Accounts.CleanEmail: Django's email-syntax validator is foreign code and is the parameter `isEmail`.
- Fields.CleanChar: DRF reports every failing field at once. The model reports the first error found, in field order.
- Feedback.CheckScore: the conversion of the submitted value to an integer is not modelled. Scores and years arrive as integers.
- Accounts.SignUpIdempotent: proved only for pairs without surrounding whitespace, because the code as written is not idempotent for padded ones (see Findings). Accounts.StrippedSignUpIdempotent proves it for every pair under the corrected lookup.
- Catalog.ValidateTitle, Catalog.CreateTitle and Catalog.CreateTitleAsWritten take name, year, genre and category as present. The serializer's "required" errors for them are not modelled; description is optional and is modelled as such.
- Catalog.ReadTitle: returns the genres as a set. The serializer returns them as a list in `Genre`'s ordering by slug, and the model does not state that order.
- Catalog.CreateTitle: only creation is modelled. A title's PUT and PATCH are DRF's generic update and are left out.
- Listing categories, genres, titles and users, and retrieving a user by username, are left out. They are DRF's generic list and retrieve, with ordering by slug or key, search, filters (`api/filters.py`) and pagination.
- The CSV import command, the admin registrations and URL routing (`api/urls.py`, `api/mixins.py`) are configuration or file I/O.
- Accounts.UpdateUser and Accounts.DeleteUser find a user by any stored username. Two kinds of name never reach the by-username route. The router's lookup pattern `[^/.]+` cannot route a username holding `.`, which the validator allows, so the source answers 404 for it. The `me` action is routed before `users/{username}/`, and the administrators' serializer lets a user be named `me`. For that name, PATCH edits the requesting administrator with email and role pinned, and DELETE answers 405 (method not allowed). The model finds the stored user in both cases.
- Primary keys: the model draws every table's keys from one shared `nextId` counter, while the database numbers each table on its own. Only freshness of keys is modelled, not their values.
- HTTP status codes are reduced to the error kinds above.
- Concurrent requests are not modelled. The store changes one request at a time, so the check-then-create races of signup and of the one-review check do not arise.
- The rating: Django averages in floating point and `IntegerField` truncates. For scores in [1, 10] that is the integer quotient, which the model uses instead.

## Findings

| source | as written | input that shows it | evidently intended | confidence | as-written member | corrected member |
|---|---|---|---|---|---|---|
| api_yamdb/api/serializers.py:105-106 | one `GenreTitle` row is created per submitted genre slug, so a slug given twice inserts the same (genre, title) pair twice and the unique constraint `unique_genre_title` raises an integrity error; with no transaction, the title and the links made before it stay | an administrator posts a valid title with `genre: ["drama", "drama"]` | the title is linked to each named genre once (or the repeat is refused as a validation error) | not executed | Catalog.CreateTitleAsWritten, Catalog.RepeatedGenreSlugRejected | Catalog.CreateTitle, Catalog.RepeatedGenreSlugLinkedOnce |
| api_yamdb/api/views.py:35-38 | the registered-pair lookup uses the raw request values, while the serializer stores them stripped, so a signup with a padded username is not recognised when repeated | an acceptable signup with `username: " bob"`, sent twice | a repeated signup with the identical pair returns the same user | not executed | Accounts.SignUp, Accounts.PaddedSignUpNotRepeatable | Accounts.SignUpStripped, Accounts.StrippedSignUpIdempotent |
