# api_yamdb in Dafny

A model of the core of **api_yamdb**, a Django REST service where users review
titles (books, films, music), rate them 1 to 10 and comment on reviews. The
model covers:

- the account record, its role enumeration and the `is_admin` / `is_moderator`
  predicates (`Users`);
- the three permission classes and how each viewset combines them, next to an
  independent access policy stated by the actor's standing (`Permissions`);
- the three different `validate_username` functions of the repository, kept
  apart, and `validate_year` (`Usernames`, `UserValidators`, `ApiValidators`,
  `ProjectValidators`);
- the whitespace stripping of the framework's character fields, after Python's
  `str.strip()` (`Text`);
- the serializers' field rules: stripped character fields that refuse blank
  and null characters, the sign-up username pattern and length, the reserved
  name "me", the email limit, role choices, the review score range, the
  duplicate-review check that only runs on POST, read-only fields, and the
  required category of a new title (`Serializers`);
- the relational store with the database's constraints (unique usernames and
  emails, unique slugs, no dangling foreign keys, one review per author and
  title), the score range that the score field's validators enforce, and the
  cascade and set-null deletions (`Catalog`);
- the default orderings of the list endpoints, through a verified insertion
  sort (`Ordering`, `Listings`);
- the request handlers as transitions on the store: sign-up with
  `get_or_create`, token issue, account creation and management by
  administrators, the self-profile, and creating, editing and deleting
  reviews, comments, titles, categories and genres (`Views`).

Every handler answers with a status and the store afterwards. Each proves
that the store still satisfies every constraint. Each refusal (401, 403,
404, 400, 405, 500) leaves the store unchanged.

Collaborators that the code only calls are parameters of the model:

- the email-format check (`looksLikeEmail`);
- the confirmation-code generator and checker (`makeToken`, `checkToken`);
- the access-token factory (`issue`);
- the clock (`currentYear`, and `now` for publication instants).

The mail that sign-up would send is returned as a value.

## Model

| member | source | states |
|---|---|---|
| Users.ParseRole | api_yamdb/user/models.py:14-22 | a submitted string is a role exactly when it is the key of one of the three choices; the parsed role's key is that string |
| Users.ParseRoleKey | api_yamdb/user/models.py:14-22 | each role's stored key parses back to that role |
| Users.MaxKeyLength | api_yamdb/user/models.py:51 | the computed width bounds every key's length and some key attains it |
| Users.RoleFieldLength | api_yamdb/user/models.py:50-56 | the role column is 9 wide (the length of "moderator") and every role value fits |
| Users.NewUser | api_yamdb/user/models.py:50-56 | a fresh account has the default role user and no code; it is neither administrator nor moderator |
| Users.IsAdmin | api_yamdb/user/models.py:63-65 | (definition; characterised by Users.RolePredicatesMatchColumns) staff, role "admin" or superuser |
| Users.IsModerator | api_yamdb/user/models.py:67-69 | (definition; characterised by Users.RolePredicatesMatchColumns) role "moderator" |
| Users.RolePredicatesMatchColumns | api_yamdb/user/models.py:63-69 | `is_admin` holds iff staff, role "admin" or superuser; `is_moderator` holds iff role "moderator" |
| Users.StaffOrSuperuserIsAdmin | api_yamdb/user/models.py:65 | a staff account or superuser is an administrator whatever its role |
| Users.PlainModeratorIsNotAdmin | api_yamdb/user/models.py:63-69 | a moderator with neither flag is a moderator and not an administrator |
| Permissions.AdminOnly | api_yamdb/api/permissions.py:5-7 | (definition; characterised by Permissions.AdminOnlyExactly) an authenticated administrator |
| Permissions.AdminOrReadOnly | api_yamdb/api/permissions.py:10-13 | (definition; characterised by Permissions.SafeMethodsAlwaysGranted and Permissions.UnsafeAdminOrReadOnlyIsAdminOnly) a safe method, or an administrator |
| Permissions.AuthenticatedOrReadOnly | api_yamdb/api/permissions.py:22-24 | (definition; characterised by Permissions.SafeMethodsAlwaysGranted and Permissions.UnsafeNeedsAuthentication) a safe method, or an authenticated actor |
| Permissions.AuthorOrStaffOnObject | api_yamdb/api/permissions.py:26-30 | (definition; characterised by Permissions.UnsafeObjectAccess and Permissions.PlainNonAuthorDenied) a safe method, or an administrator, a moderator or the object's author |
| Permissions.AdminOnlyExactly | api_yamdb/api/permissions.py:5-7 | `IsAdmin` grants exactly an authenticated account that is staff, has role "admin" or is a superuser |
| Permissions.SafeMethodsAlwaysGranted | api_yamdb/api/permissions.py:10-27 | GET, HEAD and OPTIONS are granted by both read-only classes, at request and object level, even to an anonymous actor |
| Permissions.UnsafeAdminOrReadOnlyIsAdminOnly | api_yamdb/api/permissions.py:11-13 | for unsafe methods `IsAdminUserOrReadOnly` answers exactly as `IsAdmin` |
| Permissions.UnsafeNeedsAuthentication | api_yamdb/api/permissions.py:22-24 | for unsafe methods the review/comment request test denies exactly the anonymous actor |
| Permissions.UnsafeObjectAccess | api_yamdb/api/permissions.py:26-30 | for unsafe methods the object test grants exactly administrators, moderators and the object's author |
| Permissions.PlainNonAuthorDenied | api_yamdb/api/permissions.py:26-30 | a plain account passes the request test but is denied changing a review or comment it did not write |
| Permissions.PromoteMonotone | api_yamdb/api/permissions.py:5-30 | giving the actor the admin role never turns a grant of any of the three classes into a denial |
| Permissions.StandingOf | api_yamdb/api/permissions.py:5-7 | the reference standing is Guest exactly for anonymous actors and Administrator exactly when `IsAdmin` grants |
| Permissions.ViewMatchesPolicy | api_yamdb/api/permissions.py:5-24 | the permission classes each endpoint combines grant exactly what the standing-based request policy allows |
| Permissions.ObjectAccessMatchesPolicy | api_yamdb/api/permissions.py:22-30 | the request and object tests together grant exactly what the standing-based object policy allows |
| Permissions.PolicyMonotone | api_yamdb/api/permissions.py:5-30 | both reference policies are monotone in standing |
| Usernames.InvalidCharacters | api_yamdb/user/validators.py:5-6 | the reported set is exactly the name's characters outside a-z, A-Z, 0-9 and `.@+-_` |
| Usernames.NoInvalidCharactersIffAllAllowed | api_yamdb/user/validators.py:5-11 | nothing is reported iff every character of the name is allowed |
| UserValidators.ValidateUsername | api_yamdb/user/validators.py:4-11 | passes iff the name is not "me" and uses allowed characters only; "me" is rejected first; otherwise the error names exactly the offending characters |
| UserValidators.EmptyAccepted | api_yamdb/user/validators.py:5-11 | the empty name passes |
| UserValidators.OnlyExactMeReserved | api_yamdb/user/validators.py:7-8 | "me" is rejected as reserved while "Me" and "me1" pass |
| ApiValidators.ValidateUsername | api_yamdb/api/validators.py:3-6 | passes iff every character is allowed (no reserved word); the error names exactly the offending characters |
| ApiValidators.MeAndEmptyAccepted | api_yamdb/api/validators.py:3-6 | "me" and the empty name both pass |
| ProjectValidators.GreedyPrefix | api_yamdb/api_yamdb/validators.py:10-11 | the length of the longest prefix of characters in the bracket class; the next character is outside it |
| ProjectValidators.PatternMatches | api_yamdb/api_yamdb/validators.py:10-11 | `re.match` with `^[...]+$` succeeds iff the name is non-empty and in the class, or is such a name followed by one "\n" |
| ProjectValidators.ValidateUsername | api_yamdb/api_yamdb/validators.py:6-12 | passes iff the name is not "me" and the pattern matches; "me" is rejected before the pattern |
| ProjectValidators.EmptyRejected | api_yamdb/api_yamdb/validators.py:10-12 | the empty name fails the pattern |
| ProjectValidators.RangeCharacterAccepted | api_yamdb/api_yamdb/validators.py:10 | every character from '+' to '_' is accepted on its own |
| ProjectValidators.ExplicitSetImpliesPattern | api_yamdb/api_yamdb/validators.py:10-12 | every non-empty name other than "me" that the explicit-set validators accept passes here too |
| ProjectValidators.PunctuationAccepted | api_yamdb/api_yamdb/validators.py:10-12 | "a/b", "x<y>", "[x]" and "a,b" pass, although "a/b" has a character outside the allowed set |
| ProjectValidators.TrailingNewlineAccepted | api_yamdb/api_yamdb/validators.py:10-12 | a name the class accepts, followed by "\n", passes |
| ProjectValidators.IntendedValidateUsername | api_yamdb/api_yamdb/validators.py:6-12 | the corrected check passes iff the name is non-empty, not "me" and uses allowed characters only |
| ProjectValidators.IntendedClosesTheGaps | api_yamdb/api_yamdb/validators.py:10-12 | the corrected check rejects "a/b" and "abc\n", which the written one accepts, and accepts nothing the written one rejects |
| ProjectValidators.ValidateYear | api_yamdb/api_yamdb/validators.py:15-20 | passes iff the year is not after the current year; the error carries both years |
| ProjectValidators.YearBoundary | api_yamdb/api_yamdb/validators.py:15-20 | the current year and any earlier year pass (no lower bound); the next year fails |
| Text.IsWhitespace | api_yamdb/api/serializers.py:12-13 | the characters Python's `str.isspace` accepts, which `str.strip()` removes from a character field's value |
| Text.SkipForward | api_yamdb/api/serializers.py:12-13 | the first index from a start point that is not whitespace, with only whitespace before it |
| Text.SkipBackward | api_yamdb/api/serializers.py:12-13 | the start of the whitespace run that ends at a given index |
| Text.Strip | api_yamdb/api/serializers.py:12-13 | the stripped value is empty iff the value is all whitespace, has no whitespace at either end, and leaves an already trimmed value as it is |
| Text.StripIsTheTrimmedMiddle | api_yamdb/api/serializers.py:12-13 | for any split into whitespace, a part without whitespace at its ends, and whitespace, stripping yields that part |
| Text.StripBounds | api_yamdb/api/serializers.py:12-13 | the stripped value is an infix with only whitespace before and after it |
| Text.PaddingIgnored | api_yamdb/api/serializers.py:12-13 | whitespace added around a value does not change its stripped form |
| Text.LeadingPaddingIgnored | api_yamdb/api/serializers.py:12-13 | whitespace added in front does not change the stripped form |
| Text.TrailingPaddingIgnored | api_yamdb/api/serializers.py:12-13 | whitespace added behind does not change the stripped form |
| Serializers.Stripped | api_yamdb/api/serializers.py:12-13 | a sent character field is handed on stripped; an absent one stays absent |
| Serializers.CheckTextField | api_yamdb/api/serializers.py:12-13 | a required character field accepts iff the stripped value is non-empty and holds no null character, and hands on the stripped value; an all-whitespace value is refused as blank |
| Serializers.CheckBlankableField | api_yamdb/user/models.py:46-48 | a blankable character field with no length limit (the biography) accepts iff the stripped value holds no null character, and hands on the stripped value |
| Serializers.CheckLimitedTextField | api_yamdb/reviews/models.py:40-43 | a required character field with a `max_length` accepts iff the stripped value is 1 to the limit characters and holds no null character, keeps the stripped value, and refuses an all-whitespace value as blank |
| Serializers.CheckLimitedBlankableField | api_yamdb/user/models.py:38-45 | a blankable character field with a `max_length` (first and last name, title description) accepts iff the stripped value is within the limit and holds no null character, and hands on the stripped value |
| Serializers.TextFieldIgnoresPadding | api_yamdb/api/serializers.py:12-13 | whitespace around a required text changes neither acceptance nor the value kept |
| Serializers.BlankAndPaddedText | api_yamdb/api/serializers.py:12-13 | "   " is refused as blank and "\t ok " is kept as "ok" |
| Serializers.PaddedWord | api_yamdb/api/serializers.py:12-13 | a word without whitespace at its ends, padded with whitespace, strips back to the word |
| Serializers.WordPatternIsAllowedSet | api_yamdb/api/serializers.py:21-25 | the sign-up character class (with `\w` as ASCII) admits exactly the explicit allowed set |
| Serializers.ValidateUsernameHook | api_yamdb/api/serializers.py:54-59 | rejects exactly "me" and returns any other value unchanged |
| Serializers.CheckUsernameField | api_yamdb/api/serializers.py:21-25 | a sign-up username is accepted iff, once stripped, it is 1 to 150 characters from the class and not "me"; the stripped value is kept; "me" is reported as reserved |
| Serializers.CheckEmailField | api_yamdb/api/serializers.py:27-30 | an email is accepted iff, once stripped, it is 1 to 254 characters, holds no null character and is well formed; the stripped value is kept |
| Serializers.CheckRoleField | api_yamdb/user/models.py:50-56 | a role is accepted iff it is one of the choices, and parses to the role with that key |
| Serializers.CheckNames | api_yamdb/user/models.py:38-48 | a sent first or last name passes iff, once stripped, it is at most `MAX_USER_LENGTH` characters and holds no null character; a sent biography passes iff it holds no null character, with no length limit; all are handed on stripped |
| Serializers.ValidateUserPayload | api_yamdb/api/serializers.py:20-39 | the account payload is valid iff each sent field is; username and email are required unless the update is partial; validated data carry the stripped sent values and the parsed role |
| Serializers.SignUpPayloadRules | api_yamdb/api/serializers.py:21-30 | a full payload is valid iff its stripped username is allowed, at most 150 characters and not "me", its stripped email is at most 254 characters and well formed, and its role is among the choices if one is sent |
| Serializers.SignUpUsernameStripped | api_yamdb/api/serializers.py:21-25 | " bob " signs up as "bob", and "   " is refused as blank |
| Serializers.ValidateAccountUpdate | api_yamdb/api/serializers.py:62-73 | the administrators' serializer accepts a partial payload iff the stripped username passes the model's validator and length, the stripped email is well formed and within its length, the names are within theirs, and the role is a choice; it hands on the stripped values |
| Serializers.CheckModelUsernameField | api_yamdb/user/models.py:24-29 | the model's username field accepts a value iff its stripped form passes the project `validate_username`, is at most `MAX_USER_LENGTH` characters and holds no null character; it keeps the stripped form |
| Serializers.CheckModelEmailField | api_yamdb/user/models.py:30-33 | the model's email field accepts iff the stripped value is 1 to `MAX_EMAIL_LENGTH` characters, holds no null character and is well formed, and keeps the stripped value |
| Serializers.AccountUpdateStripsUsername | api_yamdb/api/serializers.py:62-73 | an administrator's rename to " abc" is accepted and stored as "abc" |
| Serializers.UsernameRulesDiverge | api_yamdb/user/models.py:24-29 | "a/b" is refused at sign-up but accepted by the model's field; "me" is refused by both |
| Serializers.CheckReviewFields | api_yamdb/reviews/models.py:96-108 | review fields are valid iff the stripped text is not blank and holds no null character, and the score is within 1..10; both are required unless the update is partial; the text is kept stripped; author and title are ignored |
| Serializers.ValidateReview | api_yamdb/api/serializers.py:131-138 | fails iff the request is a POST and the author already reviewed the title; otherwise returns its input unchanged |
| Serializers.UpdateSkipsDuplicateCheck | api_yamdb/api/serializers.py:135 | any request other than POST passes the duplicate check, even when a review exists |
| Serializers.CheckCommentFields | api_yamdb/reviews/models.py:138 | the comment text is valid iff its stripped form is not blank and holds no null character; it is required unless the update is partial and kept stripped |
| Serializers.WhitespaceTextRefused | api_yamdb/reviews/models.py:96-138 | a review or comment text of only spaces is refused |
| Serializers.CheckTitleWrite | api_yamdb/api/serializers.py:103-117 | a title payload passes iff name, year, category and genres are sent, the stripped name is 1 to 200 characters, the stripped description at most 255, and neither holds a null character; the title built carries the stripped name and description |
| Catalog.DeleteComment | api_yamdb/reviews/models.py:124-151 | removes exactly that comment |
| Catalog.DeleteReview | api_yamdb/reviews/models.py:132-137 | removes the review and exactly the comments on it; everything else stays |
| Catalog.DeleteTitle | api_yamdb/reviews/models.py:90-95 | removes the title, exactly its reviews and the comments on them; other titles' reviews stay |
| Catalog.DeleteUser | api_yamdb/reviews/models.py:82-137 | removes the account, its reviews, its comments and every comment on its reviews |
| Catalog.DeleteCategory | api_yamdb/reviews/models.py:49-56 | removes the category, keeps every title and clears the category of those filed under it; nothing else changes |
| Catalog.DeleteGenre | api_yamdb/reviews/models.py:63-67 | removes the genre and drops it from every title's genres; every title stays |
| Catalog.DeleteCommentKeepsValid | api_yamdb/reviews/models.py:124-151 | deleting a comment keeps every constraint |
| Catalog.DeleteReviewKeepsValid | api_yamdb/reviews/models.py:132-137 | the review cascade keeps every constraint |
| Catalog.DeleteReviewLeavesNoDangling | api_yamdb/reviews/models.py:132-137 | after the review cascade no comment names a missing review |
| Catalog.DeleteTitleKeepsValid | api_yamdb/reviews/models.py:90-95 | the title cascade keeps every constraint |
| Catalog.DeleteTitleLeavesNoDangling | api_yamdb/reviews/models.py:90-95 | after the title cascade no review names a missing title and no comment a missing review |
| Catalog.DeleteUserLeavesNoDangling | api_yamdb/reviews/models.py:84-89 | after the account cascade no review or comment names a missing row |
| Catalog.DeleteUserKeepsValid | api_yamdb/reviews/models.py:82-137 | the account cascade keeps every constraint |
| Catalog.DeleteCategoryKeepsValid | api_yamdb/reviews/models.py:49-56 | set-null keeps every constraint |
| Catalog.DeleteGenreKeepsValid | api_yamdb/reviews/models.py:63-67 | removing a genre from titles keeps every constraint |
| Catalog.InsertReview | api_yamdb/reviews/models.py:110-115 | the insert fails iff the author or title is missing or the pair already has a review; on success the one new review has a fresh key and, with a score in range, the store is valid |
| Catalog.AddReviewKeepsValid | api_yamdb/reviews/models.py:102-115 | adding a fresh review of a new pair keeps the constraints iff its score is within 1..10 |
| Catalog.NewPairKeepsOneReviewPerPair | api_yamdb/reviews/models.py:110-115 | a review for an (author, title) pair nobody has reviewed keeps the one-review-per-pair constraint |
| Catalog.InsertComment | api_yamdb/reviews/models.py:132-137 | the insert fails iff the author or review is missing; on success one comment is added under a fresh key and the store stays valid |
| Catalog.AddCommentKeepsValid | api_yamdb/reviews/models.py:126-137 | a comment whose references resolve keeps every constraint |
| Catalog.UpdateReview | api_yamdb/reviews/models.py:97-108 | changes only the text and score of that review; author, title and publication date stay |
| Catalog.UpdateReviewKeepsValid | api_yamdb/reviews/models.py:97-115 | an edit whose score is within 1..10 keeps every constraint, the one-review-per-pair constraint included |
| Catalog.UpdateComment | api_yamdb/reviews/models.py:138-143 | changes only the text of that comment |
| Catalog.UpdateCommentKeepsValid | api_yamdb/reviews/models.py:124-143 | editing a comment keeps every constraint |
| Catalog.CheckTitle | api_yamdb/reviews/models.py:39-67 | a title passes iff its name is 1 to 200 characters, its year passes `validate_year`, its description is at most 255 characters and its category and genres exist |
| Catalog.InsertTitle | api_yamdb/reviews/models.py:45-48 | succeeds exactly when the model's field checks pass, `validate_year` among them, and otherwise reports the failing check; on success the title is added under a fresh key, nothing but the titles and the key counter changes, and the store stays valid |
| Catalog.Preview | api_yamdb/reviews/models.py:120-121 | the string form is a prefix of the text of length min(15, length of the text) |
| Catalog.PreviewFacts | api_yamdb/reviews/models.py:150-151 | a text of at most 15 characters is shown whole, and the string form of a string form is itself |
| Ordering.InsertBy | api_yamdb/reviews/models.py:118 | inserting into a sorted list keeps it sorted and adds exactly that row |
| Ordering.ListBy | api_yamdb/reviews/models.py:72 | the listing holds each requested row once and is sorted by the key |
| Ordering.LexLeTotal | api_yamdb/reviews/models.py:36 | any two names compare one way or the other |
| Ordering.LexLeTransitive | api_yamdb/reviews/models.py:36 | name order is transitive |
| Ordering.NameOrderIsTotalPreorder | api_yamdb/reviews/models.py:72 | ascending name order is a valid sort order |
| Ordering.NewestFirstIsTotalPreorder | api_yamdb/reviews/models.py:118 | descending publication order is a valid sort order |
| Listings.ListReviews | api_yamdb/reviews/models.py:118 | a title's reviews, each once, newest first |
| Listings.ListComments | api_yamdb/reviews/models.py:148 | a review's comments, each once, newest first |
| Listings.ListTitles | api_yamdb/reviews/models.py:72 | all titles, each once, by ascending name |
| Listings.ListGenres | api_yamdb/reviews/models.py:36 | all genres, each once, by ascending name |
| Listings.ListUsers | api_yamdb/user/models.py:61 | all accounts, each once, by ascending username |
| Views.FindByUsername | api_yamdb/api/views.py:103 | finds the account holding the username, or reports that none does |
| Views.BuildAccount | api_yamdb/api/views.py:36-37 | a created account matches every given column, has no staff flags or code, and defaults to role user |
| Views.GetOrCreate | api_yamdb/api/views.py:35-42 | fails iff no account matches every given column while the username or email is held; otherwise returns the matching account unchanged or inserts one new account, keeping the store valid |
| Views.OnlyHolderCanMatch | api_yamdb/user/models.py:24-33 | since usernames are unique, some account matches the columns iff the one holding the username does |
| Views.GetFindsMatch | api_yamdb/api/views.py:36-37 | when an account matches every given column, `get_or_create` returns exactly that account and inserts nothing |
| Views.CreateWhenFree | api_yamdb/api/views.py:36-37 | when the username and email are both free, `get_or_create` inserts the built account under the next key |
| Views.AddAccountKeepsValid | api_yamdb/user/models.py:24-33 | an account with a free username and email keeps every constraint |
| Views.StoreCode | api_yamdb/api/views.py:43-45 | storing a code changes only that account's code and keeps the store valid |
| Views.SignUp | api_yamdb/api/views.py:32-54 | 400 leaves the store unchanged and sends no mail; 200 stores on the account of the stripped username the code `default_token_generator` makes from that account as it stood before, and mails it to the stripped email; old accounts change at most in their code; a new account takes the payload's stripped username and email and its role |
| Views.SignUpSucceedsExactly | api_yamdb/api/views.py:33-42 | sign-up answers 200 iff the payload validates and `get_or_create` accepts its columns |
| Views.SignUpOutcome | api_yamdb/api/views.py:36-45 | a valid sign-up that `get_or_create` accepts answers 200, and its store is `get_or_create`'s with the generated code stored on the account found or made |
| Views.InvalidSignUpRefused | api_yamdb/api/views.py:33-34 | username "me", username "a/b" or a blank email gets 400 and changes nothing |
| Views.SignUpConflict | api_yamdb/api/views.py:35-42 | a valid payload whose username or email is held by a non-matching account gets 400, no code and no mail |
| Views.SignUpRepeatable | api_yamdb/api/views.py:36-45 | a sign-up that succeeded, sent again, succeeds again and adds no account |
| Views.RepeatFindsAccount | api_yamdb/api/views.py:36-45 | a valid sign-up whose columns an account already matches gets 200 and adds no account |
| Views.FreshSignUpAddsOneAccount | api_yamdb/api/views.py:36-45 | a valid sign-up whose username and email are both free succeeds and adds exactly one account, under the next key |
| Views.SignUpCanCreateAdmin | api_yamdb/api/views.py:36-37 | a sign-up with role "admin" and a free username and email creates an administrator |
| Views.AdminSignUpValidates | api_yamdb/api/serializers.py:20-39 | the sign-up serializer accepts the administrator payload and parses its role |
| Views.AdminSignUpFields | api_yamdb/api/serializers.py:21-30 | "eve" and "eve@example.com" pass the username and email fields unchanged |
| Views.SignUpIntended | api_yamdb/api/views.py:32-54 | sign-up without the client's role: new accounts are plain users and no account gains or loses administrator rights |
| Views.RequestToken | api_yamdb/api/views.py:99-108 | a missing or blank field is 400; both fields are stripped; 404 iff no account has the username; 200 iff `check_token` accepts the code for that account, and then that account's token is issued |
| Views.RightCodeGetsToken | api_yamdb/api/views.py:103-108 | the code `check_token` accepts for the named account gets 200 and that account's token |
| Views.WrongCodeRefused | api_yamdb/api/views.py:105-106 | a code that `check_token` refuses gets 400 and no token |
| Views.TokenUsernamePaddingIgnored | api_yamdb/api/views.py:100-103 | whitespace around the username does not change the answer |
| Views.AdminCreateUser | api_yamdb/api/views.py:67-78 | non-administrators are refused; for an administrator 201 iff the payload validates and `get_or_create` accepts its columns, and then the store is the one `get_or_create` produced; 201 leaves existing accounts unchanged and sets no code on a new one |
| Views.ApplyUpdate | api_yamdb/api/views.py:84-89 | each sent column replaces the stored one; unsent columns, staff flags and code stay |
| Views.ApplyUpdateLaws | api_yamdb/api/views.py:84-89 | an empty update changes nothing; applying an update twice equals applying it once |
| Views.AboutMe | api_yamdb/api/views.py:80-92 | anonymous gets 401, other methods 405; GET shows the caller's own record and changes nothing; PATCH is 400 iff the partial payload is invalid, otherwise 200 iff no other account holds the resulting username or email and 500 iff one does; on 200 the caller's account becomes the update with the role pinned, flags kept and no other account changed |
| Views.ReplaceAccountKeepsValid | api_yamdb/user/models.py:24-33 | replacing an account with one whose username and email no other account holds keeps every constraint |
| Views.ProfileRoleCannotEscalate | api_yamdb/api/views.py:89 | whatever a self-profile PATCH sends, the stored role stays and a non-administrator stays one |
| Views.ManageAccount | api_yamdb/api/views.py:57-65 | administrators only; unknown username is 404, a known one gets 200 on GET; DELETE cascades the account; PATCH is 200 iff the partial payload passes the model's field rules and no other account holds the resulting username or email, and 400 otherwise; on 200 the update, the role included, is applied to that account and nothing else changes |
| Views.AdminSetsRole | api_yamdb/api/views.py:57-65 | an administrator's PATCH with role "moderator" makes the account a moderator |
| Views.PostReview | api_yamdb/api/views.py:153-171 | anonymous gets 401; invalid fields or a second review of the title by the same author get 400, a missing title 404; 201 iff the caller is authenticated, the fields are valid, the pair is new and the title exists; 201 adds one review whose author is the caller, whose title is the URL's and whose text is the stripped text sent, and changes no other table |
| Views.FirstReviewCreated | api_yamdb/api/views.py:167-171 | a valid first review of an existing title by an authenticated account is created |
| Views.ReviewReadOnlyFieldsIgnored | api_yamdb/api/serializers.py:120-129 | the author and title a client sends do not change the outcome of creating a review |
| Views.PutReview | api_yamdb/api/views.py:153-165 | anonymous gets 401; a review not under the title is 404; a refused object test is 403; once access is granted, 200 iff the fields are valid, never failing the duplicate check; on 200 the stripped text and the score sent replace the stored ones, author, title and publication date stay, and no other review or table changes |
| Views.ReviewEdit | api_yamdb/api/serializers.py:118-138 | once access is granted, 200 iff the fields are valid; a 400 changes nothing; otherwise only that review changes, its sent text and score replace the stored ones and its author, title and date stay |
| Views.ReviewUpdateIgnoresReadOnlyFields | api_yamdb/api/serializers.py:129 | the author and title a client sends do not change the outcome of editing a review |
| Views.DeleteReviewRequest | api_yamdb/api/views.py:153-165 | 204 iff the actor is authenticated, the review is under the title and the object test grants; then the review and its comments are removed; a missing review is 404 before the object test's 403 |
| Views.ModeratorDeletesAnyReview | api_yamdb/api/permissions.py:26-30 | a moderator deletes any review, whoever wrote it |
| Views.PlainNonAuthorCannotDeleteReview | api_yamdb/api/permissions.py:26-30 | an account that is neither staff nor the author gets 403 when it deletes a review |
| Views.PostComment | api_yamdb/api/views.py:174-196 | anonymous gets 401; invalid text is 400, a review not under the title 404; 201 iff the caller is authenticated, the text is valid and the review is under the title; 201 adds one comment by the caller, with the stripped text sent, and changes no other table |
| Views.CommentReadOnlyFieldsIgnored | api_yamdb/api/serializers.py:141-150 | the author and review a client sends do not change the outcome of creating a comment |
| Views.CommentUpdateIgnoresReadOnlyFields | api_yamdb/api/serializers.py:141-150 | nor of editing one |
| Views.PutComment | api_yamdb/api/views.py:174-187 | anonymous gets 401; a comment not under the review and title is 404; a refused object test is 403; once access is granted, 200 iff the fields are valid; on 200 the stripped text replaces the stored one when sent, author, review and date stay, and no other comment or table changes |
| Views.CommentEdit | api_yamdb/api/serializers.py:141-150 | 200 iff the fields are valid; a 400 changes nothing; otherwise only that comment's text changes, to the sent one when given |
| Views.DeleteCommentRequest | api_yamdb/api/views.py:174-187 | anonymous gets 401; 204 iff the actor is authenticated, the comment is found under its review and title, and the object test grants; a missing comment is 404 before the object test's 403 |
| Views.FindCategory | api_yamdb/api/views.py:111-118 | finds the category with the slug, or reports that none has it |
| Views.FindGenre | api_yamdb/api/views.py:121-128 | finds the genre with the slug, or reports that none has it |
| Views.DeleteCategoryRequest | api_yamdb/api/views.py:111-118 | 204 iff an administrator names an existing slug; every title stays |
| Views.DeleteGenreRequest | api_yamdb/api/views.py:121-128 | 204 iff an administrator names an existing slug; every title stays |
| Views.PostTitle | api_yamdb/api/views.py:143-150 | for administrators 201 iff the payload passes the serializer's rules and the model's field checks; no category or a future year never gets 201; the stored title carries the stripped name and description, and no other table changes |
| Views.TitleNeedsCategoryAndName | api_yamdb/api/serializers.py:103-108 | an administrator's title without a category, or with a blank name, gets 400 and changes nothing |
| Views.DeleteTitleRequest | api_yamdb/api/views.py:131-136 | 204 iff an administrator names an existing title; its reviews and their comments go with it |

## Left out

- Sending mail, `AccessToken.for_user` and the token generator's internals are parameters or outputs. Their failures, such as SMTP errors, are not modelled.
- Email format is the parameter `looksLikeEmail`; Django's email regular expression is not modelled.
- `\w` in the sign-up pattern is read as ASCII letters, digits and underscore, not Unicode word characters.
- `timezone.now()` is the parameter `currentYear`; publication instants are the parameter `now`.
- `api_yamdb/settings.py` is not part of this model. Its `MAX_USER_LENGTH` and `MAX_EMAIL_LENGTH` are taken as 150 and 254, the limits the system states for usernames and emails (`Serializers.MaxUserLength`, `Serializers.MaxUserEmailLength`).
- Serializers.ValidateUserPayload: its list of problems is not the exact error body DRF would send; only acceptance and refusal are exact.
- Category and genre slugs are resolved to keys before a title payload is checked; an unknown key is refused by `Catalog.CheckTitle`, as an unknown slug is by the slug field.
- Names are ordered by code point. The database's collation may order names differently.
- DRF's character fields also refuse lone surrogate code points; Dafny's `char` cannot hold one, so that check has nothing to refuse.
- The title's `rating` field is a float and is never aggregated, so it is not modelled.
- Pagination, search, the title filter and the database indexes change which rows a list shows, not the store. They are left out.
- Listing categories has no declared order, so it is left out.
- Category and genre creation, and editing titles, are covered only by their permission (`Permissions.ViewAllows`), not as store transitions.
- `UserCreateSerializer.create` (api_yamdb/api/serializers.py:41-52) is a copy of the view code with the wrong signature, and the framework never calls it.
- `views.py` imports `IsAdminPermission` and `IsAuthorAdminSuperuserOrReadOnlyPermission`, which `permissions.py` does not define. The model uses the classes that are defined: `IsAdmin` and `IsAuthorAdminSuperuserOrReadOnly`.
- `api/mixins.py` holds only viewset configuration. Its only effect is that categories and genres have no detail GET or PATCH.
- `reviews/validators.py`, from which the title model imports `validate_year`, is not part of this model. Titles use the `validate_year` of `api_yamdb/validators.py`.
- Concurrency is not modelled; the race between the duplicate-review check and the insert is out of scope. The unique constraint is kept as a store invariant, and `Catalog.InsertReview` refuses a second review as the database would.
- The object test asked of an anonymous actor with an unsafe method would fail on `AnonymousUser.is_admin`. The request test refuses such an actor first, so `Permissions.AuthorOrStaffOnObject` requires that this case does not arise.
- HEAD and OPTIONS are modelled as safe methods for permissions only. The handlers treat every method other than the routed ones as 405.
- The token view checks the code with `check_token`, not against the stored `confirmation_code`. The model follows the code, so the stored code matters only as the value mailed at sign-up.

## Findings

The handlers in `Views` and the validator on the model's username field follow the code as written. For each finding, the corrected definition sits next to it with its intended property proved.

| source | as written | input that shows it | evidently intended | confidence | as-written member | corrected member |
|---|---|---|---|---|---|---|
| api_yamdb/api_yamdb/validators.py:10 | the class `[a-zA-Z0-9.@+-_]` reads `+-_` as the range 0x2B..0x5F | "a/b" (also "x<y>", "[x]", "a,b") is accepted | only letters, digits and `.@+-_` | high (not executed) | ProjectValidators.PunctuationAccepted | ProjectValidators.IntendedValidateUsername |
| api_yamdb/api_yamdb/validators.py:10-11 | `re.match` with `$` also matches before a final newline | "abc\n" is accepted | the whole name must consist of allowed characters | high (not executed) | ProjectValidators.TrailingNewlineAccepted | ProjectValidators.IntendedClosesTheGaps |
| api_yamdb/api/views.py:36-37 | every validated field, `role` included, goes to `get_or_create` | sign-up with username "eve", email "eve@example.com" and role "admin" creates an administrator | sign-up creates plain users only | high (not executed) | Views.SignUpCanCreateAdmin | Views.SignUpIntended |
