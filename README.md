# Matchmaking profile store and match filter

A model of the core of a small matchmaking web service. The service stores
user profiles and can do five things with them: create, list, read, update
and delete. It also finds the other profiles that are compatible with a
given one. The model has five modules:

- `Schemas` (schemas.dfy) holds the request and response shapes. These are
  the stored row, the creation body, the all-optional update body and the
  response view. It also holds the interests codec. A profile's interest
  list is stored as one string joined with `","` and is split on `","` when
  it is read back. `Split` models Python's `str.split(",")` and `Join`
  models `",".join`. Lemmas prove both round trips and the two cases where
  a list does not survive one.
- `Sequences` (sequences.dfy) holds two facts about sequences of ids that
  the match filter and the row order share. `Distinct` says no id appears
  twice. `SubsequenceOf` says one sequence is another with some elements
  left out and the rest in their order.
- `EmailFormat` (email.dfy) holds the email check. The pattern
  `^[a-zA-Z0-9._%+-]+@[a-zA-Z0-9.-]+\.[a-zA-Z]{2,}$` is written as a
  hand-built recognizer. The recognizer splits the address at its first
  `@` and its last `.` and checks each piece against its character class.
  Its contract states that it accepts exactly the strings the pattern
  matches at some pair of split points.
- `Matching` (matching.dfy) holds the compatibility filter of
  `find_matches`. A candidate matches when it passes four tests. It has
  the subject's city. Its interests string contains, as a substring, one of
  the subject's comma-separated tokens. Its gender differs from the
  subject's under ASCII lowering. Its age is within ten years of the
  subject's, both ends included. The filter is also stated declaratively,
  and the two forms are proved equal.
- `Store` (store.dfy) holds the class `ProfileStore`. Its field `records`
  maps ids to rows. Its field `order` is the order in which an unordered
  query returns rows, which here is insertion order. `nextId` is the next
  id to hand out. The class invariant `Valid()` says that no two stored
  profiles share an email and that every stored email passes the check.
  Create, update and delete change the fields in place and keep that
  invariant. Read, list and find-matches change
  nothing. The three failures are the `Error` values `InvalidEmail`,
  `DuplicateEmail` and `NotFound`.

Two promises follow from the contracts together. First, a `ReadUser` of a
deleted id reports `NotFound`, because `DeleteUser` ensures the id is gone.
Second, an update body that sets no field leaves the row as it was
(`EmptyUpdateChangesNothing` with `UpdateUser`).

## Model

| member | source | states |
|---|---|---|
| `EmailFormat.ValidateEmail` | main.py:12-14 | The recognizer accepts an address exactly when the whole string matches the pattern: a nonempty local part over `[A-Za-z0-9._%+-]`, then `@`, then a nonempty domain over `[A-Za-z0-9.-]`, then `.`, then two or more ASCII letters to the end |
| `EmailFormat.MatchSplitsAreForced` | main.py:13 | In any match of the pattern, the `@` is the first `@` of the address and the `\.` is its last `.`, so the recognizer has only one pair of split points to try |
| `EmailFormat.NoAtSignIsInvalid` | main.py:13 | A string without `@` is rejected |
| `EmailFormat.AcceptsComposedAddress` | main.py:13 | Every address built from a local part, `@`, a domain, `.` and a top-level part, each from its own character class, is accepted |
| `EmailFormat.ShortTopLevelIsInvalid` | main.py:13 | An address with a `.` at any position that has fewer than two characters after it is rejected, because its last `.` then has fewer than two characters after it |
| `EmailFormat.SampleAddresses` | main.py:13 | `ann@mail.com` is accepted; `ann@mail.c` is rejected because its last part has only one letter |
| `Schemas.Split` | schemas.py:44 | Splitting on `","` yields a nonempty list with one more piece than there are commas, and no piece holds a comma |
| `Schemas.JoinOfSplit` | schemas.py:44 | Joining the pieces of a split with `","` gives back the original string |
| `Schemas.Join` | main.py:42 | Joining comma-free tokens with `","` gives a string with one comma fewer than there are tokens, and none for the empty list |
| `Schemas.SplitOfJoin` | main.py:42 | For a nonempty list of tokens that hold no comma, joining with `","` and then splitting gives back the list |
| `Schemas.EmptyListComesBackAsEmptyToken` | main.py:42 | The empty list joins to `""`, which splits back to `[""]`, not `[]` |
| `Schemas.DelimiterInTokenIsCut` | main.py:42 | The list `["a,b"]` comes back as `["a", "b"]` |
| `Schemas.CoerceInterests` | schemas.py:13-17 | The interests validator (the same body is at schemas.py:31-35 and schemas.py:41-45). Text comes back as a list with one more piece than commas, whose join is the text. A list comes back unchanged |
| `Schemas.ToUser` | schemas.py:37-45 | The response view copies the id, name, age, gender, email and city. Its interests list is nonempty, no token holds a comma, and the list joins back to the stored interests string |
| `Store.UpdatedInterestsReadBack` | main.py:74-76 | Interests supplied in an update read back as given when they are a nonempty list of comma-free tokens |
| `Store.EmptyUpdateChangesNothing` | schemas.py:22-28 | An update body that supplies no field leaves the row unchanged |
| `Store.CreatedInterestsReadBack` | main.py:41-49 | A created profile reads back with every field as submitted, including its interests list, when that list is nonempty and has no comma in any token |
| `Store.OwnEmailNotInUseByOther` | main.py:83-86 | When emails are unique, a profile's current email is never held by a different id, so an update may set the email the profile already has |
| `Store.InsertKeepsEmailsUnique` | main.py:36-38 | Storing a row under a new id, with an email no stored row holds, keeps emails unique |
| `Store.UpdateKeepsEmailsUnique` | main.py:83-88 | Updating a row keeps emails unique when no other row holds the supplied email |
| `Store.InsertKeepsEmailsWellFormed` | main.py:33-34 | Storing a row whose email passes the format check keeps every stored email well formed |
| `Store.UpdateKeepsEmailsWellFormed` | main.py:79-81 | Updating a row keeps every stored email well formed when the supplied email, if any, passes the format check |
| `Store.Without` | main.py:104 | Removing an id from the row order leaves a subsequence of it: every other id stays, in its order, and distinct ids stay distinct |
| `Store.EmailInUse` | main.py:36-37 | The duplicate check of `create_user` holds exactly when the email is among the emails of the stored rows |
| `Store.EmailInUseByOther` | main.py:83-87 | The duplicate check of `update_user` holds exactly when some row other than the updated id holds the email, that is when the email is in use once that id is set aside; for an id not stored it is the plain duplicate check |
| `Store.NewRecord` | main.py:41-45 | The created row copies name, age, gender, email and city from the request. Its interests string is the request's list joined with `","`, for every list, including `[]` and tokens that hold a comma. That string splits back to the list when the list is nonempty and its tokens are comma-free |
| `Store.ApplyUpdate` | main.py:72-91 | Each supplied field overwrites the stored one and each absent field keeps it. Supplied interests are stored joined with `","`. An update body with no field leaves the row unchanged |
| `Store.Page` | main.py:54 | `OFFSET skip LIMIT limit` returns the rows from position `skip`, at most `limit` of them, and none when `skip` is past the end |
| `Store.PagedViews` | main.py:54-55 | The views of an `OFFSET skip LIMIT limit` page are, position by position, the views of the rows from position `skip` of the row order |
| `Store.Views` | main.py:54-55 | The response list has one view per row id, in the same order; each view is the view of a listed id's row, and the views carry distinct ids when the listed ids are distinct |
| `Store.ProfileStore.CreateUser` | main.py:31-49 | An invalid email fails with InvalidEmail and an email already stored fails with DuplicateEmail. Both leave the store unchanged. Otherwise exactly one new id is added: its row is the request with interests joined, it goes at the end of the row order, and emails stay unique and well formed |
| `Store.ProfileStore.ReadUsers` | main.py:52-55 | Returns the rows from position `skip` in row order, at most `limit` of them; skip defaults to 0 and limit to 10 |
| `Store.ProfileStore.ReadUser` | main.py:58-63 | Returns the view of the row stored under the id, or NotFound when there is none |
| `Store.ProfileStore.UpdateUser` | main.py:66-95 | An absent id fails with NotFound. A supplied malformed email fails with InvalidEmail. A supplied email that another id holds fails with DuplicateEmail. Each failure leaves the store unchanged. Otherwise only that id's row changes, by `ApplyUpdate`, the row order is kept and emails stay unique and well formed |
| `Store.ProfileStore.DeleteUser` | main.py:98-106 | An absent id fails with NotFound and changes nothing. Otherwise exactly that id is removed from the map and the row order, the prior row is returned, and the id is absent afterwards |
| `Store.ProfileStore.FindMatches` | main.py:109-129 | An absent subject fails with NotFound. Otherwise every returned profile is a stored row that passes the filter against the subject and is not the subject. Every stored row that passes the filter is returned. No profile is returned twice, and the result is the views of `MatchingIds` over the row order, so the matches come in row order |
| `Matching.IsMatch` | main.py:116-127 | A candidate matches exactly when it has the subject's city, some token of the subject's split interests occurs in its interests string, its gender is not the subject's up to ASCII case, and its age is within 10 of the subject's, both ends included |
| `Matching.Contains` | main.py:121 | The `LIKE '%token%'` test holds exactly when the token occurs in the interests string at some index |
| `Matching.AnyTokenOccurs` | main.py:121 | The `or_` of the `LIKE` tests holds exactly when one of the tokens occurs |
| `Matching.InterestTestMeaning` | main.py:116-121 | The `or_` of the `LIKE` tests holds exactly when some token of the list occurs in the interests string at some index |
| `Matching.LowerChar` | main.py:122 | Lowering one character never yields `A`-`Z`. It changes the character exactly when it is `A`-`Z`, and then maps it to the matching `a`-`z` |
| `Matching.Lower` | main.py:122 | Lowering keeps the length and lowers each character; only `A`-`Z` change |
| `Matching.LowerEqualIffSameIgnoringCase` | main.py:122 | Two gender tokens lower to the same string exactly when they agree up to ASCII case |
| `Matching.NeverMatchesItself` | main.py:122 | A profile never matches itself, because its gender lowers to itself |
| `Matching.MatchingIds` | main.py:119-127 | The filtered ids are exactly the given ids whose rows match the subject. They are a subsequence of the given ids, so they keep their order, and they are distinct when the given ids are |
| `Matching.SubstringMatchesInsideWords` | main.py:121 | The token `art` matches the stored interests `cart`, because the test looks for a substring and not a whole token |
| `Matching.NoInterestsOverlapEveryone` | main.py:116-121 | A subject whose stored interests are `""` has the single token `""`, so the interest test passes for every candidate |
| `Matching.SecondTokenOverlaps` | main.py:116-121 | If the subject's interests are two comma-free tokens and the candidate's interests start with the second one, the interest test passes |
| `Matching.ScenarioSharedInterestMatches` | main.py:119-127 | Take A (Austin, female, 30, art and music) and B (Austin, male, 35, music and travel). B matches A |
| `Matching.ScenarioAgeGapExcludes` | main.py:124-125 | C (Austin, male, 50, music) does not match A (aged 30), because they are 20 years apart |

## Left out

- HTTP routing, status codes, response messages and the welcome endpoint (main.py:26-28). Failures are the `Error` values instead.
- The database session and the creation of tables (main.py:16-24, main.py:47-48, main.py:93-94, main.py:105). The store is one map, and each call takes effect whole. database.py and models.py are not part of this model.
- The database's choice of id. The model hands out a counter kept above every id issued so far. The contracts only rely on the new id being unused.
- Row order of an unordered query. The model uses insertion order, which is what a table keyed by an increasing id usually returns.
- Negative `skip` or `limit` in `read_users`. What they do depends on the database engine, so `ReadUsers` takes naturals.
- SQL `LIKE` pattern characters. A `%` or `_` inside an interest token acts as a wildcard in the source. The model tests for a plain substring.
- Case in `LIKE`. Whether `LIKE` ignores ASCII case depends on the engine. The model's substring test is case-sensitive.
- Python `re` details. `$` also matches before a final newline. The model reads the pattern as a match of the whole string.
- Pydantic type coercion and request validation. `UserCreate` arrives with its interests already a list. `CoerceInterests` models the interests validator on its own.
- Update fields explicitly set to `null`. The source writes them through unchecked, and whether the database accepts them is decided in models.py. In the model, an absent field and a `None` field are the same.
- Concurrency. Two requests can race between the email check and the commit. The model runs one call at a time.
