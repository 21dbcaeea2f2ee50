# Video hosting core, modelled in Dafny

This project models the service layer of a small video-hosting backend and
proves properties of it. The backend has three services and two model classes.

- **Validation** checks upload file names and sizes and checks e-mail
  addresses. It also cleans up file names.
  - The allowed extensions are `mp4`, `webm`, `mkv`, `avi` and `mov`.
  - The size limit is 500 MB.
  - An e-mail must match
    `^[a-zA-Z0-9_.+-]+@[a-zA-Z0-9-]+\.[a-zA-Z0-9-.]+$` under Python's `re.match`.
  - A cleaned file name keeps only word characters, white space, `-` and `.`,
    and then each run of white space becomes `_`.
- **Videos** are held in an insertion-ordered dictionary keyed by id.
  - Adding a video refuses a file name with a disallowed extension.
  - Listing returns the newest videos first, optionally for one owner.
  - Search is a case-insensitive substring match on the title or the description.
  - Watching a video adds one view to the stored video object itself.
- **Users** are also held in an insertion-ordered dictionary. Registration
  rejects an invalid e-mail first. It then scans the stored users in order and,
  for each user, tests the e-mail before the username. The first clash decides
  the error.
- **User** strips the username and strips and lower-cases the e-mail when it is
  built.
- **Video** strips its title when it is built. It also counts its views and
  derives its extension from the text after the last dot.

## Modules

| file | module | contents |
|---|---|---|
| `wrappers.dfy` | `Wrappers` | the `Option` and `Result` datatypes |
| `text.dfy` | `Text` | the Python string operations the core uses: `strip`, `lower`, `in` and `rsplit(".", 1)` |
| `config.dfy` | `Config` | the two configuration constants the core uses |
| `validation.dfy` | `Validation` | `ValidationService` |
| `ordered.dfy` | `Ordered` | an insertion-ordered dictionary, modelled as a `map` plus a key sequence |
| `models.dfy` | `Models` | `User` (a datatype) and `Video` (a class with a mutable `views` field) |
| `catalog.dfy` | `Catalog` | `VideoService` (a class) and the newest-first sort |
| `registry.dfy` | `Registry` | `UserService` (a class) and the registration decision as a function |

### How the model is built

- **Insertion-ordered dictionaries.** Each service's dictionary is a `map` plus
  an `order` sequence of its keys.
  - A new key is appended to `order`.
  - Overwriting a key keeps its place.
  - Deleting a key removes it from `order`.

  Because of this, the order in which `register_user` scans the users is
  modelled exactly.
- **Video objects.** `Video` is a class, so `watch_video` changes the very
  object that `add_video` stored, and that callers may still hold.
- **User values.** A `User` is never changed after it is built, so it is a
  datatype.
- **Errors.** The constructors raise `ValueError`. In the model they return a
  `Result`, and each error kind is a separate constructor of `Models.Error`.
- **Python's `$` at the end of a pattern.** `$` also matches just before a
  final newline. So `ValidateEmail` accepts a matching address followed by one
  `"\n"`, as `validate_email` does.

## Model

| member | source | states |
|---|---|---|
| Validation.ValidateFileExtension | app/services.py:11-15 | accepted exactly when the name has a dot and the lower-cased text after its last dot is an allowed extension; a name with no dot is refused |
| Validation.ValidateFileSize | app/services.py:18-20 | accepted exactly when 0 < size <= 524288000 bytes (500 MB) |
| Validation.MatchesEmail | app/services.py:24 | the greedy scan agrees with the pattern: true exactly when the whole string is local part, `@`, domain label, `.`, tail |
| Validation.ValidateEmail | app/services.py:23-25 | accepted exactly when the string, or the string minus one final newline, has the e-mail shape; an accepted address contains `@` |
| Validation.SpanUnique | app/services.py:24 | the longest prefix of a character class is the only prefix of that class that stops at a character outside the class |
| Validation.GreedySplit | app/services.py:24 | any split of the string that fits the pattern is the split the greedy scan finds |
| Validation.RemoveDisallowed | app/services.py:29 | no longer than the input; keeps only word characters, white space, `-` and `.`, each taken from the input |
| Validation.RemoveDisallowedConcat | app/services.py:29 | removing characters distributes over concatenation |
| Validation.RemoveDisallowedKeepsKept | app/services.py:29 | a string made only of kept characters is returned unchanged |
| Validation.CollapseSpaces | app/services.py:30 | no longer than the input and contains no white space |
| Validation.CollapseSpacesChars | app/services.py:30 | every character of the result is `_` or taken from the input |
| Validation.CollapseSpaceStep | app/services.py:30 | a leading run of white space becomes one `_` followed by the rest, collapsed |
| Validation.CollapseRun | app/services.py:30 | a non-empty run of white space becomes a single `_` |
| Validation.CollapseRunThen | app/services.py:30 | a whole run followed by a non-space collapses to `_` followed by the collapse of the rest |
| Validation.CollapseRunConcat | app/services.py:30 | a string that is one run, joined to a string that does not start with white space, collapses part by part |
| Validation.SpaceHeadStep | app/services.py:30 | a leading run that ends inside `a` becomes the same `_` in `a` and in `a + b` |
| Validation.CollapseConcatSpaceHead | app/services.py:30 | the case of the concatenation property where the first part starts with white space |
| Validation.CollapseConcat | app/services.py:30 | replacing runs distributes over concatenation when no run straddles the join |
| Validation.CollapseKeepsSpaceFree | app/services.py:30 | a string with no white space is returned unchanged |
| Validation.LeadingSpacesUnique | app/services.py:30 | the leading run of white space is the only white-space prefix followed by a non-space character or by the end |
| Validation.LeadingSpacesPrefix | app/services.py:30 | a white-space prefix that ends inside `a` is also the white-space prefix of `a + b` |
| Validation.LeadingSpacesWhole | app/services.py:30 | when `a` is all white space and `b` does not start with any, the white-space prefix of `a + b` is `a` |
| Validation.SanitizeFilename | app/services.py:28-31 | no longer than the input; every character is a word character, `-` or `.`, and none is white space |
| Validation.SanitizeIdempotent | app/services.py:28-31 | cleaning a cleaned name changes nothing |
| Validation.AcceptedExtensionExamples | tests/test_services.py:8-12 | `video.mp4` and `video.webm` are accepted |
| Validation.RejectedExtensionExamples | tests/test_services.py:14-18 | `file.exe` and `noext` are refused |
| Validation.EmailExamples | tests/test_services.py:30-34 | `user@example.com` is accepted and `not-an-email` is refused |
| Text.LowerChar | app/models.py:20 | the result is never an upper-case ASCII letter; letters stay letters; a lower-case letter is unchanged, an upper-case letter becomes the lower-case letter at the same place in the alphabet; any other character is unchanged |
| Text.Lower | app/models.py:20 | same length; each character is lowered on its own |
| Text.LowerKeeps | app/models.py:17-20 | lowering neither adds nor removes a character that is not a letter, such as `@` |
| Text.LeadingSpaces | app/models.py:19 | the white-space prefix, which is followed by the end or by a non-space character |
| Text.TrailingSpaces | app/models.py:19 | the white-space suffix, which is preceded by the start or by a non-space character |
| Text.AllSpaceConcat | app/models.py:19 | a concatenation is all white space exactly when both parts are |
| Text.Strip | app/models.py:19 | the result is the input minus its leading and trailing white space; it is empty exactly when the input is all white space, and otherwise starts and ends with a non-space character |
| Text.StripKeeps | app/models.py:15-20 | stripping keeps every non-space character of the input |
| Text.AfterLastDot | app/models.py:46 | a suffix of the input with no dot in it; when it is shorter than the input, a dot comes just before it |
| Text.LastDotIsUnique | app/services.py:14 | a position is the last dot exactly when it sits just before `AfterLastDot` |
| Text.HasDotIffShorter | app/services.py:12-14 | the input has a dot exactly when the text after the last dot is shorter than the input |
| Text.Contains | app/services.py:67 | true exactly when the query occurs at some position of the text |
| Ordered.ValuesInOrder | app/services.py:51 | the values in key order; one value per key |
| Ordered.ValuesInOrderAreValues | app/services.py:51 | those values are exactly the dictionary's values |
| Ordered.RemoveKey | app/services.py:58 | `del` drops exactly that key from the order, keeps the keys distinct, and leaves the order unchanged for an absent key |
| Ordered.RemoveKeyKeepsOrder | app/services.py:58 | removing the key at position `i` of distinct keys leaves exactly the keys before it followed by the keys after it, in their order |
| Ordered.RemoveKeyHead | app/services.py:58 | removing the first of distinct keys leaves the rest |
| Ordered.NoDupTail | app/services.py:58 | the first of distinct keys does not recur in the rest, and the rest is distinct |
| Ordered.PutKeepsKeysInOrder | app/services.py:44 | `d[k] = v` keeps the order a listing of the keys: a new key goes to the end, an existing one keeps its place |
| Ordered.Filter | app/services.py:53 | the comprehension's result is a sub-multiset of the input whose elements all pass the test, and it keeps every input element that passes |
| Ordered.FilterNoDup | app/services.py:53 | filtering distinct elements gives distinct elements |
| Ordered.PrependNoDup | app/services.py:53-54 | putting a new element in front of distinct elements keeps them distinct |
| Models.NewUser | app/models.py:7-20 | fails exactly when the username is empty or all white space, or the e-mail has no `@`; a blank username is reported first, and a non-blank username with an e-mail lacking `@` is reported as the missing `@`; success stores the stripped username and the stripped, lower-cased e-mail, and the result is well formed |
| Models.NormalisedEmailKeepsAt | app/models.py:17-20 | stripping and lower-casing an address that has `@` keeps the `@` |
| Models.Video.constructor | app/models.py:23-39 | stores every field, the title stripped; views start at 0 |
| Models.NewVideo | app/models.py:34-39 | a blank title fails first, then an empty file name; otherwise a new, valid video with 0 views and every field stored |
| Models.Video.IncrementViews | app/models.py:41-42 | views go up by exactly one |
| Models.Video.Extension | app/models.py:44-46 | empty when the file name has no dot; otherwise the lower-cased text after the last dot; never contains a dot |
| Catalog.ExtensionCheckAgrees | app/services.py:39-41 | the extension check accepts a video's file name exactly when the video's `extension` is an allowed one |
| Catalog.NewestFirstAllPairs | app/services.py:54 | in newest-first order every earlier video is at least as new as every later one |
| Catalog.InsertNewest | app/services.py:54 | inserting into a newest-first list keeps it newest first and adds exactly that one video |
| Catalog.InsertNewestNoDup | app/services.py:54 | inserting a new video into distinct videos keeps them distinct |
| Catalog.SortNewestFirst | app/services.py:54 | the result is newest first and a permutation of the input |
| Catalog.SortNewestFirstNoDup | app/services.py:54 | sorting distinct videos gives distinct videos |
| Catalog.SortKeepsTest | app/services.py:54 | sorting keeps a property that every video has |
| Catalog.SortKeepsMember | app/services.py:54 | sorting loses no video |
| Catalog.OwnedNewestFirst | app/services.py:51-54 | on the stored videos: a sub-multiset of them, all of the owner, every video of the owner included, newest first |
| Catalog.OwnedNewestFirstNoDup | app/services.py:51-54 | listing distinct videos gives distinct videos |
| Catalog.Matching | app/services.py:63-68 | on the stored videos: a sub-multiset of them, exactly those whose lower-cased title or description contains the lower-cased query |
| Catalog.MatchingNoDup | app/services.py:63-68 | searching distinct videos gives distinct videos |
| Catalog.StoringKeepsWellKeyed | app/services.py:39-44 | storing an accepted video under its own id keeps every video under its own id with an accepted file name |
| Catalog.VideoService.constructor | app/services.py:35-36 | the service starts empty |
| Catalog.VideoService.Stored | app/services.py:51 | every stored video exactly once |
| Catalog.VideoService.AddVideo | app/services.py:38-45 | a bad extension fails with the video's extension and changes nothing; otherwise the video is stored under its id (a new id is appended, an old one keeps its place) and can then be fetched |
| Catalog.VideoService.GetVideo | app/services.py:47-48 | finds the video exactly when the id is stored, and the video carries that id |
| Catalog.VideoService.ListVideos | app/services.py:50-54 | exactly the stored videos of the owner (all videos when the owner is absent or empty), each once, newest first |
| Catalog.VideoService.DeleteVideo | app/services.py:56-60 | true exactly when the id was stored; afterwards the order is the old order with that id removed, so (with Ordered.RemoveKeyKeepsOrder) that id alone is gone and the other keys keep their order |
| Catalog.VideoService.SearchVideos | app/services.py:62-68 | exactly the stored videos whose lower-cased title or description contains the lower-cased query, each once |
| Catalog.VideoService.WatchVideo | app/services.py:70-74 | returns what `get_video` returns; the views of that video object go up by one, and no other video's views change |
| Registry.FirstConflict | app/services.py:85-89 | none exactly when no stored user has the e-mail or the username; otherwise the first clashing user decides the error, e-mail before username |
| Registry.FirstClashDecides | app/services.py:85-89 | the first clash at position i alone determines the error |
| Registry.FindConflict | app/services.py:85-89 | the loop finds what `FirstConflict` specifies |
| Registry.Register | app/services.py:81-93 | an invalid e-mail fails first, and only an invalid e-mail gives that error; with a valid e-mail, a clash fails with the error the first clashing stored user gives (Registry.FirstConflict); success means a well-formed user with the normalised fields that no stored user clashes with; each failure kind has a witness; a valid e-mail, a non-blank username and no clash guarantee success |
| Registry.DuplicateRegistrationFails | tests/test_services.py:121-129 | registering the e-mail or the username of a stored user again fails; with one stored user, the e-mail is reported first |
| Registry.EarlierUsernameClashWins | app/services.py:85-89 | when an earlier user holds the username and a later one the e-mail, the username is reported |
| Registry.AddingUserKeepsInvariant | app/services.py:91-92 | adding a well-formed, non-clashing user under a new id keeps the ids right and the e-mails and usernames unique |
| Registry.UserService.constructor | app/services.py:78-79 | the service starts empty |
| Registry.UserService.Stored | app/services.py:85 | the stored users in insertion order |
| Registry.UserService.RegisterUser | app/services.py:81-93 | the outcome is `Register` on the stored users; success appends the user under its id; failure changes nothing; the invariant (unique e-mails and usernames) is kept |
| Registry.UserService.GetUser | app/services.py:95-96 | finds the user exactly when the id is stored; the user carries that id and is well formed |

## Left out

- The HTTP layer (`app/main.py`), reading the environment, `get_upload_path`
  (a path join) and `duration_seconds` are not part of this model.
- `uuid.uuid4()` and `datetime.now()` are parameters: callers supply the id and
  the creation time. Timestamps are integers.
- Models.NewUser, Models.NewVideo and Registry.UserService.RegisterUser:
  ids and times come from the caller.
- Registry.UserService.RegisterUser requires an id that is not yet in use. A
  random UUID is taken to be fresh.
- Models.Video.constructor: the `views=` and `duration_seconds=` constructor
  arguments are not modelled.
  - A video always starts with 0 views.
  - `views` is a `nat`, so a negative count passed in cannot arise.
- Models.Error: the text of error messages is not modelled, only which error is
  raised.
- Text.Lower and Text.Strip: `\s`, `\w`, `str.lower` and `str.strip` are taken
  over ASCII only.
  - White space is characters 9–13, 28–31 and the space.
  - Non-ASCII letters, digits and spaces are not recognised.
- Catalog.SortNewestFirst: the sort is stable, like Python's `sorted`, but
  stability is not stated in its contract. Only newest-first order and the
  permutation are proved.
- Catalog.VideoService.SearchVideos: the result keeps the dictionary's order,
  but the contract states only membership and uniqueness.
- The sanitised form of a particular file name, such as the one the test suite
  uses, is not proved. Only the general character properties and idempotence
  are.
- Concurrency and persistence: the services are in-memory and
  single-threaded.
