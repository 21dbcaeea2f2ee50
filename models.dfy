/**
 * The two entities. `User` is never changed after it is built, so it is a value;
 * `Video` is shared by reference (the catalog and its callers hold the same
 * object, and watching it changes `views` for all of them), so it is a class.
 * Identifiers and creation times, which the source draws from `uuid4` and the
 * clock, are passed in; a time is an integer count of a fixed unit.
 */
module Models {
  import opened Wrappers
  import opened Text

  /** The kinds of `ValueError` the core raises. */
  datatype Error =
    | BlankUsername                       // User: empty or all-whitespace username
    | EmailWithoutAt                      // User: no "@" in the e-mail
    | BlankTitle                          // Video: empty or all-whitespace title
    | BlankFilename                       // Video: empty filename
    | InvalidEmail                        // register_user: e-mail fails the pattern
    | EmailTaken                          // register_user: e-mail already registered
    | UsernameTaken                       // register_user: username already taken
    | UnsupportedExtension(ext: string)   // add_video: extension not allowed

  datatype User = User(id: string, username: string, email: string, createdAt: int)

  /** What construction guarantees of every `User`. */
  predicate WellFormedUser(u: User) {
    u.username != [] && !IsSpace(u.username[0]) && !IsSpace(u.username[|u.username| - 1])
    && '@' in u.email
  }

  /** Stripping and lower-casing an e-mail address keeps its `@`. */
  lemma NormalisedEmailKeepsAt(email: string)
    requires '@' in email
    ensures '@' in Lower(Strip(email))
  {
    StripKeeps(email, '@');
    LowerKeeps(Strip(email), '@');
  }

  /** `User(username=..., email=...)` with its `__post_init__`: rejects a blank
      username, then an e-mail without `@`, and otherwise stores the username
      stripped and the e-mail stripped and lower-cased. */
  function NewUser(username: string, email: string, id: string, createdAt: int): (r: Result<User, Error>)
    ensures r.Failure? <==> AllSpace(username) || '@' !in email
    ensures AllSpace(username) ==> r == Failure(BlankUsername)
    ensures !AllSpace(username) && '@' !in email ==> r == Failure(EmailWithoutAt)
    ensures r.Success? ==> r.value == User(id, Strip(username), Lower(Strip(email)), createdAt)
    ensures r.Success? ==> WellFormedUser(r.value)
  {
    if username == [] || Strip(username) == [] then Failure(BlankUsername)
    else if '@' !in email then Failure(EmailWithoutAt)
    else
      NormalisedEmailKeepsAt(email);
      Success(User(id, Strip(username), Lower(Strip(email)), createdAt))
  }

  class Video {
    const id: string
    const title: string
    const filename: string
    const ownerId: string
    const description: string
    const createdAt: int
    var views: nat

    /** What construction guarantees: a stripped, non-empty title and a
        non-empty filename. */
    predicate Valid() {
      title != [] && !IsSpace(title[0]) && !IsSpace(title[|title| - 1]) && filename != []
    }

    /** The field assignments of the dataclass and its `__post_init__`, once the
        checks have passed (`NewVideo` performs them). */
    constructor (id: string, title: string, filename: string, ownerId: string,
                 description: string, createdAt: int)
      requires !AllSpace(title) && filename != []
      ensures this.id == id && this.title == Strip(title) && this.filename == filename
      ensures this.ownerId == ownerId && this.description == description
      ensures this.createdAt == createdAt && views == 0
      ensures Valid()
    {
      this.id := id;
      this.title := Strip(title);
      this.filename := filename;
      this.ownerId := ownerId;
      this.description := description;
      this.createdAt := createdAt;
      views := 0;
    }

    /** `increment_views`. */
    method IncrementViews()
      modifies this
      ensures views == old(views) + 1
    {
      views := views + 1;
    }

    /** The `extension` property: empty without a dot, otherwise the text after
        the last dot, lower-cased. */
    function Extension(): (e: string)
      ensures '.' !in e
      ensures '.' !in filename ==> e == []
      ensures '.' in filename ==> exists i :: IsLastDot(filename, i) && e == Lower(filename[i + 1..])
    {
      if '.' in filename then
        var r := AfterLastDot(filename);
        HasDotIffShorter(filename);
        LastDotIsUnique(filename, |filename| - |r| - 1);
        LowerKeeps(r, '.');
        Lower(r)
      else []
    }
  }

  /** `Video(title=..., filename=..., owner_id=..., description=...)`: rejects a
      blank title, then an empty filename; otherwise a fresh video with the title
      stripped, the filename as given and no views. */
  method NewVideo(title: string, filename: string, ownerId: string, id: string,
                  description: string, createdAt: int) returns (r: Result<Video, Error>)
    ensures AllSpace(title) ==> r == Failure(BlankTitle)
    ensures !AllSpace(title) && filename == [] ==> r == Failure(BlankFilename)
    ensures !AllSpace(title) && filename != [] ==> r.Success?
    ensures r.Success? ==> fresh(r.value) && r.value.Valid() && r.value.views == 0
                           && r.value.id == id && r.value.title == Strip(title)
                           && r.value.filename == filename && r.value.ownerId == ownerId
                           && r.value.description == description && r.value.createdAt == createdAt
  {
    if title == [] || Strip(title) == [] {
      return Failure(BlankTitle);
    }
    if filename == [] {
      return Failure(BlankFilename);
    }
    var v := new Video(id, title, filename, ownerId, description, createdAt);
    r := Success(v);
  }
}
