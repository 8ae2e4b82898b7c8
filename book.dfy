/**
 * The `Book` entity: an ISBN, a title, a genre, a list of authors and a
 * description, filled in step by step by private setters from the two public
 * constructors and from `applyPatch`, which replaces only the fields of an
 * update request that are not `null`.
 *
 * `Title`, `Description` and `Isbn` validate their argument in their own
 * constructors, whose rules are not part of this model: they are given here
 * as `ValueRules`, arbitrary total functions from the (possibly `null`)
 * argument to the new value or the exception thrown.
 */
module Books {
  import opened JavaLang

  datatype Title = Title(text: JString)
  datatype Description = Description(text: Option<JString>)
  datatype Isbn = Isbn(text: JString)
  datatype Genre = Genre(text: JString)
  datatype Name = Name(text: JString)
  datatype Author = Author(name: Name)

  /** The constructors `new Title(String)`, `new Description(String)` and `new Isbn(String)`. */
  datatype ValueRules = ValueRules(
    title: Option<JString> -> Result<Title>,
    description: Option<JString> -> Result<Description>,
    isbn: Option<JString> -> Result<Isbn>)

  /** `UpdateBookRequest` as `applyPatch` reads it: a `null` field means "no change". */
  datatype UpdateBookRequest = UpdateBookRequest(
    title: Option<JString>,
    description: Option<JString>,
    genre: Option<Genre>,
    authors: Option<seq<Author>>)

  /** The fields of a book; a field that was never set is `null`. */
  datatype BookState = BookState(
    isbn: Option<Isbn>,
    title: Option<Title>,
    genre: Option<Genre>,
    authors: Option<seq<Author>>,
    description: Option<Description>)

  /** A book's fields after `applyPatch`, and the exception it threw if any. */
  datatype Patched = Patched(after: BookState, thrown: Option<Exception>)

  /** `applyPatch` would hand a rejected title to `new Title`. */
  predicate TitleRejected(rules: ValueRules, request: UpdateBookRequest) {
    request.title.Some? && rules.title(request.title).Thrown?
  }

  /** `applyPatch` would hand a rejected description to `new Description`. */
  predicate DescriptionRejected(rules: ValueRules, request: UpdateBookRequest) {
    request.description.Some? && rules.description(request.description).Thrown?
  }

  /**
   * What `applyPatch` does to the fields: title, description, genre and
   * authors are replaced in that order, each only when the request's field
   * is not `null`. The first rejected value ends the patch, and what was
   * already replaced stays replaced.
   */
  function Patch(rules: ValueRules, s: BookState, request: UpdateBookRequest): (r: Patched)
    ensures r.after.isbn == s.isbn
    ensures request.title.None? ==> r.after.title == s.title
    ensures request.description.None? ==> r.after.description == s.description
    ensures request.genre.None? ==> r.after.genre == s.genre
    ensures request.authors.None? ==> r.after.authors == s.authors
    ensures r.thrown.None? <==> !TitleRejected(rules, request) && !DescriptionRejected(rules, request)
    ensures TitleRejected(rules, request) ==> r == Patched(s, Some(rules.title(request.title).error))
    ensures !TitleRejected(rules, request) && DescriptionRejected(rules, request) ==>
      && r.thrown == Some(rules.description(request.description).error)
      && r.after == (if request.title.Some? then s.(title := Some(rules.title(request.title).value)) else s)
    ensures r.thrown.None? ==>
      && (request.title.Some? ==> r.after.title == Some(rules.title(request.title).value))
      && (request.description.Some? ==> r.after.description == Some(rules.description(request.description).value))
      && (request.genre.Some? ==> r.after.genre == request.genre)
      && (request.authors.Some? ==> r.after.authors == request.authors)
  {
    if TitleRejected(rules, request) then
      Patched(s, Some(rules.title(request.title).error))
    else
      var s1 := if request.title.Some? then s.(title := Some(rules.title(request.title).value)) else s;
      if DescriptionRejected(rules, request) then
        Patched(s1, Some(rules.description(request.description).error))
      else
        var s2 := if request.description.Some? then s1.(description := Some(rules.description(request.description).value)) else s1;
        var s3 := if request.genre.Some? then s2.(genre := request.genre) else s2;
        var s4 := if request.authors.Some? then s3.(authors := request.authors) else s3;
        Patched(s4, None)
  }

  /**
   * What the constructors produce: `description == None` stands for the
   * four-argument constructor, which never sets a description, and
   * `Some(d)` for the five-argument one, whose `d` may itself be `null`.
   * `Title` is built before `Isbn`, and `Isbn` before `Description`; genre
   * and authors are stored as given.
   */
  function Construct(rules: ValueRules, isbn: Option<JString>, title: Option<JString>,
                     description: Option<Option<JString>>, genre: Option<Genre>,
                     authors: Option<seq<Author>>): (r: Result<BookState>)
    ensures r.Ok? <==>
      && rules.title(title).Ok?
      && rules.isbn(isbn).Ok?
      && (description.Some? ==> rules.description(description.value).Ok?)
    ensures rules.title(title).Thrown? ==> r == Thrown(rules.title(title).error)
    ensures rules.title(title).Ok? && rules.isbn(isbn).Thrown? ==> r == Thrown(rules.isbn(isbn).error)
    ensures rules.title(title).Ok? && rules.isbn(isbn).Ok? && description.Some? &&
            rules.description(description.value).Thrown? ==>
      r == Thrown(rules.description(description.value).error)
    ensures r.Ok? ==>
      && r.value.title == Some(rules.title(title).value)
      && r.value.isbn == Some(rules.isbn(isbn).value)
      && r.value.genre == genre
      && r.value.authors == authors
      && r.value.description == (if description.None? then None else Some(rules.description(description.value).value))
  {
    match rules.title(title)
    case Thrown(e) => Thrown(e)
    case Ok(t) =>
      match rules.isbn(isbn)
      case Thrown(e) => Thrown(e)
      case Ok(i) =>
        match description
        case None => Ok(BookState(Some(i), Some(t), genre, authors, None))
        case Some(d) =>
          match rules.description(d)
          case Thrown(e) => Thrown(e)
          case Ok(v) => Ok(BookState(Some(i), Some(t), genre, authors, Some(v)))
  }

  class Book {
    var isbn: Option<Isbn>
    var title: Option<Title>
    var genre: Option<Genre>
    var authors: Option<seq<Author>>
    var description: Option<Description>

    function State(): BookState
      reads this
    {
      BookState(isbn, title, genre, authors, description)
    }

    /** The empty constructor for the ORM; `authors` starts as an empty list. */
    constructor Empty()
      ensures State() == BookState(None, None, None, Some([]), None)
    {
      isbn := None;
      title := None;
      genre := None;
      authors := Some([]);
      description := None;
    }

    /** `setTitle`: the field changes only when `new Title` succeeds. */
    method SetTitle(rules: ValueRules, t: Option<JString>) returns (thrown: Option<Exception>)
      modifies this`title
      ensures rules.title(t).Ok? ==> title == Some(rules.title(t).value) && thrown == None
      ensures rules.title(t).Thrown? ==> title == old(title) && thrown == Some(rules.title(t).error)
    {
      var v := rules.title(t);
      if v.Thrown? {
        return Some(v.error);
      }
      title := Some(v.value);
      thrown := None;
    }

    /** `setIsbn`: the field changes only when `new Isbn` succeeds. */
    method SetIsbn(rules: ValueRules, i: Option<JString>) returns (thrown: Option<Exception>)
      modifies this`isbn
      ensures rules.isbn(i).Ok? ==> isbn == Some(rules.isbn(i).value) && thrown == None
      ensures rules.isbn(i).Thrown? ==> isbn == old(isbn) && thrown == Some(rules.isbn(i).error)
    {
      var v := rules.isbn(i);
      if v.Thrown? {
        return Some(v.error);
      }
      isbn := Some(v.value);
      thrown := None;
    }

    /** `setDescription`: the field changes only when `new Description` succeeds. */
    method SetDescription(rules: ValueRules, d: Option<JString>) returns (thrown: Option<Exception>)
      modifies this`description
      ensures rules.description(d).Ok? ==> description == Some(rules.description(d).value) && thrown == None
      ensures rules.description(d).Thrown? ==> description == old(description) && thrown == Some(rules.description(d).error)
    {
      var v := rules.description(d);
      if v.Thrown? {
        return Some(v.error);
      }
      description := Some(v.value);
      thrown := None;
    }

    /** `setGenre`: stores the genre as given, `null` included. */
    method SetGenre(g: Option<Genre>)
      modifies this`genre
      ensures genre == g
    {
      genre := g;
    }

    /** `setAuthors`: stores the list as given, `null` or empty included. */
    method SetAuthors(a: Option<seq<Author>>)
      modifies this`authors
      ensures authors == a
    {
      authors := a;
    }

    /** `Book(isbn, title, genre, authors)`: a fresh book, or the exception `Title` or `Isbn` threw. */
    static method New(rules: ValueRules, isbn: Option<JString>, title: Option<JString>,
                      genre: Option<Genre>, authors: Option<seq<Author>>) returns (r: Result<Book>)
      ensures r.Ok? ==> fresh(r.value)
      ensures Outcome(r) == Construct(rules, isbn, title, None, genre, authors)
    {
      var b := new Book.Empty();
      var thrown := b.SetTitle(rules, title);
      if thrown.Some? {
        return Thrown(thrown.value);
      }
      thrown := b.SetIsbn(rules, isbn);
      if thrown.Some? {
        return Thrown(thrown.value);
      }
      b.SetGenre(genre);
      b.SetAuthors(authors);
      r := Ok(b);
    }

    /** `Book(isbn, title, description, genre, authors)`: as `New`, and the description is set too. */
    static method NewWithDescription(rules: ValueRules, isbn: Option<JString>, title: Option<JString>,
                                     description: Option<JString>, genre: Option<Genre>,
                                     authors: Option<seq<Author>>) returns (r: Result<Book>)
      ensures r.Ok? ==> fresh(r.value)
      ensures Outcome(r) == Construct(rules, isbn, title, Some(description), genre, authors)
    {
      var b := new Book.Empty();
      var thrown := b.SetTitle(rules, title);
      if thrown.Some? {
        return Thrown(thrown.value);
      }
      thrown := b.SetIsbn(rules, isbn);
      if thrown.Some? {
        return Thrown(thrown.value);
      }
      thrown := b.SetDescription(rules, description);
      if thrown.Some? {
        return Thrown(thrown.value);
      }
      b.SetGenre(genre);
      b.SetAuthors(authors);
      r := Ok(b);
    }

    /**
     * `applyPatch(request)`: no expected version, no check of its own;
     * the returned exception is the one `Title` or `Description` threw.
     */
    method ApplyPatch(rules: ValueRules, request: UpdateBookRequest) returns (thrown: Option<Exception>)
      modifies this
      ensures Patched(State(), thrown) == Patch(rules, old(State()), request)
    {
      if request.title.Some? {
        thrown := SetTitle(rules, request.title);
        if thrown.Some? {
          return;
        }
      }
      if request.description.Some? {
        thrown := SetDescription(rules, request.description);
        if thrown.Some? {
          return;
        }
      }
      if request.genre.Some? {
        SetGenre(request.genre);
      }
      if request.authors.Some? {
        SetAuthors(request.authors);
      }
      thrown := None;
    }
  }

  /** The fields of a constructed book, or the exception its constructor threw. */
  function Outcome(r: Result<Book>): Result<BookState>
    reads if r.Ok? then {r.value} else {}
  {
    match r
    case Ok(b) => Ok(b.State())
    case Thrown(e) => Thrown(e)
  }

  // ---------------------------------------------------------------------
  // Properties of applyPatch

  /**
   * Applying the same request twice leaves the same fields and throws the
   * same exception as applying it once; in particular a repeated patch is
   * never refused as stale, since no version is involved.
   */
  lemma PatchIdempotent(rules: ValueRules, s: BookState, request: UpdateBookRequest)
    ensures Patch(rules, Patch(rules, s, request).after, request) == Patch(rules, s, request)
  {
  }

  /** A request whose four fields are all `null` changes nothing and throws nothing. */
  lemma EmptyPatchChangesNothing(rules: ValueRules, s: BookState)
    ensures Patch(rules, s, UpdateBookRequest(None, None, None, None)) == Patched(s, None)
  {
  }

  /**
   * No rollback: when the title is accepted and the description rejected,
   * the new title stays, while description, genre and authors keep their
   * old values; with a `null` title nothing changes at all.
   */
  lemma RejectedDescriptionKeepsNewTitle(rules: ValueRules, s: BookState, request: UpdateBookRequest)
    requires !TitleRejected(rules, request)
    requires DescriptionRejected(rules, request)
    ensures request.title.Some? ==>
      Patch(rules, s, request).after == s.(title := Some(rules.title(request.title).value))
    ensures request.title.None? ==> Patch(rules, s, request).after == s
    ensures Patch(rules, s, request).thrown == Some(rules.description(request.description).error)
  {
  }

  // ---------------------------------------------------------------------
  // Properties of the constructors

  /**
   * Neither constructor looks at genre or authors: whether it succeeds does
   * not depend on them, so a `null` genre, a `null` author list and an empty
   * author list are all accepted, where the unit tests expect
   * `IllegalArgumentException`.
   */
  lemma ConstructorIgnoresGenreAndAuthors(rules: ValueRules, isbn: Option<JString>, title: Option<JString>,
                                          description: Option<Option<JString>>,
                                          genre: Option<Genre>, authors: Option<seq<Author>>)
    ensures Construct(rules, isbn, title, description, genre, authors).Ok? ==
            Construct(rules, isbn, title, description, None, None).Ok?
    ensures Construct(rules, isbn, title, description, genre, authors).Ok? ==
            Construct(rules, isbn, title, description, genre, Some([])).Ok?
  {
  }
}
