/**
 * The book routes (server/src/routes/books.ts): the field checks shared by creation, update
 * and import, the derived columns of the book list, the creator-or-admin guards of update and
 * delete, comments, and the admin bulk import.
 */
module Books {
  import opened Wrappers
  import opened Strings
  import opened Seqs
  import opened Store
  import opened Validation
  import Meets

  const MaxTitleLength := 500
  const MaxAuthorLength := 200
  const MaxYearLength := 30
  const MaxCountryLength := 50
  const MaxLanguageLength := 50
  const MaxIntroductionLength := 5000
  const MaxCommentLength := 2000

  /** A request body or an import row: each field may be missing (None, JavaScript `undefined`). */
  datatype BookFields = BookFields(
    title: Option<string>, author: Option<string>, year: Option<string>, country: Option<string>,
    originalLanguage: Option<string>, bookType: Option<string>, introduction: Option<string>)

  /** The rules `validateBookFields` enforces, in the order it checks them. */
  datatype FieldError =
    InvalidTitle | InvalidAuthor | YearTooLong | CountryTooLong | LanguageTooLong | InvalidType | IntroductionTooLong

  function Order(e: FieldError): nat {
    match e
    case InvalidTitle => 0
    case InvalidAuthor => 1
    case YearTooLong => 2
    case CountryTooLong => 3
    case LanguageTooLong => 4
    case InvalidType => 5
    case IntroductionTooLong => 6
  }

  /** A truthy field longer than `limit`. */
  predicate TooLong(v: Option<string>, limit: nat) {
    IsTruthy(v) && |v.value| > limit
  }

  /**
   * Whether `body` breaks the rule `e` reports. A supplied title or author must be a valid
   * string field; the other fields are only checked when truthy. `validType` is the book-type
   * test `isValidBookType`, whose definition is not part of this model.
   */
  predicate Violates(body: BookFields, validType: string -> bool, e: FieldError) {
    match e
    case InvalidTitle => body.title.Some? && !IsValidStringField(body.title.value, MaxTitleLength)
    case InvalidAuthor => body.author.Some? && !IsValidStringField(body.author.value, MaxAuthorLength)
    case YearTooLong => TooLong(body.year, MaxYearLength)
    case CountryTooLong => TooLong(body.country, MaxCountryLength)
    case LanguageTooLong => TooLong(body.originalLanguage, MaxLanguageLength)
    case InvalidType => IsTruthy(body.bookType) && !validType(body.bookType.value)
    case IntroductionTooLong => TooLong(body.introduction, MaxIntroductionLength)
  }

  /** `validateBookFields`: None when no rule is broken, otherwise the first rule broken. */
  function ValidateBookFields(body: BookFields, validType: string -> bool): (r: Option<FieldError>)
    ensures r == None <==> forall e :: !Violates(body, validType, e)
    ensures r.Some? ==> Violates(body, validType, r.value)
    ensures r.Some? ==> forall e :: Order(e) < Order(r.value) ==> !Violates(body, validType, e)
  {
    var r :=
      if body.title.Some? && !IsValidStringField(body.title.value, MaxTitleLength) then Some(InvalidTitle)
      else if body.author.Some? && !IsValidStringField(body.author.value, MaxAuthorLength) then Some(InvalidAuthor)
      else if TooLong(body.year, MaxYearLength) then Some(YearTooLong)
      else if TooLong(body.country, MaxCountryLength) then Some(CountryTooLong)
      else if TooLong(body.originalLanguage, MaxLanguageLength) then Some(LanguageTooLong)
      else if IsTruthy(body.bookType) && !validType(body.bookType.value) then Some(InvalidType)
      else if TooLong(body.introduction, MaxIntroductionLength) then Some(IntroductionTooLong)
      else None;
    assert r.Some? ==> Violates(body, validType, r.value);
    r
  }

  /** Missing fields are never checked: a body with only some fields is judged on those alone. */
  lemma MissingFieldsPass(validType: string -> bool)
    ensures ValidateBookFields(BookFields(None, None, None, None, None, None, None), validType) == None
  {
    var body := BookFields(None, None, None, None, None, None, None);
    forall e ensures !Violates(body, validType, e) {
    }
  }

  /** What every book written through these routes satisfies: the limits `validateBookFields` enforces. */
  predicate WithinLimits(b: Book) {
    && IsValidStringField(b.title, MaxTitleLength)
    && IsValidStringField(b.author, MaxAuthorLength)
    && (b.year.Some? ==> |b.year.value| <= MaxYearLength)
    && (b.country.Some? ==> |b.country.value| <= MaxCountryLength)
    && (b.originalLanguage.Some? ==> |b.originalLanguage.value| <= MaxLanguageLength)
    && (b.introduction.Some? ==> |b.introduction.value| <= MaxIntroductionLength)
  }

  datatype BookError =
    | BookNotFound
    | Forbidden
    | AdminRequired
    | TitleAndAuthorRequired
    | Invalid(field: FieldError)
    | SelectedInMeet
    | CandidateInMeet
    | CommentRequired
    | CommentTooLong
    | BooksRequired
    | ForeignKeyViolation

  // ---------------------------------------------------------------- the book list

  /** The `readBookIds` set: the selected books of completed meets. */
  function ReadBookIds(meets: map<Id, Meet>): (r: set<Id>)
    ensures forall b :: b in r <==> Meets.SelectedInCompletedMeet(meets, b)
  {
    var r := set id | id in meets && meets[id].phase == Completed && meets[id].selectedBookId.Some?
      :: meets[id].selectedBookId.value;
    assert forall b :: Meets.SelectedInCompletedMeet(meets, b) ==> b in r by {
      forall b | Meets.SelectedInCompletedMeet(meets, b) ensures b in r {
        var id :| id in meets && meets[id].phase == Completed && meets[id].selectedBookId == Some(b);
        assert meets[id].selectedBookId.value == b;
      }
    }
    r
  }

  /** How many candidate rows name `bookId`, counted row by row. */
  function CountOf(candidates: seq<Candidate>, bookId: Id): (r: nat)
    ensures r <= |candidates|
    ensures r == 0 <==> forall k :: 0 <= k < |candidates| ==> candidates[k].bookId != bookId
  {
    if candidates == [] then 0
    else
      var init := candidates[..|candidates| - 1];
      assert forall k :: 0 <= k < |init| ==> init[k] == candidates[k];
      CountOf(init, bookId) + if candidates[|candidates| - 1].bookId == bookId then 1 else 0
  }

  /** The `candidateCounts` map: the `group by book_id` count, one entry per book with a candidate row. */
  function CandidateCounts(candidates: seq<Candidate>): map<Id, nat> {
    if candidates == [] then map[]
    else
      var m := CandidateCounts(candidates[..|candidates| - 1]);
      var b := candidates[|candidates| - 1].bookId;
      m[b := (if b in m then m[b] else 0) + 1]
  }

  /** `candidateCounts.get(id) || 0`. */
  function CandidateCount(counts: map<Id, nat>, bookId: Id): nat {
    if bookId in counts then counts[bookId] else 0
  }

  /** The grouped count agrees with counting the rows, and holds exactly the books that have a candidate row. */
  lemma {:induction false} CandidateCountsAgree(candidates: seq<Candidate>, bookId: Id)
    ensures bookId in CandidateCounts(candidates) <==> CountOf(candidates, bookId) > 0
    ensures CandidateCount(CandidateCounts(candidates), bookId) == CountOf(candidates, bookId)
  {
    if candidates != [] {
      CandidateCountsAgree(candidates[..|candidates| - 1], bookId);
    }
  }

  /** One entry of the book list: the book row with its two derived columns. */
  datatype BookListing = BookListing(book: Book, isRead: bool, candidateCount: nat)

  /** The book list, keyed by book id. */
  function ListBooks(books: map<Id, Book>, meets: map<Id, Meet>, candidates: seq<Candidate>): (r: map<Id, BookListing>)
    ensures r.Keys == books.Keys
    ensures forall id :: id in r ==> r[id].book == books[id]
    ensures forall id :: id in r ==> (r[id].isRead <==> Meets.SelectedInCompletedMeet(meets, id))
    ensures forall id :: id in r ==> r[id].candidateCount == CountOf(candidates, id)
  {
    var read := ReadBookIds(meets);
    var counts := CandidateCounts(candidates);
    forall id ensures CandidateCount(counts, id) == CountOf(candidates, id) {
      CandidateCountsAgree(candidates, id);
    }
    map id | id in books :: BookListing(books[id], id in read, CandidateCount(counts, id))
  }

  // ---------------------------------------------------------------- creation

  /** The checks of the create route: title and author truthy, then `validateBookFields`. */
  function CreateCheck(body: BookFields, validType: string -> bool): (r: Outcome<BookError>)
    ensures r == Pass <==> IsTruthy(body.title) && IsTruthy(body.author) && ValidateBookFields(body, validType) == None
    ensures !IsTruthy(body.title) || !IsTruthy(body.author) ==> r == Fail(TitleAndAuthorRequired)
  {
    if !IsTruthy(body.title) || !IsTruthy(body.author) then Fail(TitleAndAuthorRequired)
    else if ValidateBookFields(body, validType).Some? then Fail(Invalid(ValidateBookFields(body, validType).value))
    else Pass
  }

  /** No optional field holds the empty string: `|| null` turned those into null. */
  predicate NoEmptyOptional(b: Book) {
    && (b.year.Some? ==> b.year.value != "")
    && (b.country.Some? ==> b.country.value != "")
    && (b.originalLanguage.Some? ==> b.originalLanguage.value != "")
    && (b.bookType.Some? ==> b.bookType.value != "")
    && (b.introduction.Some? ==> b.introduction.value != "")
  }

  /** The inserted row: title and author as given, the other fields `|| null`. */
  function NewBook(body: BookFields, addedBy: Id): (r: Book)
    requires body.title.Some? && body.author.Some?
    ensures r.title == body.title.value && r.author == body.author.value && r.addedBy == addedBy
    ensures r.year.Some? <==> IsTruthy(body.year)
    ensures r.country.Some? <==> IsTruthy(body.country)
    ensures r.originalLanguage.Some? <==> IsTruthy(body.originalLanguage)
    ensures r.bookType.Some? <==> IsTruthy(body.bookType)
    ensures r.introduction.Some? <==> IsTruthy(body.introduction)
    ensures r.year.Some? ==> r.year == body.year
    ensures r.country.Some? ==> r.country == body.country
    ensures r.originalLanguage.Some? ==> r.originalLanguage == body.originalLanguage
    ensures r.bookType.Some? ==> r.bookType == body.bookType
    ensures r.introduction.Some? ==> r.introduction == body.introduction
  {
    Book(body.title.value, body.author.value, OrNull(body.year), OrNull(body.country),
      OrNull(body.originalLanguage), OrNull(body.bookType), OrNull(body.introduction), addedBy)
  }

  /** A created book keeps the limits, carries its creator and stores no empty optional field. */
  lemma CreatedBookWithinLimits(body: BookFields, validType: string -> bool, addedBy: Id)
    requires CreateCheck(body, validType) == Pass
    ensures WithinLimits(NewBook(body, addedBy))
    ensures NewBook(body, addedBy).addedBy == addedBy
    ensures NoEmptyOptional(NewBook(body, addedBy))
    ensures NewBook(body, addedBy).bookType.Some? ==> validType(NewBook(body, addedBy).bookType.value)
  {
    assert !Violates(body, validType, InvalidTitle) && !Violates(body, validType, InvalidAuthor);
    assert !Violates(body, validType, YearTooLong) && !Violates(body, validType, CountryTooLong);
    assert !Violates(body, validType, LanguageTooLong) && !Violates(body, validType, InvalidType);
    assert !Violates(body, validType, IntroductionTooLong);
  }

  /** Inserts a book row under a fresh id. */
  method InsertBook(db: Db, book: Book) returns (id: Id)
    requires db.Valid()
    modifies db`books, db`nextId
    ensures db.Valid()
    ensures id !in old(db.books) && db.books == old(db.books)[id := book]
  {
    id := db.FreshId();
    db.books := db.books[id := book];
  }

  /** Creating a book stores it under a fresh id. */
  method CreateBook(db: Db, actor: Actor, body: BookFields, validType: string -> bool) returns (r: Result<Id, BookError>)
    requires db.Valid()
    modifies db`books, db`nextId
    ensures db.Valid()
    ensures CreateCheck(body, validType).Fail? ==>
      r == Err(CreateCheck(body, validType).error) && db.books == old(db.books) && db.nextId == old(db.nextId)
    ensures CreateCheck(body, validType).Pass? ==>
      r.Ok? && r.value !in old(db.books) && db.books == old(db.books)[r.value := NewBook(body, actor.id)]
  {
    var check := CreateCheck(body, validType);
    if check.Fail? {
      return Err(check.error);
    }
    var id := InsertBook(db, NewBook(body, actor.id));
    r := Ok(id);
  }

  // ---------------------------------------------------------------- update

  /** The creator-or-admin rule of update and delete. */
  predicate CanModify(book: Book, actor: Actor) {
    book.addedBy == actor.id || actor.isAdmin
  }

  /** The checks of the update route: the book exists, the caller may modify it, the supplied fields are valid. */
  function UpdateCheck(books: map<Id, Book>, actor: Actor, bookId: Id, body: BookFields, validType: string -> bool): (r: Outcome<BookError>)
    ensures r == Pass <==> bookId in books && CanModify(books[bookId], actor) && ValidateBookFields(body, validType) == None
    ensures bookId !in books ==> r == Fail(BookNotFound)
    ensures bookId in books && !CanModify(books[bookId], actor) ==> r == Fail(Forbidden)
  {
    if bookId !in books then Fail(BookNotFound)
    else if !CanModify(books[bookId], actor) then Fail(Forbidden)
    else if ValidateBookFields(body, validType).Some? then Fail(Invalid(ValidateBookFields(body, validType).value))
    else Pass
  }

  /**
   * The `set` of the update: each supplied field replaces the stored one, title, author and
   * introduction as given and the other three `|| null`; missing fields and the creator are kept.
   */
  function ApplyUpdate(book: Book, body: BookFields): (r: Book)
    ensures r.addedBy == book.addedBy
    ensures body.title.None? ==> r.title == book.title
    ensures body.author.None? ==> r.author == book.author
    ensures body.year.None? ==> r.year == book.year
    ensures body.country.None? ==> r.country == book.country
    ensures body.originalLanguage.None? ==> r.originalLanguage == book.originalLanguage
    ensures body.bookType.None? ==> r.bookType == book.bookType
    ensures body.introduction.None? ==> r.introduction == book.introduction
    ensures body.title.Some? ==> r.title == body.title.value
    ensures body.author.Some? ==> r.author == body.author.value
    ensures body.introduction.Some? ==> r.introduction == body.introduction
    ensures body.year.Some? ==> r.year == OrNull(body.year)
    ensures body.country.Some? ==> r.country == OrNull(body.country)
    ensures body.originalLanguage.Some? ==> r.originalLanguage == OrNull(body.originalLanguage)
    ensures body.bookType.Some? ==> r.bookType == OrNull(body.bookType)
  {
    Book(
      if body.title.Some? then body.title.value else book.title,
      if body.author.Some? then body.author.value else book.author,
      if body.year.Some? then OrNull(body.year) else book.year,
      if body.country.Some? then OrNull(body.country) else book.country,
      if body.originalLanguage.Some? then OrNull(body.originalLanguage) else book.originalLanguage,
      if body.bookType.Some? then OrNull(body.bookType) else book.bookType,
      if body.introduction.Some? then body.introduction else book.introduction,
      book.addedBy)
  }

  /** Sending the same update twice leaves the book as the first one left it. */
  lemma UpdateIdempotent(book: Book, body: BookFields)
    ensures ApplyUpdate(ApplyUpdate(book, body), body) == ApplyUpdate(book, body)
  {
  }

  /** An empty body changes nothing. */
  lemma EmptyUpdateKeepsBook(book: Book)
    ensures ApplyUpdate(book, BookFields(None, None, None, None, None, None, None)) == book
  {
  }

  /** An accepted update keeps a book within the limits. */
  lemma UpdateKeepsLimits(book: Book, body: BookFields, validType: string -> bool)
    requires WithinLimits(book)
    requires ValidateBookFields(body, validType) == None
    ensures WithinLimits(ApplyUpdate(book, body))
  {
    assert !Violates(body, validType, InvalidTitle) && !Violates(body, validType, InvalidAuthor);
    assert !Violates(body, validType, YearTooLong) && !Violates(body, validType, CountryTooLong);
    assert !Violates(body, validType, LanguageTooLong) && !Violates(body, validType, IntroductionTooLong);
  }

  /** Updating a book rewrites that one row. */
  method UpdateBook(db: Db, actor: Actor, bookId: Id, body: BookFields, validType: string -> bool) returns (r: Outcome<BookError>)
    requires db.Valid()
    modifies db`books
    ensures db.Valid()
    ensures r == UpdateCheck(old(db.books), actor, bookId, body, validType)
    ensures r.Fail? ==> db.books == old(db.books)
    ensures r.Pass? ==> db.books == old(db.books)[bookId := ApplyUpdate(old(db.books)[bookId], body)]
  {
    r := UpdateCheck(db.books, actor, bookId, body, validType);
    if r.Pass? {
      db.books := db.books[bookId := ApplyUpdate(db.books[bookId], body)];
    }
  }

  // ---------------------------------------------------------------- deletion

  /** Some meet, in any phase, has selected the book. */
  predicate SelectedInAnyMeet(meets: map<Id, Meet>, bookId: Id) {
    exists id :: id in meets && meets[id].selectedBookId == Some(bookId)
  }

  /** Some meet has the book as a candidate. */
  predicate IsCandidateBook(candidates: seq<Candidate>, bookId: Id) {
    exists k :: 0 <= k < |candidates| && candidates[k].bookId == bookId
  }

  /** Some top-five entry names the book. */
  predicate InTop5(top5: seq<Top5Entry>, bookId: Id) {
    exists k :: 0 <= k < |top5| && top5[k].bookId == bookId
  }

  /** The checks of the delete route, in order: found, creator or admin, not selected, not a candidate. */
  function DeleteCheck(books: map<Id, Book>, meets: map<Id, Meet>, candidates: seq<Candidate>, actor: Actor, bookId: Id): (r: Outcome<BookError>)
    ensures r == Pass <==>
      bookId in books && CanModify(books[bookId], actor)
      && !SelectedInAnyMeet(meets, bookId) && !IsCandidateBook(candidates, bookId)
    ensures bookId !in books ==> r == Fail(BookNotFound)
    ensures bookId in books && !CanModify(books[bookId], actor) ==> r == Fail(Forbidden)
    ensures bookId in books && CanModify(books[bookId], actor) && SelectedInAnyMeet(meets, bookId) ==> r == Fail(SelectedInMeet)
  {
    if bookId !in books then Fail(BookNotFound)
    else if !CanModify(books[bookId], actor) then Fail(Forbidden)
    else if SelectedInAnyMeet(meets, bookId) then Fail(SelectedInMeet)
    else if IsCandidateBook(candidates, bookId) then Fail(CandidateInMeet)
    else Pass
  }

  /** Whether a comment is on another book than `bookId`. */
  function OnOtherBook(bookId: Id): Comment -> bool {
    (c: Comment) => c.bookId != bookId
  }

  /** The comment deletion removes exactly the comments on the book. */
  lemma CommentDeletionExact(comments: seq<Comment>, bookId: Id)
    ensures forall c :: c in Filter(comments, OnOtherBook(bookId)) <==> c in comments && c.bookId != bookId
  {
  }

  /**
   * Deleting a book: after the checks the comments on it are deleted, then the book row. That
   * second statement fails the foreign key of a top-five entry naming the book (without a
   * transaction the comments stay deleted); a user list entry would be removed by its cascade,
   * and that table is not part of this model.
   */
  method DeleteBook(db: Db, actor: Actor, bookId: Id) returns (r: Outcome<BookError>)
    requires db.Valid()
    modifies db`books, db`comments
    ensures db.Valid()
    ensures DeleteCheck(old(db.books), db.meets, db.candidates, actor, bookId).Fail? ==>
      r == DeleteCheck(old(db.books), db.meets, db.candidates, actor, bookId)
      && db.books == old(db.books) && db.comments == old(db.comments)
    ensures DeleteCheck(old(db.books), db.meets, db.candidates, actor, bookId).Pass? ==>
      && db.comments == Filter(old(db.comments), OnOtherBook(bookId))
      && (r == Pass <==> !InTop5(db.top5, bookId))
      && (r.Pass? ==> db.books == old(db.books) - {bookId})
      && (r.Fail? ==> r.error == ForeignKeyViolation && db.books == old(db.books))
  {
    r := DeleteCheck(db.books, db.meets, db.candidates, actor, bookId);
    if r.Fail? {
      return;
    }
    db.comments := Filter(db.comments, OnOtherBook(bookId));
    if InTop5(db.top5, bookId) {
      return Fail(ForeignKeyViolation);
    }
    db.books := db.books - {bookId};
  }

  // ---------------------------------------------------------------- comments

  /** The content checks of the comment route: something besides whitespace, then at most 2000 characters untrimmed. */
  function CommentCheck(content: Option<string>): (r: Result<string, BookError>)
    ensures r.Ok? <==> content.Some? && !AllWhitespace(content.value) && |content.value| <= MaxCommentLength
    ensures content.None? || AllWhitespace(content.value) ==> r == Err(CommentRequired)
    ensures r.Err? ==> r.error == CommentRequired || r.error == CommentTooLong
    ensures r.Ok? ==> r.value == Trim(content.value)
    ensures r.Ok? ==> r.value != [] && IsTrimmed(r.value) && |r.value| <= MaxCommentLength
  {
    if content.None? || Trim(content.value) == [] then Err(CommentRequired)
    else if |content.value| > MaxCommentLength then Err(CommentTooLong)
    else Ok(Trim(content.value))
  }

  /** Adding a comment appends the trimmed content under the caller's name. */
  method AddComment(db: Db, actor: Actor, bookId: Id, content: Option<string>) returns (r: Result<Comment, BookError>)
    requires db.Valid()
    modifies db`comments
    ensures db.Valid()
    ensures bookId !in db.books ==> r == Err(BookNotFound) && db.comments == old(db.comments)
    ensures bookId in db.books && CommentCheck(content).Err? ==>
      r == Err(CommentCheck(content).error) && db.comments == old(db.comments)
    ensures bookId in db.books && CommentCheck(content).Ok? ==>
      r == Ok(Comment(bookId, actor.id, CommentCheck(content).value)) && db.comments == old(db.comments) + [r.value]
  {
    if bookId !in db.books {
      return Err(BookNotFound);
    }
    var checked := CommentCheck(content);
    if checked.Err? {
      return Err(checked.error);
    }
    var comment := Comment(bookId, actor.id, checked.value);
    db.comments := db.comments + [comment];
    r := Ok(comment);
  }

  // ---------------------------------------------------------------- bulk import

  /**
   * Why an import row is refused, if it is: title or author blank after trimming, then
   * `validateBookFields` on the row as sent (untrimmed).
   */
  function RowError(row: BookFields, validType: string -> bool): (r: Option<BookError>)
    ensures r.None? <==>
      && row.title.Some? && !AllWhitespace(row.title.value)
      && row.author.Some? && !AllWhitespace(row.author.value)
      && ValidateBookFields(row, validType) == None
    ensures !IsTruthy(TrimOpt(row.title)) || !IsTruthy(TrimOpt(row.author)) ==> r == Some(TitleAndAuthorRequired)
  {
    if !IsTruthy(TrimOpt(row.title)) || !IsTruthy(TrimOpt(row.author)) then Some(TitleAndAuthorRequired)
    else if ValidateBookFields(row, validType).Some? then Some(Invalid(ValidateBookFields(row, validType).value))
    else None
  }

  /** The row an accepted import row inserts: every field trimmed, the optional ones `|| null`. */
  function ImportedBook(row: BookFields, addedBy: Id): Book
    requires row.title.Some? && row.author.Some?
  {
    Book(Trim(row.title.value), Trim(row.author.value), OrNull(TrimOpt(row.year)), OrNull(TrimOpt(row.country)),
      OrNull(TrimOpt(row.originalLanguage)), OrNull(TrimOpt(row.bookType)), OrNull(TrimOpt(row.introduction)), addedBy)
  }

  /** A stored optional field: absent, or non-empty without surrounding whitespace. */
  ghost predicate NullOrTrimmed(v: Option<string>) {
    v.Some? ==> v.value != [] && IsTrimmed(v.value)
  }

  /** An imported book keeps the limits. */
  lemma ImportedBookWithinLimits(row: BookFields, validType: string -> bool, addedBy: Id)
    requires RowError(row, validType).None?
    ensures WithinLimits(ImportedBook(row, addedBy))
  {
    assert !Violates(row, validType, InvalidTitle) && !Violates(row, validType, InvalidAuthor);
    assert !Violates(row, validType, YearTooLong) && !Violates(row, validType, CountryTooLong);
    assert !Violates(row, validType, LanguageTooLong) && !Violates(row, validType, IntroductionTooLong);
    TrimmedFieldValid(row.title.value, MaxTitleLength);
    TrimmedFieldValid(row.author.value, MaxAuthorLength);
    TrimmedWithin(row.year, MaxYearLength);
    TrimmedWithin(row.country, MaxCountryLength);
    TrimmedWithin(row.originalLanguage, MaxLanguageLength);
    TrimmedWithin(row.introduction, MaxIntroductionLength);
  }

  /** An imported book stores only trimmed text and never an empty optional field. */
  lemma ImportedBookTrimmed(row: BookFields, addedBy: Id)
    requires row.title.Some? && row.author.Some?
    ensures IsTrimmed(ImportedBook(row, addedBy).title) && IsTrimmed(ImportedBook(row, addedBy).author)
    ensures NullOrTrimmed(ImportedBook(row, addedBy).year) && NullOrTrimmed(ImportedBook(row, addedBy).country)
    ensures NullOrTrimmed(ImportedBook(row, addedBy).originalLanguage) && NullOrTrimmed(ImportedBook(row, addedBy).bookType)
    ensures NullOrTrimmed(ImportedBook(row, addedBy).introduction)
  {
    TrimmedOrNull(row.year);
    TrimmedOrNull(row.country);
    TrimmedOrNull(row.originalLanguage);
    TrimmedOrNull(row.bookType);
    TrimmedOrNull(row.introduction);
  }

  /** Trimming a valid string field leaves a valid, trimmed field. */
  lemma TrimmedFieldValid(s: string, limit: nat)
    requires IsValidStringField(s, limit)
    ensures IsValidStringField(Trim(s), limit) && IsTrimmed(Trim(s))
  {
    assert !IsWhitespace(Trim(s)[0]);
  }

  /** `v?.trim() || null` of a field that passed its length check is absent or within the limit. */
  lemma TrimmedWithin(v: Option<string>, limit: nat)
    requires !TooLong(v, limit)
    ensures OrNull(TrimOpt(v)).Some? ==> |OrNull(TrimOpt(v)).value| <= limit
  {
  }

  lemma TrimmedOrNull(v: Option<string>)
    ensures NullOrTrimmed(OrNull(TrimOpt(v)))
  {
  }

  /** One entry of the import's `errors` array: the 1-based row number and the reason. */
  datatype ImportError = ImportError(row: nat, error: BookError)

  /** What one import row comes to: the book row it inserts, or the reason it is refused. */
  function ImportRow(row: BookFields, addedBy: Id, validType: string -> bool): (r: Result<Book, BookError>)
    ensures r.Err? <==> RowError(row, validType).Some?
    ensures r.Err? ==> r.error == RowError(row, validType).value
    ensures r.Ok? ==> r.value == ImportedBook(row, addedBy)
  {
    var e := RowError(row, validType);
    if e.Some? then Err(e.value) else Ok(ImportedBook(row, addedBy))
  }

  /** Each row's outcome, in row order. */
  function RowOutcomes(rows: seq<BookFields>, addedBy: Id, validType: string -> bool): (r: seq<Result<Book, BookError>>)
    ensures |r| == |rows|
    ensures forall i :: 0 <= i < |rows| ==> r[i] == ImportRow(rows[i], addedBy, validType)
  {
    seq(|rows|, i requires 0 <= i < |rows| => ImportRow(rows[i], addedBy, validType))
  }

  /** The `errors` array for rows with these outcomes: the refused rows, numbered from 1. */
  function ImportErrors(outcomes: seq<Result<Book, BookError>>): seq<ImportError> {
    if outcomes == [] then []
    else
      var init := ImportErrors(outcomes[..|outcomes| - 1]);
      var e := outcomes[|outcomes| - 1];
      if e.Err? then init + [ImportError(|outcomes|, e.error)] else init
  }

  /** The `imported` count for rows with these outcomes. */
  function ImportedCount(outcomes: seq<Result<Book, BookError>>): nat {
    if outcomes == [] then 0
    else ImportedCount(outcomes[..|outcomes| - 1]) + if outcomes[|outcomes| - 1].Ok? then 1 else 0
  }

  /** Every row is either imported or reported. */
  lemma {:induction false} ImportAccountsForEveryRow(outcomes: seq<Result<Book, BookError>>)
    ensures ImportedCount(outcomes) + |ImportErrors(outcomes)| == |outcomes|
  {
    if outcomes != [] {
      ImportAccountsForEveryRow(outcomes[..|outcomes| - 1]);
    }
  }

  /** Each report names a refused row and gives its reason. */
  ghost predicate ReportsAreExact(outcomes: seq<Result<Book, BookError>>, errors: seq<ImportError>) {
    forall k :: 0 <= k < |errors| ==>
      1 <= errors[k].row <= |outcomes| && outcomes[errors[k].row - 1] == Err(errors[k].error)
  }

  ghost predicate Ascending(errors: seq<ImportError>) {
    forall j, k :: 0 <= j < k < |errors| ==> errors[j].row < errors[k].row
  }

  /** Every refused row has a report. */
  ghost predicate ReportsEveryRefusal(outcomes: seq<Result<Book, BookError>>, errors: seq<ImportError>) {
    forall i :: 0 <= i < |outcomes| && outcomes[i].Err? ==> exists k :: 0 <= k < |errors| && errors[k].row == i + 1
  }

  /** Each report names a refused row with its reason. */
  lemma {:induction false} ImportErrorsExact(outcomes: seq<Result<Book, BookError>>)
    ensures ReportsAreExact(outcomes, ImportErrors(outcomes))
  {
    if outcomes != [] {
      var init := outcomes[..|outcomes| - 1];
      ImportErrorsExact(init);
      var errs := ImportErrors(init);
      var e := outcomes[|outcomes| - 1];
      var all := ImportErrors(outcomes);
      assert all == if e.Err? then errs + [ImportError(|outcomes|, e.error)] else errs;
      forall k | 0 <= k < |all|
        ensures 1 <= all[k].row <= |outcomes| && outcomes[all[k].row - 1] == Err(all[k].error)
      {
        if k < |errs| {
          assert all[k] == errs[k];
          assert outcomes[all[k].row - 1] == init[all[k].row - 1];
        }
      }
    }
  }

  /** The reports name their rows in ascending order. */
  lemma {:induction false} ImportErrorsAscending(outcomes: seq<Result<Book, BookError>>)
    ensures Ascending(ImportErrors(outcomes))
  {
    if outcomes != [] {
      var init := outcomes[..|outcomes| - 1];
      ImportErrorsAscending(init);
      ImportErrorsExact(init);
      var errs := ImportErrors(init);
      var e := outcomes[|outcomes| - 1];
      if e.Err? {
        var all := errs + [ImportError(|outcomes|, e.error)];
        assert forall k :: 0 <= k < |errs| ==> all[k] == errs[k] && errs[k].row <= |init|;
      }
    }
  }

  /** Every refused row is reported. */
  lemma {:induction false} ImportReportsEveryRefusal(outcomes: seq<Result<Book, BookError>>)
    ensures ReportsEveryRefusal(outcomes, ImportErrors(outcomes))
  {
    if outcomes != [] {
      var init := outcomes[..|outcomes| - 1];
      ImportReportsEveryRefusal(init);
      var errs := ImportErrors(init);
      var e := outcomes[|outcomes| - 1];
      var all := ImportErrors(outcomes);
      assert all == if e.Err? then errs + [ImportError(|outcomes|, e.error)] else errs;
      forall i | 0 <= i < |outcomes| && outcomes[i].Err?
        ensures exists k :: 0 <= k < |all| && all[k].row == i + 1
      {
        if i == |outcomes| - 1 {
          assert all[|errs|].row == i + 1;
        } else {
          assert init[i] == outcomes[i];
          var k :| 0 <= k < |errs| && errs[k].row == i + 1;
          assert all[k].row == i + 1;
        }
      }
    }
  }

  /**
   * The bulk import (admin only): each row is checked on its own; an accepted row is inserted
   * under a fresh id, a refused one is reported with its 1-based number, and the loop goes on.
   */
  method ImportBooks(db: Db, actor: Actor, rows: Option<seq<BookFields>>, validType: string -> bool)
    returns (r: Result<(nat, seq<ImportError>), BookError>, ghost ids: seq<Id>)
    requires db.Valid()
    modifies db`books, db`nextId
    ensures db.Valid()
    ensures !actor.isAdmin ==> r == Err(AdminRequired) && db.books == old(db.books)
    ensures actor.isAdmin && rows.None? ==> r == Err(BooksRequired) && db.books == old(db.books)
    ensures actor.isAdmin && rows.Some? ==>
      var outcomes := RowOutcomes(rows.value, actor.id, validType);
      r == Ok((ImportedCount(outcomes), ImportErrors(outcomes)))
    ensures forall id :: id in old(db.books) ==> id in db.books && db.books[id] == old(db.books)[id]
    ensures r.Ok? ==> |db.books| == |old(db.books)| + r.value.0
    ensures forall id :: id in db.books && id !in old(db.books) ==>
      exists i :: 0 <= i < |rows.value| && ImportRow(rows.value[i], actor.id, validType) == Ok(db.books[id])
    ensures r.Ok? ==> |ids| == |rows.value|
    ensures r.Ok? ==> forall i :: 0 <= i < |ids| && ImportRow(rows.value[i], actor.id, validType).Ok? ==>
      ids[i] !in old(db.books) && ids[i] in db.books && db.books[ids[i]] == ImportRow(rows.value[i], actor.id, validType).value
    ensures r.Ok? ==> forall i, j ::
      (0 <= i < j < |ids| && ImportRow(rows.value[i], actor.id, validType).Ok? &&
       ImportRow(rows.value[j], actor.id, validType).Ok?) ==> ids[i] != ids[j]
  {
    ids := [];
    if !actor.isAdmin {
      return Err(AdminRequired), ids;
    }
    if rows.None? {
      return Err(BooksRequired), ids;
    }
    var outcomes := RowOutcomes(rows.value, actor.id, validType);
    var imported, errors;
    imported, errors, ids := ImportRows(db, outcomes);
    r := Ok((imported, errors));
  }

  /**
   * How the book table after the first `|ids|` rows relates to the one before: old books are
   * kept, each accepted row's book sits under its own id `ids[j]`, no two accepted rows share
   * an id, and every new id is one of those.
   */
  ghost predicate ImportedAs(before: map<Id, Book>, books: map<Id, Book>, outcomes: seq<Result<Book, BookError>>, ids: seq<Id>) {
    && |ids| <= |outcomes|
    && (forall id :: id in before ==> id in books && books[id] == before[id])
    && (forall j :: 0 <= j < |ids| && outcomes[j].Ok? ==>
          ids[j] !in before && ids[j] in books && books[ids[j]] == outcomes[j].value)
    && (forall j, k :: 0 <= j < k < |ids| && outcomes[j].Ok? && outcomes[k].Ok? ==> ids[j] != ids[k])
    && (forall id :: id in books && id !in before ==> exists j :: 0 <= j < |ids| && outcomes[j].Ok? && ids[j] == id)
  }

  /** A refused row inserts nothing. */
  lemma RefusedRowStep(before: map<Id, Book>, books: map<Id, Book>, outcomes: seq<Result<Book, BookError>>, ids: seq<Id>)
    requires ImportedAs(before, books, outcomes, ids) && |ids| < |outcomes| && outcomes[|ids|].Err?
    ensures ImportedAs(before, books, outcomes, ids + [0])
  {
    var ids' := ids + [0];
    forall id | id in books && id !in before
      ensures exists j :: 0 <= j < |ids'| && outcomes[j].Ok? && ids'[j] == id
    {
      var j :| 0 <= j < |ids| && outcomes[j].Ok? && ids[j] == id;
      assert ids'[j] == ids[j];
    }
  }

  /** An accepted row inserts its book under an id no book had. */
  lemma AcceptedRowStep(before: map<Id, Book>, books: map<Id, Book>, outcomes: seq<Result<Book, BookError>>,
                        ids: seq<Id>, id: Id)
    requires ImportedAs(before, books, outcomes, ids) && |ids| < |outcomes| && outcomes[|ids|].Ok?
    requires id !in books
    ensures ImportedAs(before, books[id := outcomes[|ids|].value], outcomes, ids + [id])
  {
    var ids' := ids + [id];
    var books' := books[id := outcomes[|ids|].value];
    forall id' | id' in books' && id' !in before
      ensures exists j :: 0 <= j < |ids'| && outcomes[j].Ok? && ids'[j] == id'
    {
      if id' != id {
        var j :| 0 <= j < |ids| && outcomes[j].Ok? && ids[j] == id';
        assert ids'[j] == ids[j];
      } else {
        assert ids'[|ids|] == id;
      }
    }
    forall j | 0 <= j < |ids'| && outcomes[j].Ok?
      ensures ids'[j] !in before && ids'[j] in books' && books'[ids'[j]] == outcomes[j].value
    {
      if j < |ids| {
        assert ids'[j] == ids[j];
      }
    }
  }

  /** The loop of the import: inserts the book of each accepted row and reports the others. */
  method ImportRows(db: Db, outcomes: seq<Result<Book, BookError>>)
    returns (imported: nat, errors: seq<ImportError>, ghost ids: seq<Id>)
    requires db.Valid()
    modifies db`books, db`nextId
    ensures db.Valid()
    ensures imported == ImportedCount(outcomes) && errors == ImportErrors(outcomes)
    ensures |db.books| == |old(db.books)| + imported
    ensures |ids| == |outcomes| && ImportedAs(old(db.books), db.books, outcomes, ids)
  {
    imported, errors, ids := 0, [], [];
    for i := 0 to |outcomes|
      invariant db.Valid()
      invariant imported == ImportedCount(outcomes[..i])
      invariant errors == ImportErrors(outcomes[..i])
      invariant |db.books| == |old(db.books)| + imported
      invariant |ids| == i && ImportedAs(old(db.books), db.books, outcomes, ids)
    {
      assert outcomes[..i + 1][..i] == outcomes[..i];
      if outcomes[i].Err? {
        RefusedRowStep(old(db.books), db.books, outcomes, ids);
        errors := errors + [ImportError(i + 1, outcomes[i].error)];
        ids := ids + [0];
      } else {
        ghost var pre := db.books;
        var id := InsertBook(db, outcomes[i].value);
        AcceptedRowStep(old(db.books), pre, outcomes, ids, id);
        imported := imported + 1;
        ids := ids + [id];
      }
    }
    assert outcomes[..|outcomes|] == outcomes;
  }
}
