/** The request body of book creation and the checks run on it before a book is stored:
    the data-annotation attributes on its four properties and its own `Validate`. */
module BookValidation {
  import opened Primitives
  import opened Text

  /** `[MaxLength(200)]` on Title and Author. */
  const MaxTextLength: nat := 200

  /** The JSON body of `POST /books`. A string property that the body leaves out or sets to
      null is `None`; a missing page count binds to 0. */
  datatype PostBookCreate = PostBookCreate(
    title: Option<string>,
    author: Option<string>,
    genre: Option<string>,
    numberOfPages: Int32)

  /** A failed data-annotation attribute, with the name of the property it decorates. */
  datatype AttributeError =
    | RequiredFailed(memberName: string)
    | MaxLengthFailed(memberName: string, maxLength: nat)
    | RangeFailed(memberName: string, minimum: int, maximum: int)

  /** `[Required]` on a string: not null, not empty and not only white space. */
  predicate Present(s: Option<string>) { !IsNullOrWhiteSpace(s) }

  /** `[MaxLength(max)]`: a null value passes, a string passes when it is short enough. */
  predicate WithinMaxLength(s: Option<string>, max: nat) { s.None? || |s.value| <= max }

  /** `[Range(lo, hi)]` on an `int`. */
  predicate InRange(n: Int32, lo: int, hi: int) { lo <= n as int <= hi }

  /** Every attribute on every property holds. */
  predicate AttributesHold(p: PostBookCreate)
  {
    && Present(p.title) && |p.title.value| <= MaxTextLength
    && Present(p.author) && |p.author.value| <= MaxTextLength
    && Present(p.genre)
    && 1 <= p.numberOfPages <= Int32MaxValue
  }

  /** The string property of the body with the given name. */
  function StringProperty(p: PostBookCreate, name: string): Option<string>
  {
    if name == "Title" then p.title
    else if name == "Author" then p.author
    else if name == "Genre" then p.genre
    else None
  }

  /** `e` is the error of an attribute that the body declares and that fails on `p`. */
  predicate Violates(p: PostBookCreate, e: AttributeError)
  {
    match e
    case RequiredFailed(name) =>
      (name == "Title" || name == "Author" || name == "Genre") && !Present(StringProperty(p, name))
    case MaxLengthFailed(name, max) =>
      (name == "Title" || name == "Author") && max == MaxTextLength
      && !WithinMaxLength(StringProperty(p, name), max)
    case RangeFailed(name, lo, hi) =>
      name == "NumberOfPages" && lo == 1 && hi == Int32MaxValue as int && !InRange(p.numberOfPages, lo, hi)
  }

  function RequiredCheck(name: string, s: Option<string>): seq<AttributeError>
  {
    if Present(s) then [] else [RequiredFailed(name)]
  }

  function MaxLengthCheck(name: string, s: Option<string>, max: nat): seq<AttributeError>
  {
    if WithinMaxLength(s, max) then [] else [MaxLengthFailed(name, max)]
  }

  function RangeCheck(name: string, n: Int32, lo: int, hi: int): seq<AttributeError>
  {
    if InRange(n, lo, hi) then [] else [RangeFailed(name, lo, hi)]
  }

  /** The attribute checks, property by property in declaration order. */
  function AttributeChecks(p: PostBookCreate): seq<AttributeError>
  {
    RequiredCheck("Title", p.title) + MaxLengthCheck("Title", p.title, MaxTextLength)
    + RequiredCheck("Author", p.author) + MaxLengthCheck("Author", p.author, MaxTextLength)
    + RequiredCheck("Genre", p.genre)
    + RangeCheck("NumberOfPages", p.numberOfPages, 1, Int32MaxValue as int)
  }

  /** Every violated attribute is reported by the checks. */
  lemma ViolationsReported(p: PostBookCreate, e: AttributeError)
    requires Violates(p, e)
    ensures e in AttributeChecks(p)
  {
    match e
    case RequiredFailed(name) =>
      if name == "Title" {} else if name == "Author" {} else {}
    case MaxLengthFailed(name, _) =>
      if name == "Title" {} else {}
    case RangeFailed(_, _, _) =>
  }

  /** The errors of the attribute checks: exactly the violated attributes, and none at all
      exactly when every attribute holds. */
  function AttributeErrors(p: PostBookCreate): (r: seq<AttributeError>)
    ensures forall e :: e in r <==> Violates(p, e)
    ensures r == [] <==> AttributesHold(p)
  {
    assert forall e :: Violates(p, e) ==> e in AttributeChecks(p) by {
      forall e | Violates(p, e) ensures e in AttributeChecks(p) {
        ViolationsReported(p, e);
      }
    }
    AttributeChecks(p)
  }

  /** A result of `IValidatableObject.Validate`: a message and the properties it concerns. */
  datatype ValidationResult = ValidationResult(errorMessage: string, memberNames: seq<string>)

  /** Rule A's result, tagged with Title and Author. */
  const HatedBookResult := ValidationResult("I hate that book", ["Title", "Author"])

  /** Rule B's result, tagged with Genre and NumberOfPages. */
  const LongNonFictionResult := ValidationResult("give me a break", ["Genre", "NumberOfPages"])

  /** Rule A: the title lowers to "it" and the author to "king". */
  predicate IsHatedBook(title: string, author: string)
  {
    Lower(title) == "it" && Lower(author) == "king"
  }

  /** Rule B: the genre lowers to "non-fiction" and the book has more than 500 pages. */
  predicate IsLongNonFiction(genre: string, numberOfPages: Int32)
  {
    Lower(genre) == "non-fiction" && numberOfPages > 500
  }

  /** The cross-field rules. The strings must not be null: the method dereferences them. Rule A
      yields its result exactly when it fires, rule B likewise, nothing else is yielded, and
      rule A's result comes first. Being a function of the body, it changes no property. */
  function Validate(p: PostBookCreate): (r: seq<ValidationResult>)
    requires p.title.Some? && p.author.Some? && p.genre.Some?
    ensures |r| <= 2
    ensures HatedBookResult in r <==> IsHatedBook(p.title.value, p.author.value)
    ensures LongNonFictionResult in r <==> IsLongNonFiction(p.genre.value, p.numberOfPages)
    ensures forall v :: v in r ==> v == HatedBookResult || v == LongNonFictionResult
    ensures |r| == 2 ==> r == [HatedBookResult, LongNonFictionResult]
  {
    (if IsHatedBook(p.title.value, p.author.value) then [HatedBookResult] else [])
    + (if IsLongNonFiction(p.genre.value, p.numberOfPages) then [LongNonFictionResult] else [])
  }

  /** The errors model binding records for a creation body. The type-level `Validate` runs only
      when every property passed its attributes (it would dereference a null string otherwise). */
  datatype ModelState = ModelState(attributeErrors: seq<AttributeError>, validationResults: seq<ValidationResult>)
  {
    predicate IsValid() { attributeErrors == [] && validationResults == [] }
  }

  /** The model state of a creation body: exactly the violated attributes, the cross-field
      results when every attribute holds (none otherwise), and valid exactly when every attribute
      holds and neither cross-field rule fires. */
  function BindModel(p: PostBookCreate): (m: ModelState)
    ensures forall e :: e in m.attributeErrors <==> Violates(p, e)
    ensures m.validationResults == if AttributesHold(p) then Validate(p) else []
    ensures m.IsValid() <==>
      && AttributesHold(p)
      && !IsHatedBook(p.title.value, p.author.value)
      && !IsLongNonFiction(p.genre.value, p.numberOfPages)
  {
    var errors := AttributeErrors(p);
    ModelState(errors, if errors == [] then Validate(p) else [])
  }

  /** Rule A, stated without lower-casing: the title is "it" and the author "king" up to the
      case of their letters. */
  lemma HatedBookIgnoringCase(title: string, author: string)
    ensures IsHatedBook(title, author) <==>
      EqualIgnoringCase(title, "it") && EqualIgnoringCase(author, "king")
  {
    LowerMatchesWord(title, "it");
    LowerMatchesWord(author, "king");
  }

  /** Rule B, stated without lower-casing: the genre is "non-fiction" up to case and the book
      has at least 501 pages. */
  lemma LongNonFictionIgnoringCase(genre: string, numberOfPages: Int32)
    ensures IsLongNonFiction(genre, numberOfPages) <==>
      EqualIgnoringCase(genre, "non-fiction") && numberOfPages >= 501
  {
    LowerMatchesWord(genre, "non-fiction");
  }

  /** Changing the letter case of Title, Author or Genre changes nothing `Validate` yields. */
  lemma ValidateIgnoresCase(p: PostBookCreate, q: PostBookCreate)
    requires p.title.Some? && p.author.Some? && p.genre.Some?
    requires q.title.Some? && q.author.Some? && q.genre.Some?
    requires EqualIgnoringCase(p.title.value, q.title.value)
    requires EqualIgnoringCase(p.author.value, q.author.value)
    requires EqualIgnoringCase(p.genre.value, q.genre.value)
    requires p.numberOfPages == q.numberOfPages
    ensures Validate(p) == Validate(q)
  {
    LowerEqualIff(p.title.value, q.title.value);
    LowerEqualIff(p.author.value, q.author.value);
    LowerEqualIff(p.genre.value, q.genre.value);
  }

  /** For a non-fiction book, 500 pages draws no rule-B result and 501 pages does. */
  lemma NonFictionPageBoundary(p: PostBookCreate)
    requires p.title.Some? && p.author.Some? && p.genre.Some?
    requires EqualIgnoringCase(p.genre.value, "non-fiction")
    ensures LongNonFictionResult !in Validate(p.(numberOfPages := 500))
    ensures LongNonFictionResult in Validate(p.(numberOfPages := 501))
  {
    LowerMatchesWord(p.genre.value, "non-fiction");
  }

  /** A book with no pages or a negative page count is refused; one page is enough. */
  lemma PageCountBoundary(p: PostBookCreate)
    ensures p.numberOfPages <= 0 ==> !BindModel(p).IsValid()
    ensures RangeFailed("NumberOfPages", 1, Int32MaxValue as int) in AttributeErrors(p) <==> p.numberOfPages < 1
  {
  }

  /** "It" by "King" is refused with rule A's result, naming Title and Author. */
  lemma ItByKingRefused()
    ensures BindModel(PostBookCreate(Some("It"), Some("King"), Some("Horror"), 400))
      == ModelState([], [HatedBookResult])
  {
    var p := PostBookCreate(Some("It"), Some("King"), Some("Horror"), 400);
    HatedBookIgnoringCase("It", "King");
    LongNonFictionIgnoringCase("Horror", 400);
    assert !IsWhiteSpace("It"[0]) && !IsWhiteSpace("King"[0]) && !IsWhiteSpace("Horror"[0]);
  }

  /** "Non-Fiction" is the genre named by rule B, up to case. */
  lemma NonFictionCapitalised()
    ensures EqualIgnoringCase("Non-Fiction", "non-fiction")
  {
    var genre := "Non-Fiction";
    forall i | 0 <= i < |genre| ensures LowerChar(genre[i]) == LowerChar("non-fiction"[i]) {
      if i == 0 || i == 4 { } else { assert genre[i] == "non-fiction"[i]; }
    }
  }

  /** A 501-page "Non-Fiction" book is refused with rule B's result. */
  lemma NonFiction501Refused()
    ensures BindModel(PostBookCreate(Some("X"), Some("Y"), Some("Non-Fiction"), 501))
      == ModelState([], [LongNonFictionResult])
  {
    var p := PostBookCreate(Some("X"), Some("Y"), Some("Non-Fiction"), 501);
    HatedBookIgnoringCase("X", "Y");
    NonFictionCapitalised();
    LongNonFictionIgnoringCase("Non-Fiction", 501);
    assert !IsWhiteSpace("X"[0]) && !IsWhiteSpace("Y"[0]) && !IsWhiteSpace("Non-Fiction"[0]);
    assert AttributeErrors(p) == [];
    assert Validate(p) == [LongNonFictionResult];
  }

  /** The same book with 500 pages is accepted. */
  lemma NonFiction500Accepted()
    ensures BindModel(PostBookCreate(Some("X"), Some("Y"), Some("Non-Fiction"), 500)).IsValid()
  {
    HatedBookIgnoringCase("X", "Y");
    LongNonFictionIgnoringCase("Non-Fiction", 500);
    assert !IsWhiteSpace("X"[0]) && !IsWhiteSpace("Y"[0]) && !IsWhiteSpace("Non-Fiction"[0]);
  }
}
