/**
 * The Book record and the field rules declared for it with `Book.init`.
 *
 * Validation follows the order in which the ORM collects its messages: first one
 * message per required field that is null or missing (taken from that field's
 * `notNull` rule), then, field by field and rule by rule in declaration order, one
 * message per built-in rule that a present value breaks.
 */
module BookModel {
  import opened Wrappers

  /** One field of a submitted body: the key is missing, is null, or carries text. */
  datatype FieldValue = Missing | Null | Text(text: string)

  /** The body of a create or update request: the four declared attributes. */
  datatype BookInput = BookInput(title: FieldValue, author: FieldValue, genre: FieldValue, year: FieldValue)

  /** A stored record; the year is kept as the text it was submitted as. */
  datatype Book = Book(title: string, author: string, genre: Option<string>, year: string)

  /** A row of the books table: the generated id and the record. */
  datatype Row = Row(id: int, book: Book)

  /** The rule messages declared for the record. */
  datatype Message = TitleRequired | AuthorRequired | YearNotNumber | YearRequired {
    /** The text shown for the message; it opens with the name of the field it is about. */
    function Text(): (text: string)
      ensures TitleRequired? ==> |text| > 5 && text[..5] == "Title"
      ensures AuthorRequired? ==> |text| > 6 && text[..6] == "Author"
      ensures YearNotNumber? || YearRequired? ==> |text| > 4 && text[..4] == "Year"
    {
      match this
      case TitleRequired => "Title is required"
      case AuthorRequired => "Author is required"
      case YearNotNumber => "Year must be a number"
      case YearRequired => "Year published is required"
    }
  }

  /** The characters matched by `\s` in a JavaScript regular expression. */
  predicate IsSpace(c: char) {
    c == ' ' || c == '\t' || c == '\n' || c == '\r' || c == '\U{000B}' || c == '\U{000C}' ||
    c == '\U{00A0}' || c == '\U{1680}' || ('\U{2000}' <= c <= '\U{200A}') ||
    c == '\U{2028}' || c == '\U{2029}' || c == '\U{202F}' || c == '\U{205F}' ||
    c == '\U{3000}' || c == '\U{FEFF}'
  }

  /** What the `notEmpty` rule rejects: a text made of white space only, the empty text included. */
  predicate IsBlank(s: string)
    ensures s == [] ==> IsBlank(s)
    ensures IsBlank(s) ==> forall i :: 0 <= i < |s| ==> !IsDigit(s[i]) && s[i] != '.'
  {
    forall i :: 0 <= i < |s| ==> IsSpace(s[i])
  }

  predicate IsDigit(c: char) {
    '0' <= c <= '9'
  }

  predicate AllDigits(s: string) {
    forall i :: 0 <= i < |s| ==> IsDigit(s[i])
  }

  /** The text after one optional leading sign. */
  function Unsigned(s: string): (t: string)
    ensures |t| <= |s|
  {
    if |s| > 0 && (s[0] == '+' || s[0] == '-') then s[1..] else s
  }

  /**
   * What the `isNumeric` rule accepts: an optional sign, then either digits only,
   * or digits, one decimal point and at least one more digit
   * (the pattern ^[+-]?([0-9]*[.])?[0-9]+$).
   */
  predicate IsNumeric(s: string)
    ensures IsNumeric(s) ==> |s| > 0 && IsDigit(s[|s| - 1])
    ensures AllDigits(s) ==> (IsNumeric(s) <==> |s| > 0)
  {
    var t := Unsigned(s);
    (|t| > 0 && AllDigits(t)) ||
    exists k :: 0 <= k < |t| - 1 && t[k] == '.' && AllDigits(t[..k]) && AllDigits(t[k + 1..])
  }

  /** A field that passes both `notNull` and `notEmpty`. */
  predicate Filled(f: FieldValue) {
    f.Text? && !IsBlank(f.text)
  }

  /** An input that every declared rule accepts. */
  predicate Admissible(input: BookInput) {
    Filled(input.title) && Filled(input.author) && input.year.Text? && IsNumeric(input.year.text)
  }

  /** The invariant of every stored record. */
  predicate Admitted(b: Book) {
    !IsBlank(b.title) && !IsBlank(b.author) && IsNumeric(b.year)
  }

  /** Messages of the `allowNull: false` check, for title, author and year in that order. */
  function NullViolations(input: BookInput): seq<Message> {
    (if input.title.Text? then [] else [TitleRequired]) +
    (if input.author.Text? then [] else [AuthorRequired]) +
    (if input.year.Text? then [] else [YearRequired])
  }

  /** Messages of the built-in rules run on present values: title and author `notEmpty`; year `isNumeric`, then `notEmpty`. */
  function RuleViolations(input: BookInput): seq<Message> {
    (if input.title.Text? && IsBlank(input.title.text) then [TitleRequired] else []) +
    (if input.author.Text? && IsBlank(input.author.text) then [AuthorRequired] else []) +
    (if input.year.Text? then
       (if IsNumeric(input.year.text) then [] else [YearNotNumber]) +
       (if IsBlank(input.year.text) then [YearRequired] else [])
     else [])
  }

  /** All messages raised for `input`; empty when the record may be written. */
  function Validate(input: BookInput): (errors: seq<Message>)
    ensures errors == [] ==> input.title.Text? && input.author.Text? && input.year.Text?
  {
    NullViolations(input) + RuleViolations(input)
  }

  /** "Title is required" is raised exactly when the title is null, missing, empty or white space. */
  lemma TitleRule(input: BookInput)
    ensures TitleRequired in Validate(input) <==> !Filled(input.title)
  {
  }

  /** "Author is required" is raised exactly when the author is null, missing, empty or white space. */
  lemma AuthorRule(input: BookInput)
    ensures AuthorRequired in Validate(input) <==> !Filled(input.author)
  {
  }

  /** "Year published is required" is raised exactly when the year is null, missing, empty or white space. */
  lemma YearRequiredRule(input: BookInput)
    ensures YearRequired in Validate(input) <==> !Filled(input.year)
  {
  }

  /** "Year must be a number" is raised exactly when a present year is not numeric; a null year raises only the other message. */
  lemma YearNumericRule(input: BookInput)
    ensures YearNotNumber in Validate(input) <==> input.year.Text? && !IsNumeric(input.year.text)
  {
  }

  /** A numeric text holds a digit, so `notEmpty` never fires on a year that `isNumeric` accepts. */
  lemma NumericIsNotBlank(s: string)
    requires IsNumeric(s)
    ensures !IsBlank(s)
  {
    var t := Unsigned(s);
    var off := |s| - |t|;
    assert t == s[off..];
    assert IsDigit(t[|t| - 1]);
    assert s[|s| - 1] == t[|t| - 1];
    assert !IsSpace(s[|s| - 1]);
  }

  /** A record passes validation with no message exactly when every declared rule holds. */
  lemma ValidateAcceptsExactlyAdmissible(input: BookInput)
    ensures Validate(input) == [] <==> Admissible(input)
  {
    if input.year.Text? && IsNumeric(input.year.text) {
      NumericIsNotBlank(input.year.text);
    }
    if Validate(input) == [] {
      assert TitleRequired !in Validate(input);
    }
  }

  /** No element of `s` appears twice. */
  predicate Distinct<T(==)>(s: seq<T>) {
    forall i, j :: 0 <= i < j < |s| ==> s[i] != s[j]
  }

  lemma DistinctConcat<T>(a: seq<T>, b: seq<T>)
    requires Distinct(a) && Distinct(b)
    requires forall x :: x in a ==> x !in b
    ensures Distinct(a + b)
  {
    forall i, j | 0 <= i < j < |a + b| ensures (a + b)[i] != (a + b)[j] {
      if i < |a| && |a| <= j {
        assert (a + b)[i] in a && (a + b)[j] == b[j - |a|];
      }
    }
  }

  /** The message list laid out by which rule fired, each flag saying whether that rule reported. */
  function MessageLayout(titleNull: bool, authorNull: bool, yearNull: bool,
                         titleBlank: bool, authorBlank: bool, yearNotNumber: bool, yearBlank: bool): seq<Message> {
    (if titleNull then [TitleRequired] else []) +
    (if authorNull then [AuthorRequired] else []) +
    (if yearNull then [YearRequired] else []) +
    ((if titleBlank then [TitleRequired] else []) +
     (if authorBlank then [AuthorRequired] else []) +
     ((if yearNotNumber then [YearNotNumber] else []) + (if yearBlank then [YearRequired] else [])))
  }

  /** When no field is both null and blank, every message of the layout is distinct. */
  lemma LayoutIsDistinct(titleNull: bool, authorNull: bool, yearNull: bool,
                         titleBlank: bool, authorBlank: bool, yearNotNumber: bool, yearBlank: bool)
    requires !(titleNull && titleBlank) && !(authorNull && authorBlank) && !(yearNull && (yearNotNumber || yearBlank))
    ensures Distinct(MessageLayout(titleNull, authorNull, yearNull, titleBlank, authorBlank, yearNotNumber, yearBlank))
  {
    var t := if titleNull then [TitleRequired] else [];
    var a := if authorNull then [AuthorRequired] else [];
    var y := if yearNull then [YearRequired] else [];
    var t' := if titleBlank then [TitleRequired] else [];
    var a' := if authorBlank then [AuthorRequired] else [];
    var n' := if yearNotNumber then [YearNotNumber] else [];
    var y' := if yearBlank then [YearRequired] else [];
    DistinctConcat(t, a);
    DistinctConcat(t + a, y);
    DistinctConcat(n', y');
    DistinctConcat(t', a');
    DistinctConcat(t' + a', n' + y');
    DistinctConcat(t + a + y, t' + a' + (n' + y'));
  }

  /** No message is reported twice for one input. */
  lemma ValidateReportsEachMessageOnce(input: BookInput)
    ensures Distinct(Validate(input))
  {
    var y := input.year;
    LayoutIsDistinct(!input.title.Text?, !input.author.Text?, !y.Text?,
                     input.title.Text? && IsBlank(input.title.text),
                     input.author.Text? && IsBlank(input.author.text),
                     y.Text? && !IsNumeric(y.text), y.Text? && IsBlank(y.text));
  }

  /** `genre` carries no rule: whatever it holds, the messages are the same. */
  lemma GenreIsNeverValidated(input: BookInput, genre: FieldValue)
    ensures Validate(input.(genre := genre)) == Validate(input)
  {
  }

  /** A year that is present, not blank and not a number raises exactly the `isNumeric` message among the year rules. */
  lemma NonNumericYear(input: BookInput)
    requires input.year.Text? && !IsBlank(input.year.text) && !IsNumeric(input.year.text)
    ensures YearNotNumber in Validate(input) && YearRequired !in Validate(input)
  {
  }

  /** The record written for an admissible input; an absent genre is stored as null. */
  function ToBook(input: BookInput): (b: Book)
    requires Admissible(input)
    ensures Admitted(b)
    ensures b.title == input.title.text && b.author == input.author.text && b.year == input.year.text
    ensures b.genre == if input.genre.Text? then Some(input.genre.text) else None
  {
    Book(input.title.text, input.author.text, if input.genre.Text? then Some(input.genre.text) else None, input.year.text)
  }

  /** The stored record seen as a body whose every key is set. */
  function AsInput(b: Book): BookInput {
    BookInput(Text(b.title), Text(b.author), if b.genre.Some? then Text(b.genre.value) else Null, Text(b.year))
  }

  /** A stored record passes validation again and is written back unchanged. */
  lemma AdmittedRoundTrip(b: Book)
    requires Admitted(b)
    ensures Validate(AsInput(b)) == []
    ensures ToBook(AsInput(b)) == b
  {
    ValidateAcceptsExactlyAdmissible(AsInput(b));
  }

  /** A field after an update: a missing key keeps the stored value, any other value replaces it. */
  function MergeField(stored: FieldValue, change: FieldValue): FieldValue {
    if change.Missing? then stored else change
  }

  /** The record an update would write: the stored record with the keys present in `changes` replaced. */
  function Merge(b: Book, changes: BookInput): (c: BookInput)
    ensures c.title == (if changes.title.Missing? then Text(b.title) else changes.title)
    ensures c.author == (if changes.author.Missing? then Text(b.author) else changes.author)
    ensures c.genre == (if changes.genre.Missing? then AsInput(b).genre else changes.genre)
    ensures c.year == (if changes.year.Missing? then Text(b.year) else changes.year)
  {
    var s := AsInput(b);
    BookInput(MergeField(s.title, changes.title), MergeField(s.author, changes.author),
              MergeField(s.genre, changes.genre), MergeField(s.year, changes.year))
  }

  /** An update that sets no key leaves an admitted record as it is. */
  lemma MergeNothing(b: Book)
    requires Admitted(b)
    ensures Admissible(Merge(b, BookInput(Missing, Missing, Missing, Missing)))
    ensures ToBook(Merge(b, BookInput(Missing, Missing, Missing, Missing))) == b
  {
    AdmittedRoundTrip(b);
    ValidateAcceptsExactlyAdmissible(AsInput(b));
  }
  /** An update whose body sets every key, as the update form does, writes exactly that body. */
  lemma MergeFullBody(b: Book, title: string, author: string, genre: FieldValue, year: string)
    requires !genre.Missing?
    ensures Merge(b, BookInput(Text(title), Text(author), genre, Text(year))) == BookInput(Text(title), Text(author), genre, Text(year))
  {
  }

}
