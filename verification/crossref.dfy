/**
 * The mapping from a registry (CrossRef) record to the flat publication dictionary
 * that `fetch_from_doi` returns; the HTTP request around it is not modelled.
 */
module CrossRef {
  import opened Wrappers
  import opened PyStr

  /** One entry of the record's `author` list. */
  datatype Person = Person(given: Option<string>, family: Option<string>)

  /** The `published-print` object. */
  datatype PrintDate = PrintDate(dateParts: Option<seq<seq<Option<int>>>>)

  /** The `message` object of a registry reply; `None` is a missing key. */
  datatype Record = Record(
    title: Option<seq<string>>,
    author: Option<seq<Person>>,
    publishedPrint: Option<PrintDate>,
    kind: Option<string>,
    containerTitle: Option<seq<string>>,
    volume: Option<string>,
    issue: Option<string>,
    page: Option<string>)

  /** The publication dictionary; `None` in an optional position is a key never inserted. */
  datatype Publication = Publication(
    title: Option<string>,
    authors: string,
    year: string,
    doi: string,
    kind: Option<string>,
    journal: Option<string>,
    volume: Option<string>,
    number: Option<string>,
    pages: Option<string>)

  /** The two places where the mapping raises `IndexError`. */
  datatype MappingError = EmptyTitleList | EmptyDateParts

  /** `f"{given} {family}"` with a missing part read as "". */
  function AuthorName(p: Person): string {
    p.given.GetOr("") + " " + p.family.GetOr("")
  }

  function AuthorNames(ps: seq<Person>): (r: seq<string>)
    ensures |r| == |ps|
    ensures forall k :: 0 <= k < |ps| ==> r[k] == AuthorName(ps[k])
  {
    seq(|ps|, k requires 0 <= k < |ps| => AuthorName(ps[k]))
  }

  /** `str(value)` of an optional integer: `str(None)` is "None". */
  function OptionalIntString(v: Option<int>): string {
    match v
    case None => "None"
    case Some(n) => IntString(n)
  }

  /** Whether `date-parts[0][0]` cannot be read. */
  predicate DatePartsEmpty(data: Record) {
    data.publishedPrint.Some? && data.publishedPrint.value.dateParts.Some?
    && var parts := data.publishedPrint.value.dateParts.value;
       parts == [] || parts[0] == []
  }

  /** `str(data.get('published-print', {}).get('date-parts', [[None]])[0][0])` */
  function YearText(data: Record): (r: Result<string, MappingError>)
    ensures r.Err? <==> DatePartsEmpty(data)
  {
    match data.publishedPrint
    case None => Ok("None")
    case Some(pp) =>
      match pp.dateParts
      case None => Ok("None")
      case Some(parts) =>
        if parts == [] || parts[0] == [] then Err(EmptyDateParts)
        else Ok(OptionalIntString(parts[0][0]))
  }

  /** Python truthiness of an optional list. */
  predicate NonEmptyList(v: Option<seq<string>>) {
    v.Some? && v.value != []
  }

  /** The publication dictionary of `fetch_from_doi` (source lines 61-78). */
  function MapRecord(data: Record, doi: string): (r: Result<Publication, MappingError>)
    ensures r == Err(EmptyTitleList) <==> data.title == Some([])
    ensures r == Err(EmptyDateParts) <==> data.title != Some([]) && DatePartsEmpty(data)
    ensures r.Ok? ==> var pub := r.value;
      && pub.doi == doi && pub.kind == data.kind
      && (pub.title.Some? <==> data.title.Some?)
      && (pub.title.Some? ==> pub.title.value == data.title.value[0])
      && (pub.journal.Some? <==> NonEmptyList(data.containerTitle))
      && (pub.journal.Some? ==> pub.journal.value == data.containerTitle.value[0])
      && (pub.volume.Some? <==> Truthy(data.volume)) && (pub.volume.Some? ==> pub.volume == data.volume)
      && (pub.number.Some? <==> Truthy(data.issue)) && (pub.number.Some? ==> pub.number == data.issue)
      && (pub.pages.Some? <==> Truthy(data.page)) && (pub.pages.Some? ==> pub.pages == data.page)
  {
    if data.title == Some([]) then Err(EmptyTitleList)
    else
      var title := if data.title.None? then None else Some(data.title.value[0]);
      var authors := Join(", ", AuthorNames(data.author.GetOr([])));
      match YearText(data)
      case Err(e) => Err(e)
      case Ok(year) =>
        Ok(Publication(
          title := title,
          authors := authors,
          year := year,
          doi := doi,
          kind := data.kind,
          journal := if NonEmptyList(data.containerTitle) then Some(data.containerTitle.value[0]) else None,
          volume := if Truthy(data.volume) then data.volume else None,
          number := if Truthy(data.issue) then data.issue else None,
          pages := if Truthy(data.page) then data.page else None))
  }

  /** The `authors` string lists every registry author, in registry order, as "given family". */
  lemma MappedAuthorsInOrder(data: Record, doi: string)
    requires MapRecord(data, doi).Ok?
    requires data.author.Some? && data.author.value != []
    requires forall k :: 0 <= k < |data.author.value| ==> NoComma(AuthorName(data.author.value[k]))
    ensures var pieces := Pieces(MapRecord(data, doi).value.authors, IsComma);
            var names := AuthorNames(data.author.value);
            |pieces| == |names| && pieces[0] == names[0]
            && forall k :: 1 <= k < |names| ==> pieces[k] == " " + names[k]
  {
    PiecesOfCommaSpaceJoin(AuthorNames(data.author.value));
  }

  /** A printed year that is a natural number is written in decimal and reads back as itself. */
  lemma MappedYearReadsBack(data: Record, doi: string, y: nat)
    requires MapRecord(data, doi).Ok?
    requires data.publishedPrint.Some? && data.publishedPrint.value.dateParts.Some?
    requires data.publishedPrint.value.dateParts.value[0][0] == Some(y)
    ensures var year := MapRecord(data, doi).value.year;
            (forall i :: 0 <= i < |year| ==> IsDigit(year[i])) && DigitsValue(year) == y
  {
  }

  /** Without a printed date the year is the text "None". */
  lemma MappedYearWithoutDate(data: Record, doi: string)
    requires MapRecord(data, doi).Ok?
    requires data.publishedPrint.None? || data.publishedPrint.value.dateParts.None?
    ensures MapRecord(data, doi).value.year == "None"
  {
  }
}
