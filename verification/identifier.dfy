/**
 * `generate_from_identifier`: resolve a DOI or URL to a DOI, fetch the registry record,
 * map it, derive the citation key, choose the entry type and build the entry.
 * The fetch is a parameter standing for the HTTP request to the registry.
 */
module Identifier {
  import opened Wrappers
  import opened PyStr
  import opened BibEntry
  import opened DoiExtraction
  import opened CrossRef

  /** Why no entry was produced. */
  datatype GenerateError =
    | DoiNotFound                        // ValueError: a URL without an extractable DOI
    | FetchFailed(message: string)       // the registry request failed
    | MalformedRecord(MappingError)      // IndexError while mapping the record
    | KeyUnderivable(KeyError)           // IndexError / AttributeError in the key derivation
    | InproceedingsCrash                 // TypeError: `pub_info.get['pages']` subscripts a method

  /** The failures of the key derivation, in the order they are met. */
  datatype KeyError =
    | NoAuthorWord   // the first author has no word: `[...][-1]` of an empty list
    | TitleMissing   // `None.split()`
    | NoTitleWord    // the title has no word: `[...][0]` of an empty list

  /** The DOI to fetch: a URL gives its extracted DOI, anything else is used as it is. */
  function ResolveDoi(identifier: string): (r: Option<string>)
    ensures !StartsWith(identifier, "http") ==> r == Some(identifier)
    ensures StartsWith(identifier, "http") ==> r == DoiOf(identifier)
  {
    if StartsWith(identifier, "http") then
      var doi := DoiOf(identifier);
      if doi.None? then None
      else
        DoiOfShape(identifier);
        if doi.value == "" then None else doi
    else Some(identifier)
  }

  function Last(ws: seq<string>): string
    requires ws != []
  {
    ws[|ws| - 1]
  }

  /**
   * The citation key: the last word of the first comma-separated author, lower-cased,
   * then the year, then the first word of the title, lower-cased.
   */
  function CitationKey(authors: string, year: string, title: Option<string>): (r: Result<string, KeyError>)
    ensures r == Err(NoAuthorWord) <==> Words(Pieces(authors, IsComma)[0]) == []
    ensures r == Err(TitleMissing) <==> Words(Pieces(authors, IsComma)[0]) != [] && title.None?
    ensures r.Ok? <==> Words(Pieces(authors, IsComma)[0]) != [] && title.Some? && Words(title.value) != []
  {
    var authorWords := Words(Pieces(authors, IsComma)[0]);
    if authorWords == [] then Err(NoAuthorWord)
    else if title.None? then Err(TitleMissing)
    else
      var titleWords := Words(title.value);
      if titleWords == [] then Err(NoTitleWord)
      else Ok(Lower(Last(authorWords)) + year + Lower(titleWords[0]))
  }

  /**
   * Whatever precedes it and whatever whitespace trails it, the author part of the key
   * is the last word of the first comma-separated author, lower-cased: "Jan van Dyke"
   * keys as "dyke", "Doe" as "doe", and "John " (a registry author without a family
   * name) as "john".
   */
  lemma KeyOfLastWord(authors: string, year: string, title: string, x: string, w: string, t: string)
    requires Pieces(authors, IsComma)[0] == x + w + t
    requires x == [] || IsSpace(x[|x| - 1])
    requires w != [] && NoSpace(w) && AllSpace(t)
    requires Words(title) != []
    ensures CitationKey(authors, year, Some(title)) == Ok(Lower(w) + year + Lower(Words(title)[0]))
  {
    WordsOfTrailingSpace(w, t);
    if x == [] {
      assert x + w + t == w + t;
    } else {
      var front := x[..|x| - 1];
      assert x + w + t == front + [x[|x| - 1]] + (w + t);
      WordsAtSpace(front, x[|x| - 1], w + t);
    }
  }

  /** `type_mapping.get(type, 'article')`: only "proceedings-article" is not an article. */
  function EntryType(kind: Option<string>): (r: string)
    ensures r == "article" || r == "inproceedings"
    ensures r == "inproceedings" <==> kind == Some("proceedings-article")
  {
    if kind == Some("journal-article") then "article"
    else if kind == Some("proceedings-article") then "inproceedings"
    else "article"
  }

  /** Everything after the fetch: map the record, derive the key, build the entry. */
  function FromRecord(doi: string, fetched: Result<Record, string>): Result<string, GenerateError> {
    match fetched
    case Err(message) => Err(FetchFailed(message))
    case Ok(data) =>
      match MapRecord(data, doi)
      case Err(e) => Err(MalformedRecord(e))
      case Ok(pub) =>
        match CitationKey(pub.authors, pub.year, pub.title)
        case Err(e) => Err(KeyUnderivable(e))
        case Ok(key) =>
          if EntryType(pub.kind) == "article" then
            Ok(CreateArticle(key, pub.title.value, pub.authors, pub.journal.GetOr(""), pub.year,
                             pub.volume, pub.number, pub.pages, Some(pub.doi)))
          else
            Err(InproceedingsCrash)
  }

  /** `generate_from_identifier`, with `fetch` in place of the registry request. */
  function GenerateFromIdentifier(identifier: string, fetch: string -> Result<Record, string>): Result<string, GenerateError> {
    match ResolveDoi(identifier)
    case None => Err(DoiNotFound)
    case Some(doi) => FromRecord(doi, fetch(doi))
  }

  /** A URL without an extractable DOI fails before anything is fetched. */
  lemma UnresolvableUrlFailsBeforeFetch(identifier: string, fetch: string -> Result<Record, string>)
    requires StartsWith(identifier, "http") && DoiOf(identifier).None?
    ensures GenerateFromIdentifier(identifier, fetch) == Err(DoiNotFound)
  {
  }

  /** Only the resolved DOI is ever fetched: an identifier that is not a URL is fetched verbatim. */
  lemma OnlyResolvedDoiFetched(identifier: string, fetch1: string -> Result<Record, string>,
                               fetch2: string -> Result<Record, string>)
    requires ResolveDoi(identifier).Some?
    requires fetch1(ResolveDoi(identifier).value) == fetch2(ResolveDoi(identifier).value)
    ensures GenerateFromIdentifier(identifier, fetch1) == GenerateFromIdentifier(identifier, fetch2)
  {
  }

  /** Every entry produced is an article; a proceedings paper never yields one. */
  lemma GeneratedEntriesAreArticles(identifier: string, fetch: string -> Result<Record, string>)
    requires GenerateFromIdentifier(identifier, fetch).Ok?
    ensures StartsWith(GenerateFromIdentifier(identifier, fetch).value, "@article{")
    ensures fetch(ResolveDoi(identifier).value).Ok?
    ensures fetch(ResolveDoi(identifier).value).value.kind != Some("proceedings-article")
  {
    FromRecordArticle(ResolveDoi(identifier).value, fetch(ResolveDoi(identifier).value));
  }

  lemma FromRecordArticle(doi: string, fetched: Result<Record, string>)
    requires FromRecord(doi, fetched).Ok?
    ensures fetched.Ok? && fetched.value.kind != Some("proceedings-article")
    ensures StartsWith(FromRecord(doi, fetched).value, "@article{")
  {
    var pub := MapRecord(fetched.value, doi).value;
    var key := CitationKey(pub.authors, pub.year, pub.title).value;
    ArticleOpens(key, pub.title.value, pub.authors, pub.journal.GetOr(""), pub.year,
                 pub.volume, pub.number, pub.pages, Some(pub.doi));
  }

  /** Up to its first comma, `", ".join(names)` is the first name. */
  lemma FirstPieceOfCommaSpaceJoin(names: seq<string>)
    requires names != [] && NoComma(names[0])
    ensures Pieces(Join(", ", names), IsComma)[0] == names[0]
  {
    PiecesOfUnseparated(names[0], IsComma);
    if |names| > 1 {
      var tail := " " + Join(", ", names[1..]);
      assert Join(", ", names) == names[0] + [','] + tail;
      PiecesAtSep(names[0], ',', tail, IsComma);
    }
  }

  /**
   * For a registry record whose first author has a one-word family name, the key's author
   * part is that family name: the key is family name, year and first title word, lower-cased.
   */
  lemma KeyFromFirstFamilyName(data: Record, doi: string, family: string)
    requires MapRecord(data, doi).Ok?
    requires data.author.Some? && data.author.value != []
    requires data.author.value[0].family == Some(family)
    requires family != [] && NoSpace(family) && NoComma(AuthorName(data.author.value[0]))
    requires data.title.Some? && Words(data.title.value[0]) != []
    ensures var pub := MapRecord(data, doi).value;
            CitationKey(pub.authors, pub.year, pub.title)
            == Ok(Lower(family) + pub.year + Lower(Words(data.title.value[0])[0]))
  {
    var pub := MapRecord(data, doi).value;
    var names := AuthorNames(data.author.value);
    FirstPieceOfCommaSpaceJoin(names);
    var given := data.author.value[0].given.GetOr("");
    WordsAtSpace(given, ' ', family);
    assert names[0] == given + [' '] + family;
    WordsOfWord(family);
  }

  /**
   * A first registry author without a family name is written "given " (line 63), and the
   * trailing space adds no word: the key's author part is the one-word given name.
   */
  lemma KeyFromGivenNameOnly(data: Record, doi: string, given: string)
    requires MapRecord(data, doi).Ok?
    requires data.author.Some? && data.author.value != []
    requires data.author.value[0].given == Some(given) && data.author.value[0].family.GetOr("") == ""
    requires given != [] && NoSpace(given) && NoComma(given)
    requires data.title.Some? && Words(data.title.value[0]) != []
    ensures var pub := MapRecord(data, doi).value;
            CitationKey(pub.authors, pub.year, pub.title)
            == Ok(Lower(given) + pub.year + Lower(Words(data.title.value[0])[0]))
  {
    var pub := MapRecord(data, doi).value;
    var names := AuthorNames(data.author.value);
    assert names[0] == [] + given + " ";
    assert NoComma(names[0]) by {
      assert forall i :: 0 <= i < |given| ==> names[0][i] == given[i];
    }
    FirstPieceOfCommaSpaceJoin(names);
    KeyOfLastWord(pub.authors, pub.year, pub.title.value, [], given, " ");
  }

  /** Registry names without commas or surrounding spaces reach the entry's author field joined by " and ". */
  lemma RegistryAuthorsFormatted(data: Record, doi: string)
    requires MapRecord(data, doi).Ok?
    requires data.author.Some? && data.author.value != []
    requires forall k :: 0 <= k < |data.author.value| ==> NoComma(AuthorName(data.author.value[k]))
    requires forall k :: 0 <= k < |data.author.value| ==> Stripped(AuthorName(data.author.value[k]))
    ensures FormatAuthors(MapRecord(data, doi).value.authors) == Join(" and ", AuthorNames(data.author.value))
  {
    FormatAuthorsOfCommaSpaceJoin(AuthorNames(data.author.value));
  }

  /** The registry reply of the end-to-end example: one journal article by John Doe, printed in 2024. */
  function ExampleRecord(): Record {
    Record(
      title := Some(["Test Article"]),
      author := Some([Person(Some("John"), Some("Doe"))]),
      publishedPrint := Some(PrintDate(Some([[Some(2024)]]))),
      kind := Some("journal-article"),
      containerTitle := Some(["Test Journal"]),
      volume := None,
      issue := None,
      page := None)
  }

  /** The example reply maps to this publication. */
  lemma ExampleMapping(doi: string)
    ensures MapRecord(ExampleRecord(), doi)
            == Ok(Publication(Some("Test Article"), "John Doe", "2024", doi, Some("journal-article"),
                              Some("Test Journal"), None, None, None))
  {
    ExampleYear();
    ExampleAuthors();
  }

  /** The example's print date gives the year "2024". */
  lemma ExampleYear()
    ensures YearText(ExampleRecord()) == Ok("2024")
  {
    NatDigitsStep(2, 0);
    NatDigitsStep(20, 2);
    NatDigitsStep(202, 4);
    assert NatDigits(2024) == "2024";
  }

  /** The example's one author is listed as "John Doe". */
  lemma ExampleAuthors()
    ensures Join(", ", AuthorNames(ExampleRecord().author.value)) == "John Doe"
  {
    var john := Person(Some("John"), Some("Doe"));
    assert AuthorName(john) == "John" + " " + "Doe" == "John Doe";
    assert AuthorNames([john])[0] == "John Doe";
    assert AuthorNames([john]) == ["John Doe"];
  }

  /** Two words separated by one space. */
  lemma WordsOfTwo(a: string, b: string)
    requires a != [] && NoSpace(a) && b != [] && NoSpace(b)
    ensures Words(a + " " + b) == [a, b]
  {
    WordsAtSpace(a, ' ', b);
    assert a + " " + b == a + [' '] + b;
    WordsOfWord(a);
    WordsOfWord(b);
  }

  /** A two-word author and a two-word title give family name, year and first title word. */
  lemma KeyOfTwoWordNames(given: string, family: string, year: string, first: string, second: string)
    requires given != [] && NoSpace(given) && NoComma(given)
    requires family != [] && NoSpace(family) && NoComma(family)
    requires first != [] && NoSpace(first) && second != [] && NoSpace(second)
    ensures CitationKey(given + " " + family, year, Some(first + " " + second)) == Ok(Lower(family) + year + Lower(first))
  {
    var authors := given + " " + family;
    assert NoComma(authors) by {
      forall i | 0 <= i < |authors| ensures !IsComma(authors[i]) {
        if i < |given| { assert authors[i] == given[i]; }
        else if i > |given| { assert authors[i] == family[i - |given| - 1]; }
      }
    }
    PiecesOfUnseparated(authors, IsComma);
    WordsOfTwo(given, family);
    WordsOfTwo(first, second);
  }

  /** The example reply gives the key "doe2024test". */
  lemma ExampleKey()
    ensures CitationKey("John Doe", "2024", Some("Test Article")) == Ok("doe2024test")
  {
    KeyOfTwoWordNames("John", "Doe", "2024", "Test", "Article");
    assert "John" + " " + "Doe" == "John Doe";
    assert "Test" + " " + "Article" == "Test Article";
    ExampleLowered();
  }

  lemma ExampleLowered()
    ensures Lower("Doe") + "2024" + Lower("Test") == "doe2024test"
  {
    assert Lower("Doe") == "doe";
    assert Lower("Test") == "test";
  }

  /** The example reply, under any DOI, becomes an article keyed "doe2024test". */
  lemma ExampleFromRecord(doi: string)
    ensures FromRecord(doi, Ok(ExampleRecord()))
            == Ok(CreateArticle("doe2024test", "Test Article", "John Doe", "Test Journal", "2024",
                                None, None, None, Some(doi)))
  {
    ExampleMapping(doi);
    ExampleKey();
  }

  /** A resolver link generates exactly what its DOI generates. */
  lemma ResolverLinkGeneratesAsDoi(prefix: string, suffix: string, fetch: string -> Result<Record, string>)
    requires prefix != [] && AllIn(prefix, 0, |prefix|, IsSegmentChar)
    requires suffix != [] && AllIn(suffix, 0, |suffix|, IsSegmentChar)
    requires !StartsWith(prefix, "http")
    ensures GenerateFromIdentifier("https://doi.org/" + prefix + "/" + suffix, fetch)
            == GenerateFromIdentifier(prefix + "/" + suffix, fetch)
  {
    DoiOfResolverLink(prefix, suffix);
    NotHttpAfterSlash(prefix, suffix);
  }

  lemma NotHttpAfterSlash(prefix: string, suffix: string)
    requires !StartsWith(prefix, "http")
    ensures !StartsWith(prefix + "/" + suffix, "http")
  {
    var doi := prefix + "/" + suffix;
    if |prefix| >= 4 {
      assert !StartsWith(doi, "http") by { assert doi[..4] == prefix[..4]; }
    } else {
      assert !StartsWith(doi, "http") by { assert doi[|prefix|] == '/'; }
    }
  }

  /** Any DOI whose registry reply is the example becomes an article keyed "doe2024test". */
  lemma ExampleFromDoi(doi: string, fetch: string -> Result<Record, string>)
    requires !StartsWith(doi, "http") && fetch(doi) == Ok(ExampleRecord())
    ensures GenerateFromIdentifier(doi, fetch).Ok?
    ensures StartsWith(GenerateFromIdentifier(doi, fetch).value, Header("article", "doe2024test"))
  {
    ExampleFromRecord(doi);
    ArticleKeyed("doe2024test", "Test Article", "John Doe", "Test Journal", "2024", None, None, None, Some(doi));
  }

  /** The URL without a DOI is rejected with the extraction error, whatever the registry holds. */
  lemma ExampleInvalidUrlRejected(fetch: string -> Result<Record, string>)
    ensures GenerateFromIdentifier("https://invalid-url.com", fetch) == Err(DoiNotFound)
  {
    ExampleInvalidUrl();
    UnresolvableUrlFailsBeforeFetch("https://invalid-url.com", fetch);
  }
}
