# IEEE BibTeX generator — a Dafny model

This project models the core of the `IEEEBibTeX` class of the bibtex-generator
repository (`src/bibtex/generator.py`). The class turns a DOI, or a publication URL
that contains one, into a BibTeX entry. It resolves the identifier to a DOI, asks the
CrossRef registry for the work's record, flattens that record into a publication
dictionary, derives a citation key from it and writes the entry text.

The model is split into modules that follow the program's steps:

- `Wrappers` holds `Option` and `Result`.
- `PyStr` holds the Python string operations the class relies on, written out
  character by character: `split(',')`, `split()`, `strip()`, `rstrip(chars)`,
  `lower()`, `startswith`, `" and ".join`, and `str()` of an integer.
- `BibEntry` covers `_format_authors`, `_create_entry`, `create_article` and
  `create_inproceeding`. `_create_entry` is a loop in the source, so it is the method
  `CreateEntry`, proved equal to the function `EntryText` that states what the text is.
  A Python dictionary of fields is a sequence of (name, value) pairs in insertion
  order; a value of `None` is `Option.None`.
- `DoiExtraction` covers `extract_doi_from_url`. It models `re.search` for the three
  DOI patterns as a leftmost match whose character-class runs are greedy. The loop
  over the patterns is the method `ExtractDoiFromUrl`, proved equal to the function
  `DoiOf`.
- `CrossRef` covers the mapping from the registry's `message` object to the
  publication dictionary in `fetch_from_doi`. Missing keys are `None`. The two places
  where the mapping raises `IndexError` (an empty `title` list, empty `date-parts`)
  are the error values of `MapRecord`.
- `Identifier` covers `generate_from_identifier`: DOI resolution, the citation key,
  the type map and the dispatch. The HTTP request becomes a function parameter
  `fetch`. Every exception the source can raise on this path is a `GenerateError` value.

Points where the model follows the code rather than what its documentation or tests
suggest:

- Field lines are indented by two spaces, as `_create_entry` writes them. The
  expected texts in `tests/test_generator.py` use four spaces.
- The inproceedings branch of `generate_from_identifier` subscripts a method
  (`pub_info.get['pages']`, line 132). Python raises `TypeError` there before any
  entry is built. The model returns `Err(InproceedingsCrash)` for every
  `proceedings-article` record that gets past the mapping and the key derivation
  (which raise first when they fail). As a result, every generated entry is an article.
- The final `_create_entry` call (line 136) can never be reached, because the type
  map only yields "article" or "inproceedings".
- `create_inproceeding` writes the entry type `inproceeding` (singular).
- When no field is written, `rstrip(",\n")` also eats trailing commas and newlines
  of the citation key itself. `EntryText` states this case exactly.

## Model

| member | source | states |
|---|---|---|
| PyStr.Strip | src/bibtex/generator.py:20 | the result has no surrounding whitespace and is the slice of the input that begins after its leading whitespace and is followed only by whitespace |
| PyStr.StripPadded | src/bibtex/generator.py:20 | stripping removes exactly the whitespace padding around an already stripped text |
| PyStr.Pieces | src/bibtex/generator.py:20 | `split` on a separator always yields at least one piece |
| PyStr.PiecesHaveNoSep | src/bibtex/generator.py:20 | no piece of a split contains the separator |
| PyStr.PiecesOfUnseparated | src/bibtex/generator.py:99 | a text without the separator splits into itself alone |
| PyStr.PiecesAtSep | src/bibtex/generator.py:20 | splitting at a separator character splits the two sides independently |
| PyStr.JoinPiecesComma | src/bibtex/generator.py:20 | joining the comma pieces with "," gives back the original text |
| PyStr.PiecesJoinComma | src/bibtex/generator.py:20 | splitting a comma-join of comma-free parts gives back those parts |
| PyStr.PiecesOfCommaSpaceJoin | src/bibtex/generator.py:63-64 | splitting a ", "-join on commas gives the first name, then each further name preceded by one space |
| PyStr.NonEmptyAppend | src/bibtex/generator.py:99-100 | dropping empty strings distributes over concatenation |
| PyStr.Words | src/bibtex/generator.py:99-100 | `split()` yields only non-empty words without whitespace |
| PyStr.WordsAtSpace | src/bibtex/generator.py:99-100 | splitting on whitespace at a whitespace character splits the two sides independently |
| PyStr.WordsOfWord | src/bibtex/generator.py:99-100 | a non-empty text without whitespace is a single word |
| PyStr.WordsOfSpace | src/bibtex/generator.py:99 | `split()` of a whitespace-only text has no words |
| PyStr.WordsOfTrailingSpace | src/bibtex/generator.py:99 | trailing whitespace after a word adds no word to `split()` |
| PyStr.Lower | src/bibtex/generator.py:99-100 | the result has the input's length, contains no upper-case ASCII letter, maps each upper-case letter to its lower-case form and keeps every other character |
| PyStr.RStripChars | src/bibtex/generator.py:31 | the result is a prefix of the input, everything removed is in the character set, and the result does not end with a character of the set |
| PyStr.RStripCharsKeepsPrefix | src/bibtex/generator.py:31 | stripping stops at a character outside the set: a prefix ending in one is kept whole |
| PyStr.NatDigits | src/bibtex/generator.py:65 | `str` of a natural number is a non-empty string of decimal digits, without a leading zero unless it is 0, and reads back as the number |
| PyStr.NatDigitsStep | src/bibtex/generator.py:65 | appending a decimal digit to a positive number appends that digit to its text |
| BibEntry.FormatAuthorsSingle | src/bibtex/generator.py:18-20 | a single author (no comma) is only stripped |
| BibEntry.FormatAuthors | src/bibtex/generator.py:18-20 | `_format_authors`; its partner lemmas FormatAuthorsSingle, FormatAuthorsOfPieces and FormatAuthorsOfCommaSpaceJoin prove that a single author is only stripped, that a comma-separated list becomes its stripped names joined by " and ", and that names listed with ", " come out unchanged |
| BibEntry.FormatAuthorsOfPieces | src/bibtex/generator.py:18-20 | a comma-separated list becomes its stripped names joined by " and " |
| BibEntry.FormatAuthorsOfCommaSpaceJoin | src/bibtex/generator.py:18-20 | names listed with ", " come out joined by " and ", unchanged |
| BibEntry.StrippedPiecesOfCommaSpaceJoin | src/bibtex/generator.py:20 | stripping the pieces of a ", "-join recovers the names |
| BibEntry.EmittedAppend | src/bibtex/generator.py:27-29 | fields are written in input order: the written fields of a concatenation are those of each part, in turn |
| BibEntry.EmittedCount | src/bibtex/generator.py:27-29 | a (name, value) line appears exactly as often as the field occurs with that non-empty value, and never with an empty value |
| BibEntry.EmittedAllPresent | src/bibtex/generator.py:27-29 | when every value is non-empty, every field gets a line, in order |
| BibEntry.EmittedNonePresent | src/bibtex/generator.py:27-29 | when every value is `None` or empty, no field is written |
| BibEntry.EntryText | src/bibtex/generator.py:22-32 | the entry opens with "@type{" and closes with "\n}" |
| BibEntry.AbsentFieldIgnored | src/bibtex/generator.py:28 | a field whose value is `None` or empty leaves the entry unchanged wherever it sits |
| BibEntry.EntryTextOfLines | src/bibtex/generator.py:22-32 | with at least one field written, the entry is the header, the lines joined by ",\n" and "\n}" |
| BibEntry.KeyedHeader | src/bibtex/generator.py:24-31 | with at least one field written, the entry opens with the full header "@type{key,\n" |
| BibEntry.TerminatedIsJoin | src/bibtex/generator.py:29 | lines each followed by ",\n" are the lines joined by ",\n" plus a final ",\n" |
| BibEntry.FinishEntry | src/bibtex/generator.py:31 | the final `rstrip(",\n") + "\n}"` applied to the accumulated text gives `EntryText` |
| BibEntry.EntryStep | src/bibtex/generator.py:27-29 | one loop iteration adds the field's line and ",\n" if its value is present and nothing otherwise |
| BibEntry.CreateEntry | src/bibtex/generator.py:22-32 | the loop produces exactly `EntryText` of the type, key and fields |
| BibEntry.ArticleText | src/bibtex/generator.py:138-152 | with every value given, an article is the header, the eight lines author, title, journal, year, volume, number, pages, doi in that order, and "\n}" |
| BibEntry.ArticleTextMinimal | src/bibtex/generator.py:138-152 | with the optional values left out, an article has exactly the author, title, journal and year lines |
| BibEntry.CreateArticle | src/bibtex/generator.py:138-152 | `create_article`: the formatted authors and the eight fields in their fixed order, passed to the entry writer; ArticleText, ArticleTextMinimal, ArticleOpens and ArticleKeyed state the resulting text |
| BibEntry.CreateInproceeding | src/bibtex/generator.py:154-167 | `create_inproceeding`: entry type "inproceeding", seven fields in their fixed order with the location under `address`; InproceedingText states the resulting text |
| BibEntry.InproceedingText | src/bibtex/generator.py:154-167 | with every value given, an inproceeding entry has the author, title, booktitle, year, pages, address and doi lines, the location written as `address` |
| BibEntry.ArticleOpens | src/bibtex/generator.py:138-152 | every article opens with "@article{" |
| BibEntry.ArticleKeyed | src/bibtex/generator.py:138-152 | an article with a title opens with "@article{key,\n" |
| CrossRef.YearText | src/bibtex/generator.py:65 | reading the year fails exactly when the date parts, or their first row, are empty |
| CrossRef.AuthorName | src/bibtex/generator.py:63 | one registry author as "given family", a missing part read as ""; MappedAuthorsInOrder and RegistryAuthorsFormatted state how the names reach the entry |
| CrossRef.OptionalIntString | src/bibtex/generator.py:65 | `str` of the first date part, "None" when it is null; MappedYearReadsBack states that a natural-number year reads back as itself |
| CrossRef.MapRecord | src/bibtex/generator.py:61-78 | the mapping fails with the title error exactly when the title list is empty, and with the date error exactly when the date parts are empty; otherwise the DOI and type are copied, the title is the first title, and journal, volume, number and pages are present exactly when the registry value is truthy, and then equal it |
| CrossRef.MappedAuthorsInOrder | src/bibtex/generator.py:63-64 | splitting the mapped author string on commas gives back each registry author, in order |
| CrossRef.MappedYearReadsBack | src/bibtex/generator.py:65 | a natural-number year is written in decimal digits that read back as the year |
| CrossRef.MappedYearWithoutDate | src/bibtex/generator.py:65 | without a printed date the year is the text "None" |
| DoiExtraction.RunEnd | src/bibtex/generator.py:38-40 | a greedy character-class run stops at the end of the text or at the first character outside the class |
| DoiExtraction.RunEndBounds | src/bibtex/generator.py:38-40 | no run of the class from a position extends past the greedy one |
| DoiExtraction.MatchAt | src/bibtex/generator.py:38-40 | a match at a position starts with the pattern's marker and ends within the text |
| DoiExtraction.DoiSpan | src/bibtex/generator.py:38-39 | for a DOI-shaped span, the greedy segment run from its start stops at its slash, and the span ends within the greedy run after that slash |
| DoiExtraction.NumericDoiSpan | src/bibtex/generator.py:40 | a numeric DOI span is two greedy digit runs separated by '.', a '/', and a segment run |
| DoiExtraction.NumericDoiIsDoi | src/bibtex/generator.py:38-40 | a numeric DOI is also DOI-shaped |
| DoiExtraction.DoiOfSlice | src/bibtex/generator.py:38-40 | the slice of a DOI-shaped span is a DOI |
| DoiExtraction.MatchAtIsLongestMatch | src/bibtex/generator.py:38-40 | a match at a position is the longest group the pattern allows there, and no match means the marker is absent or no group can follow it |
| DoiExtraction.SlashMatchAt | src/bibtex/generator.py:38-39 | for the two marker patterns, a match is the longest group and no match means no group |
| DoiExtraction.NumericMatchAt | src/bibtex/generator.py:40 | for the bare numeric pattern, a match is the longest group and no match means no group |
| DoiExtraction.FirstMatch | src/bibtex/generator.py:44 | the search finds a matching position with no match before it, or reports that no position matches |
| DoiExtraction.FirstMatchIsLeftmost | src/bibtex/generator.py:44 | the first matching position is the one found |
| DoiExtraction.Search | src/bibtex/generator.py:44-46 | `re.search(pattern, url).group(1)`: the group at the leftmost match; FirstMatch, FirstMatchIsLeftmost and MatchAtIsLongestMatch tie it to the regular expression |
| DoiExtraction.DoiOf | src/bibtex/generator.py:34-48 | what `extract_doi_from_url` returns; ExtractDoiFromUrl is proved equal to it, and DoiOfCases, DoiOfShape, DoiOfNone and the link lemmas below state its value |
| DoiExtraction.ExtractDoiFromUrl | src/bibtex/generator.py:34-48 | the loop over the patterns returns exactly `DoiOf`: the group of the first pattern that matches, or nothing |
| DoiExtraction.DoiOfCases | src/bibtex/generator.py:43-48 | the patterns are tried in order doi.org, doi:, bare numeric |
| DoiExtraction.DoiOfShape | src/bibtex/generator.py:34-48 | an extracted DOI has the shape prefix/suffix, with no slash or whitespace in either part, and occurs in the URL |
| DoiExtraction.DoiOfNone | src/bibtex/generator.py:43-48 | nothing is extracted exactly when no pattern matches at any position |
| DoiExtraction.NotOpensAt | src/bibtex/generator.py:38-39 | a position whose character differs from the marker's first one does not open a match |
| DoiExtraction.DoiOfResolverLink | tests/test_generator.py:68 | a resolver link "https://doi.org/prefix/suffix" yields "prefix/suffix" |
| DoiExtraction.ResolverLinkSearch | src/bibtex/generator.py:38 | in a resolver link the doi.org pattern finds "prefix/suffix" |
| DoiExtraction.ResolverLinkFirstMatch | src/bibtex/generator.py:38 | in a resolver link the doi.org pattern first matches at offset 8 |
| DoiExtraction.ResolverLinkMatch | src/bibtex/generator.py:38 | the doi.org match in a resolver link extends to the end of the link |
| DoiExtraction.GroupToEnd | src/bibtex/generator.py:38-40 | a pattern whose marker opens at a position and whose group can run to the end of the text matches up to the end |
| DoiExtraction.DoiTail | src/bibtex/generator.py:38-39 | a tail spelled prefix/suffix, both free of slashes and whitespace, is in the language of the first two groups |
| DoiExtraction.NumericTail | src/bibtex/generator.py:40 | a tail spelled digits.digits/suffix is in the language of the third group |
| DoiExtraction.NoMarkerWithoutD | src/bibtex/generator.py:38-39 | neither marker pattern matches at a position that does not hold 'd' |
| DoiExtraction.NoMarkerGroupWithoutSlash | src/bibtex/generator.py:38-39 | neither marker pattern matches where no slash follows the marker |
| DoiExtraction.NoNumericWithoutDigit | src/bibtex/generator.py:40 | the bare numeric pattern does not match at a non-digit |
| DoiExtraction.MarkersNeverMatch | src/bibtex/generator.py:38-39 | when every 'd' of a text comes after its last slash, neither marker pattern matches anywhere |
| DoiExtraction.ResolverNeverMatches | src/bibtex/generator.py:38 | the doi.org pattern matches nowhere when no 'd' precedes a point and a single slash follows it |
| DoiExtraction.DoiOfColonLink | tests/test_generator.py:69 | a URL `<pre>doi:<prefix>/<suffix>` with no 'd' in `<pre>` yields "prefix/suffix" through the second pattern; the test URL has that form |
| DoiExtraction.ColonLinkNoResolver | src/bibtex/generator.py:38 | in such a `doi:` link the doi.org pattern finds nothing |
| DoiExtraction.ColonLinkSearch | src/bibtex/generator.py:39 | in such a `doi:` link the second pattern finds the DOI after the marker |
| DoiExtraction.ColonLinkMatch | src/bibtex/generator.py:39 | `doi:prefix/suffix` at the end of a text is a match of the second pattern whose group is the DOI |
| DoiExtraction.DoiOfNumericLink | tests/test_generator.py:70 | a URL `<pre><d1>.<d2>/<suffix>` with digit runs d1, d2 and neither a digit nor a 'd' in `<pre>` yields the bare DOI through the third pattern; the test URL has that form |
| DoiExtraction.NumericLinkNoMarker | src/bibtex/generator.py:38-39 | in such a link neither marker pattern matches |
| DoiExtraction.NumericLinkSearch | src/bibtex/generator.py:40 | in such a link the third pattern finds the DOI where the digits start |
| DoiExtraction.NumericLinkMatch | src/bibtex/generator.py:40 | a numeric DOI that runs to the end of the text is a match of the third pattern |
| DoiExtraction.DoiOfNoDigitsNoMarker | src/bibtex/generator.py:43-48 | a URL without digits whose every 'd' follows its last slash yields no DOI |
| DoiExtraction.ExampleInvalidUrl | tests/test_generator.py:71 | "https://invalid-url.com" yields no DOI |
| Identifier.ResolveDoi | src/bibtex/generator.py:88-93 | an identifier not starting with "http" is the DOI itself; a URL gives its extracted DOI |
| Identifier.CitationKey | src/bibtex/generator.py:99-100 | the key fails with NoAuthorWord exactly when the first comma piece of the authors has no word, with TitleMissing exactly when it has one and the title is missing, and succeeds exactly when that piece has a word and the title has a word; KeyOfLastWord states its value |
| Identifier.KeyOfLastWord | src/bibtex/generator.py:99-100 | for a first comma-separated author made of any text ending in whitespace (or nothing), then a word, then any trailing whitespace, the author part of the key is that word lower-cased ("Jan van Dyke" gives "dyke", "Doe" gives "doe", "John " gives "john"), followed by the year and the first title word, lower-cased |
| Identifier.EntryType | src/bibtex/generator.py:103-110 | the type is "article" or "inproceedings", and "inproceedings" exactly for "proceedings-article" |
| Identifier.FromRecord | src/bibtex/generator.py:96-135 | the steps after the fetch, in the source's order: a failed fetch, then the mapping, then the key, then the type; FromRecordArticle states that its entries are articles |
| Identifier.GenerateFromIdentifier | src/bibtex/generator.py:85-136 | `generate_from_identifier`; UnresolvableUrlFailsBeforeFetch, OnlyResolvedDoiFetched, GeneratedEntriesAreArticles, ResolverLinkGeneratesAsDoi and ExampleFromDoi state its behaviour |
| Identifier.UnresolvableUrlFailsBeforeFetch | src/bibtex/generator.py:88-91 | a URL without a DOI fails with the extraction error whatever the registry would answer |
| Identifier.OnlyResolvedDoiFetched | src/bibtex/generator.py:93-96 | the result depends on the registry only through its answer for the resolved DOI |
| Identifier.GeneratedEntriesAreArticles | src/bibtex/generator.py:110-135 | every generated entry opens with "@article{", came from a successful fetch, and was not a proceedings paper |
| Identifier.FromRecordArticle | src/bibtex/generator.py:110-135 | an entry built from a fetched record is an article from a record not typed as a proceedings paper |
| Identifier.FirstPieceOfCommaSpaceJoin | src/bibtex/generator.py:99 | the first comma piece of the mapped author string is the first author |
| Identifier.KeyFromFirstFamilyName | src/bibtex/generator.py:99-100 | for a first author with a one-word family name, the key is that name, the year and the first title word, lower-cased |
| Identifier.KeyFromGivenNameOnly | src/bibtex/generator.py:99-100 | a first registry author with a one-word given name and no family name is written "given " by line 63 and keys as that given name, lower-cased, followed by the year and first title word |
| Identifier.RegistryAuthorsFormatted | src/bibtex/generator.py:117 | registry authors reach the entry's author field joined by " and " |
| Identifier.WordsOfTwo | src/bibtex/generator.py:99-100 | two words separated by a space split into those two words |
| Identifier.KeyOfTwoWordNames | src/bibtex/generator.py:99-100 | a two-word author and a two-word title give family name, year and first title word, lower-cased |
| Identifier.ExampleMapping | tests/test_generator.py:170-179 | the test's registry reply maps to title "Test Article", authors "John Doe", year "2024", journal "Test Journal" |
| Identifier.ExampleYear | tests/test_generator.py:174 | the test's print date gives the year "2024" |
| Identifier.ExampleAuthors | tests/test_generator.py:173 | the test's author is listed as "John Doe" |
| Identifier.ExampleKey | tests/test_generator.py:184-185 | the test's reply gives the key "doe2024test" |
| Identifier.ExampleLowered | tests/test_generator.py:185 | the key parts lower-case to "doe2024test" |
| Identifier.ExampleFromRecord | tests/test_generator.py:170-185 | the test's reply becomes the article keyed "doe2024test" with its title, author, journal, year and DOI |
| Identifier.ExampleFromDoi | tests/test_generator.py:184-185 | a DOI whose registry reply is the test's gives an entry opening "@article{doe2024test,\n" |
| Identifier.ResolverLinkGeneratesAsDoi | tests/test_generator.py:184-189 | a resolver link generates exactly what its DOI generates |
| Identifier.ExampleInvalidUrlRejected | tests/test_generator.py:192-193 | "https://invalid-url.com" is rejected with the extraction error whatever the registry holds |
| Identifier.NotHttpAfterSlash | src/bibtex/generator.py:88 | a DOI whose prefix does not start with "http" does not start with it either |

## Left out

- The HTTP request, `raise_for_status` and JSON decoding (src/bibtex/generator.py:52-57) are the parameter `fetch`. A failure is `Err(message)`. The wording of the wrapping exception (lines 82-83) is not modelled.
- The debugging `print(data)` (line 58) is output only and is left out.
- The `entry_types` dictionary built in `__init__` (lines 13-16) is never read by the class and is left out.
- Exception types are collapsed into `GenerateError` and `MappingError` values. Their message texts are not modelled.
- JSON values of unexpected types are not modelled: a `null` name part, a non-list title, a non-integer date part or a non-string volume. The model types each registry field as the record normally has it.
- PyStr.Lower: ASCII only. Python's `lower()` also folds non-ASCII letters.
- PyStr.Words, PyStr.Strip: whitespace is space, \t to \r, and U+001C to U+001F. Other Unicode whitespace is not included.
- DoiExtraction.MatchAt: the `\s` class of the patterns uses the same whitespace set.
- Identifier.CitationKey: a missing author list gives the empty string (`", ".join([])`), so the key fails with `NoAuthorWord`. A missing title gives `TitleMissing`. Both stand for Python exceptions.
- The inproceedings branch (lines 125-135) raises before calling `create_inproceeding`, so the model does not build an entry there. `create_inproceeding` is modelled on its own as `BibEntry.CreateInproceeding`.
- The fallback `_create_entry` call with the whole publication dictionary (line 136) cannot be reached and is not modelled.
