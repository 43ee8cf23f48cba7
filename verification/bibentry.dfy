/**
 * BibTeX text for one entry: author-list formatting (`_format_authors`), the
 * serialiser (`_create_entry`) and the two typed constructors (`create_article`,
 * `create_inproceeding`) of `IEEEBibTeX`.
 */
module BibEntry {
  import opened Wrappers
  import opened PyStr

  // ---------------------------------------------------------------- authors

  function StripAll(ps: seq<string>): (r: seq<string>)
    ensures |r| == |ps|
    ensures forall k :: 0 <= k < |ps| ==> r[k] == Strip(ps[k])
  {
    seq(|ps|, k requires 0 <= k < |ps| => Strip(ps[k]))
  }

  /** `_format_authors`: split at commas, strip each name, join with " and ". */
  function FormatAuthors(authors: string): string {
    Join(" and ", StripAll(Pieces(authors, IsComma)))
  }

  /** A name list without commas is formatted as its stripped self. */
  lemma FormatAuthorsSingle(authors: string)
    requires NoComma(authors)
    ensures FormatAuthors(authors) == Strip(authors)
  {
    PiecesOfUnseparated(authors, IsComma);
  }

  /** Whatever the spacing around the commas, the names come out stripped and joined by " and ". */
  lemma FormatAuthorsOfPieces(ps: seq<string>)
    requires |ps| >= 1
    requires forall k :: 0 <= k < |ps| ==> NoComma(ps[k])
    ensures FormatAuthors(Join(",", ps)) == Join(" and ", StripAll(ps))
  {
    PiecesJoinComma(ps);
  }

  /** `_format_authors(", ".join(names))` is `" and ".join(names)` for stripped, comma-free names. */
  lemma FormatAuthorsOfCommaSpaceJoin(names: seq<string>)
    requires |names| >= 1
    requires forall k :: 0 <= k < |names| ==> NoComma(names[k])
    requires forall k :: 0 <= k < |names| ==> Stripped(names[k])
    ensures FormatAuthors(Join(", ", names)) == Join(" and ", names)
  {
    StrippedPiecesOfCommaSpaceJoin(names);
  }

  lemma StrippedPiecesOfCommaSpaceJoin(names: seq<string>)
    requires |names| >= 1
    requires forall k :: 0 <= k < |names| ==> NoComma(names[k])
    requires forall k :: 0 <= k < |names| ==> Stripped(names[k])
    ensures StripAll(Pieces(Join(", ", names), IsComma)) == names
  {
    PiecesOfCommaSpaceJoin(names);
    var ps := Pieces(Join(", ", names), IsComma);
    forall k | 0 <= k < |names| ensures Strip(ps[k]) == names[k] {
      StripOfPiece(ps, names, k);
    }
  }

  lemma StripOfPiece(ps: seq<string>, names: seq<string>, k: nat)
    requires k < |names| == |ps| && Stripped(names[k])
    requires k == 0 ==> ps[k] == names[k]
    requires k > 0 ==> ps[k] == " " + names[k]
    ensures Strip(ps[k]) == names[k]
  {
    if k == 0 {
      StripPadded("", names[0], "");
      assert "" + names[0] + "" == names[0];
    } else {
      StripPadded(" ", names[k], "");
      assert " " + names[k] + "" == ps[k];
    }
  }

  // ---------------------------------------------------------------- serialiser

  /** One field of an entry: its name and a value that may be `None`. */
  type Field = (string, Option<string>)

  /** The fields `_create_entry` writes out, with their values, in input order. */
  function Emitted(fields: seq<Field>): (r: seq<(string, string)>)
    decreases |fields|
  {
    if fields == [] then [] else EmitOne(fields[0]) + Emitted(fields[1..])
  }

  /** The line-to-be of a single field: nothing when its value is `None` or empty. */
  function EmitOne(f: Field): seq<(string, string)> {
    if Truthy(f.1) then [(f.0, f.1.value)] else []
  }

  /** Emission keeps input order: it distributes over concatenation. */
  lemma {:induction false} EmittedAppend(a: seq<Field>, b: seq<Field>)
    ensures Emitted(a + b) == Emitted(a) + Emitted(b)
    decreases |a|
  {
    if a == [] {
      assert a + b == b;
    } else {
      assert (a + b)[1..] == a[1..] + b;
      EmittedAppend(a[1..], b);
    }
  }

  /** Each present field is written as often as it occurs, and nothing else is written. */
  lemma {:induction false} EmittedCount(fields: seq<Field>, name: string, value: string)
    ensures multiset(Emitted(fields))[(name, value)]
            == if value == "" then 0 else multiset(fields)[(name, Some(value))]
    decreases |fields|
  {
    if fields != [] {
      EmittedCount(fields[1..], name, value);
      EmitOneCount(fields[0], name, value);
      assert fields == [fields[0]] + fields[1..];
      assert multiset(fields) == multiset([fields[0]]) + multiset(fields[1..]);
      assert multiset(Emitted(fields)) == multiset(EmitOne(fields[0])) + multiset(Emitted(fields[1..]));
    }
  }

  lemma EmitOneCount(f: Field, name: string, value: string)
    ensures multiset(EmitOne(f))[(name, value)] == if value == "" then 0 else multiset([f])[(name, Some(value))]
  {
    if Truthy(f.1) && f == (name, Some(value)) {
      assert EmitOne(f) == [(name, value)];
    }
  }

  /** One line of the entry body, `f"  {key} = {{{value}}}"`, without its separator. */
  function FieldLine(name: string, value: string): string {
    "  " + name + " = {" + value + "}"
  }

  function Lines(ps: seq<(string, string)>): (r: seq<string>)
    ensures |r| == |ps|
    ensures forall k :: 0 <= k < |ps| ==> r[k] == FieldLine(ps[k].0, ps[k].1)
  {
    seq(|ps|, k requires 0 <= k < |ps| => FieldLine(ps[k].0, ps[k].1))
  }

  function Header(entryType: string, citationKey: string): string {
    "@" + entryType + "{" + citationKey + ",\n"
  }

  /**
   * The text `_create_entry` produces. With at least one field written: the header,
   * the field lines separated by ",\n", and "\n}". With none: `rstrip(",\n")` eats the
   * header's ",\n" and every trailing ',' or newline of the key, up to the '{'.
   */
  function EntryText(entryType: string, citationKey: string, fields: seq<Field>): (r: string)
    ensures StartsWith(r, "@" + entryType + "{")
    ensures |r| >= 2 && r[|r| - 2..] == "\n}"
  {
    var lines := Lines(Emitted(fields));
    if lines == [] then "@" + entryType + "{" + RStripChars(citationKey, ",\n") + "\n}"
    else Header(entryType, citationKey) + Join(",\n", lines) + "\n}"
  }

  /** A field whose value is `None` or empty changes nothing in the entry. */
  lemma AbsentFieldIgnored(entryType: string, citationKey: string, a: seq<Field>, f: Field, b: seq<Field>)
    requires !Truthy(f.1)
    ensures EntryText(entryType, citationKey, a + [f] + b) == EntryText(entryType, citationKey, a + b)
  {
    EmittedSkips(a, f, b);
  }

  lemma EmittedSkips(a: seq<Field>, f: Field, b: seq<Field>)
    requires !Truthy(f.1)
    ensures Emitted(a + [f] + b) == Emitted(a + b)
  {
    assert Emitted([f]) == [] by {
      assert [f][1..] == [];
    }
    EmittedAppend(a, [f]);
    assert Emitted(a + [f]) == Emitted(a);
    EmittedAppend(a + [f], b);
    EmittedAppend(a, b);
  }

  /** The accumulator of `_create_entry`: every written line followed by ",\n". */
  function Terminated(lines: seq<string>): string
    decreases |lines|
  {
    if lines == [] then "" else lines[0] + ",\n" + Terminated(lines[1..])
  }

  lemma {:induction false} TerminatedAppend(a: seq<string>, b: seq<string>)
    ensures Terminated(a + b) == Terminated(a) + Terminated(b)
    decreases |a|
  {
    if a == [] {
      assert a + b == b;
    } else {
      assert (a + b)[1..] == a[1..] + b;
      TerminatedAppend(a[1..], b);
    }
  }

  /** A non-empty accumulator is the ",\n"-join plus one trailing ",\n". */
  lemma {:induction false} TerminatedIsJoin(lines: seq<string>)
    requires lines != []
    ensures Terminated(lines) == Join(",\n", lines) + ",\n"
    decreases |lines|
  {
    if |lines| > 1 {
      TerminatedIsJoin(lines[1..]);
    }
  }

  /** A join of field lines ends with the closing brace of its last value. */
  lemma {:induction false} JoinOfLinesEndsWithBrace(ps: seq<(string, string)>)
    requires ps != []
    ensures var j := Join(",\n", Lines(ps)); j != [] && j[|j| - 1] == '}'
    decreases |ps|
  {
    if |ps| > 1 {
      JoinOfLinesEndsWithBrace(ps[1..]);
      assert Lines(ps)[1..] == Lines(ps[1..]);
    }
  }

  /** What the final `rstrip(",\n") + "\n}"` makes of the accumulated text. */
  lemma FinishEntry(entryType: string, citationKey: string, fields: seq<Field>)
    ensures RStripChars(Header(entryType, citationKey) + Terminated(Lines(Emitted(fields))), ",\n") + "\n}"
            == EntryText(entryType, citationKey, fields)
  {
    var lines := Lines(Emitted(fields));
    if lines == [] {
      assert Header(entryType, citationKey) + Terminated(lines) == Header(entryType, citationKey);
      FinishEmpty(entryType, citationKey);
    } else {
      FinishLines(entryType, citationKey, Emitted(fields));
    }
  }

  /** With nothing written, the trim eats the header's ",\n" and the key's trailing ',' and newlines. */
  lemma FinishEmpty(entryType: string, citationKey: string)
    ensures RStripChars(Header(entryType, citationKey), ",\n")
            == "@" + entryType + "{" + RStripChars(citationKey, ",\n")
  {
    var open := "@" + entryType + "{";
    assert Header(entryType, citationKey) == open + (citationKey + ",\n");
    RStripCharsKeepsPrefix(open, citationKey + ",\n", ",\n");
    assert RStripChars(citationKey + ",\n", ",\n") == RStripChars(citationKey, ",\n") by {
      assert (citationKey + ",\n")[..|citationKey| + 1] == citationKey + ",";
      assert (citationKey + ",")[..|citationKey|] == citationKey;
    }
  }

  /** With some line written, the trim removes exactly the last ",\n". */
  lemma FinishLines(entryType: string, citationKey: string, ps: seq<(string, string)>)
    requires ps != []
    ensures RStripChars(Header(entryType, citationKey) + Terminated(Lines(ps)), ",\n")
            == Header(entryType, citationKey) + Join(",\n", Lines(ps))
  {
    var lines := Lines(ps);
    var body := Header(entryType, citationKey) + Join(",\n", lines);
    assert Header(entryType, citationKey) + Terminated(lines) == body + ",\n" by {
      TerminatedIsJoin(lines);
    }
    JoinOfLinesEndsWithBrace(ps);
    RStripCharsKeepsPrefix(body, ",\n", ",\n");
    assert RStripChars(",\n", ",\n") == "";
    assert body + "" == body;
  }

  /** One turn of the loop in `_create_entry`: a present field adds its line and separator. */
  lemma EntryStep(fields: seq<Field>, i: nat)
    requires i < |fields|
    ensures Terminated(Lines(Emitted(fields[..i + 1])))
            == Terminated(Lines(Emitted(fields[..i])))
               + (if Truthy(fields[i].1) then FieldLine(fields[i].0, fields[i].1.value) + ",\n" else "")
  {
    assert fields[..i + 1] == fields[..i] + [fields[i]];
    EmittedAppend(fields[..i], [fields[i]]);
    assert Emitted([fields[i]]) == EmitOne(fields[i]) + Emitted([]);
    assert Lines(Emitted(fields[..i + 1])) == Lines(Emitted(fields[..i])) + Lines(EmitOne(fields[i]));
    TerminatedAppend(Lines(Emitted(fields[..i])), Lines(EmitOne(fields[i])));
    if Truthy(fields[i].1) {
      assert Terminated(Lines(EmitOne(fields[i]))) == FieldLine(fields[i].0, fields[i].1.value) + ",\n" + Terminated([]);
    }
  }

  /** The same turn, seen on the whole accumulated text after the header. */
  lemma EntryTextStep(header: string, fields: seq<Field>, i: nat)
    requires i < |fields|
    ensures Truthy(fields[i].1) ==>
              header + Terminated(Lines(Emitted(fields[..i + 1])))
              == (header + Terminated(Lines(Emitted(fields[..i])))) + (FieldLine(fields[i].0, fields[i].1.value) + ",\n")
    ensures !Truthy(fields[i].1) ==>
              header + Terminated(Lines(Emitted(fields[..i + 1]))) == header + Terminated(Lines(Emitted(fields[..i])))
  {
    EntryStep(fields, i);
    var before := Terminated(Lines(Emitted(fields[..i])));
    if Truthy(fields[i].1) {
      AppendAssoc(header, before, FieldLine(fields[i].0, fields[i].1.value) + ",\n");
    } else {
      AppendAssoc(header, before, "");
    }
  }

  lemma AppendAssoc(a: string, b: string, c: string)
    ensures a + (b + c) == (a + b) + c
    ensures c == "" ==> a + (b + c) == a + b
  {
  }

  /** `_create_entry`: append one line per present field, then trim the last separator. */
  method CreateEntry(entryType: string, citationKey: string, fields: seq<Field>) returns (entry: string)
    ensures entry == EntryText(entryType, citationKey, fields)
  {
    entry := Header(entryType, citationKey);
    for i := 0 to |fields|
      invariant entry == Header(entryType, citationKey) + Terminated(Lines(Emitted(fields[..i])))
    {
      var name, value := fields[i].0, fields[i].1;
      EntryTextStep(Header(entryType, citationKey), fields, i);
      if value.Some? && value.value != "" {
        entry := entry + (FieldLine(name, value.value) + ",\n");
      }
    }
    assert fields[..|fields|] == fields;
    FinishEntry(entryType, citationKey, fields);
    entry := RStripChars(entry, ",\n") + "\n}";
  }

  // ---------------------------------------------------------------- typed constructors

  /** The fields of `create_article`, in its fixed order, the author list already formatted. */
  function ArticleFields(title: string, authorList: string, journal: string, year: string,
                         volume: Option<string>, number: Option<string>,
                         pages: Option<string>, doi: Option<string>): seq<Field>
  {
    [("author", Some(authorList)), ("title", Some(title)), ("journal", Some(journal)),
     ("year", Some(year)), ("volume", volume), ("number", number), ("pages", pages), ("doi", doi)]
  }

  /** `create_article`: an entry of type "article". */
  function CreateArticle(citationKey: string, title: string, authors: string, journal: string,
                         year: string, volume: Option<string>, number: Option<string>,
                         pages: Option<string>, doi: Option<string>): string
  {
    EntryText("article", citationKey,
              ArticleFields(title, FormatAuthors(authors), journal, year, volume, number, pages, doi))
  }

  /** The fields of `create_inproceeding`, in its fixed order; the location becomes `address`. */
  function InproceedingFields(title: string, authorList: string, booktitle: string, year: string,
                              pages: Option<string>, location: Option<string>,
                              doi: Option<string>): seq<Field>
  {
    [("author", Some(authorList)), ("title", Some(title)), ("booktitle", Some(booktitle)),
     ("year", Some(year)), ("pages", pages), ("address", location), ("doi", doi)]
  }

  /** `create_inproceeding`: an entry of type "inproceeding" (singular). */
  function CreateInproceeding(citationKey: string, title: string, authors: string, booktitle: string,
                              year: string, pages: Option<string>, location: Option<string>,
                              doi: Option<string>): string
  {
    EntryText("inproceeding", citationKey,
              InproceedingFields(title, FormatAuthors(authors), booktitle, year, pages, location, doi))
  }

  /** With every value non-empty, an article is these eight lines in this order. */
  lemma ArticleText(citationKey: string, title: string, authors: string, journal: string,
                    year: string, volume: string, number: string, pages: string, doi: string)
    requires FormatAuthors(authors) != "" && title != "" && journal != "" && year != ""
    requires volume != "" && number != "" && pages != "" && doi != ""
    ensures CreateArticle(citationKey, title, authors, journal, year, Some(volume), Some(number), Some(pages), Some(doi))
            == Header("article", citationKey)
               + Join(",\n", [FieldLine("author", FormatAuthors(authors)), FieldLine("title", title),
                              FieldLine("journal", journal), FieldLine("year", year),
                              FieldLine("volume", volume), FieldLine("number", number),
                              FieldLine("pages", pages), FieldLine("doi", doi)])
               + "\n}"
  {
    ArticleFieldsText(citationKey, title, FormatAuthors(authors), journal, year, volume, number, pages, doi);
  }

  lemma ArticleFieldsText(citationKey: string, title: string, authorList: string, journal: string,
                          year: string, volume: string, number: string, pages: string, doi: string)
    requires authorList != "" && title != "" && journal != "" && year != ""
    requires volume != "" && number != "" && pages != "" && doi != ""
    ensures EntryText("article", citationKey,
                      ArticleFields(title, authorList, journal, year, Some(volume), Some(number), Some(pages), Some(doi)))
            == Header("article", citationKey)
               + Join(",\n", [FieldLine("author", authorList), FieldLine("title", title),
                              FieldLine("journal", journal), FieldLine("year", year),
                              FieldLine("volume", volume), FieldLine("number", number),
                              FieldLine("pages", pages), FieldLine("doi", doi)])
               + "\n}"
  {
    var fs := ArticleFields(title, authorList, journal, year, Some(volume), Some(number), Some(pages), Some(doi));
    EmittedAllPresent(fs);
    assert Lines(Emitted(fs)) == [FieldLine("author", authorList), FieldLine("title", title),
                                  FieldLine("journal", journal), FieldLine("year", year),
                                  FieldLine("volume", volume), FieldLine("number", number),
                                  FieldLine("pages", pages), FieldLine("doi", doi)];
    EntryTextOfLines("article", citationKey, fs);
  }

  /** With the optional values left out, an article has exactly its four required lines. */
  lemma ArticleTextMinimal(citationKey: string, title: string, authors: string, journal: string, year: string)
    requires FormatAuthors(authors) != "" && title != "" && journal != "" && year != ""
    ensures CreateArticle(citationKey, title, authors, journal, year, None, None, None, None)
            == Header("article", citationKey)
               + Join(",\n", [FieldLine("author", FormatAuthors(authors)), FieldLine("title", title),
                              FieldLine("journal", journal), FieldLine("year", year)])
               + "\n}"
  {
    ArticleFieldsTextMinimal(citationKey, title, FormatAuthors(authors), journal, year);
  }

  lemma ArticleFieldsTextMinimal(citationKey: string, title: string, authorList: string, journal: string, year: string)
    requires authorList != "" && title != "" && journal != "" && year != ""
    ensures EntryText("article", citationKey, ArticleFields(title, authorList, journal, year, None, None, None, None))
            == Header("article", citationKey)
               + Join(",\n", [FieldLine("author", authorList), FieldLine("title", title),
                              FieldLine("journal", journal), FieldLine("year", year)])
               + "\n}"
  {
    var fs := ArticleFields(title, authorList, journal, year, None, None, None, None);
    var required: seq<Field> := [("author", Some(authorList)), ("title", Some(title)),
                                 ("journal", Some(journal)), ("year", Some(year))];
    var optional: seq<Field> := [("volume", None), ("number", None), ("pages", None), ("doi", None)];
    assert fs == required + optional;
    EmittedAppend(required, optional);
    EmittedAllPresent(required);
    EmittedNonePresent(optional);
    assert Lines(Emitted(fs)) == [FieldLine("author", authorList), FieldLine("title", title),
                                  FieldLine("journal", journal), FieldLine("year", year)];
    EntryTextOfLines("article", citationKey, fs);
  }

  /** With every value non-empty, an in-proceedings entry is these seven lines in this order. */
  lemma InproceedingText(citationKey: string, title: string, authors: string, booktitle: string,
                         year: string, pages: string, location: string, doi: string)
    requires FormatAuthors(authors) != "" && title != "" && booktitle != "" && year != ""
    requires pages != "" && location != "" && doi != ""
    ensures CreateInproceeding(citationKey, title, authors, booktitle, year, Some(pages), Some(location), Some(doi))
            == Header("inproceeding", citationKey)
               + Join(",\n", [FieldLine("author", FormatAuthors(authors)), FieldLine("title", title),
                              FieldLine("booktitle", booktitle), FieldLine("year", year),
                              FieldLine("pages", pages), FieldLine("address", location),
                              FieldLine("doi", doi)])
               + "\n}"
  {
    InproceedingFieldsText(citationKey, title, FormatAuthors(authors), booktitle, year, pages, location, doi);
  }

  lemma InproceedingFieldsText(citationKey: string, title: string, authorList: string, booktitle: string,
                               year: string, pages: string, location: string, doi: string)
    requires authorList != "" && title != "" && booktitle != "" && year != ""
    requires pages != "" && location != "" && doi != ""
    ensures EntryText("inproceeding", citationKey,
                      InproceedingFields(title, authorList, booktitle, year, Some(pages), Some(location), Some(doi)))
            == Header("inproceeding", citationKey)
               + Join(",\n", [FieldLine("author", authorList), FieldLine("title", title),
                              FieldLine("booktitle", booktitle), FieldLine("year", year),
                              FieldLine("pages", pages), FieldLine("address", location),
                              FieldLine("doi", doi)])
               + "\n}"
  {
    var fs := InproceedingFields(title, authorList, booktitle, year, Some(pages), Some(location), Some(doi));
    EmittedAllPresent(fs);
    assert Lines(Emitted(fs)) == [FieldLine("author", authorList), FieldLine("title", title),
                                  FieldLine("booktitle", booktitle), FieldLine("year", year),
                                  FieldLine("pages", pages), FieldLine("address", location),
                                  FieldLine("doi", doi)];
    EntryTextOfLines("inproceeding", citationKey, fs);
  }

  /** When some field is written, the entry opens with the full header, key included. */
  lemma KeyedHeader(entryType: string, citationKey: string, fields: seq<Field>, i: nat)
    requires i < |fields| && Truthy(fields[i].1)
    ensures StartsWith(EntryText(entryType, citationKey, fields), Header(entryType, citationKey))
  {
    assert fields == fields[..i] + fields[i..];
    EmittedAppend(fields[..i], fields[i..]);
    assert Emitted(fields[i..]) != [];
    EntryTextOfLines(entryType, citationKey, fields);
  }

  /** Every article opens with `@article{`. */
  lemma ArticleOpens(citationKey: string, title: string, authors: string, journal: string,
                     year: string, volume: Option<string>, number: Option<string>,
                     pages: Option<string>, doi: Option<string>)
    ensures StartsWith(CreateArticle(citationKey, title, authors, journal, year, volume, number, pages, doi),
                       "@article{")
  {
    assert "@" + "article" + "{" == "@article{";
  }

  /** An article with a title opens with `@article{`, its citation key and ",\n", whatever else is missing. */
  lemma ArticleKeyed(citationKey: string, title: string, authors: string, journal: string,
                     year: string, volume: Option<string>, number: Option<string>,
                     pages: Option<string>, doi: Option<string>)
    requires title != ""
    ensures StartsWith(CreateArticle(citationKey, title, authors, journal, year, volume, number, pages, doi),
                       Header("article", citationKey))
  {
    ArticleFieldsKeyed(citationKey, title, FormatAuthors(authors), journal, year, volume, number, pages, doi);
  }

  lemma ArticleFieldsKeyed(citationKey: string, title: string, authorList: string, journal: string,
                           year: string, volume: Option<string>, number: Option<string>,
                           pages: Option<string>, doi: Option<string>)
    requires title != ""
    ensures StartsWith(EntryText("article", citationKey,
                                 ArticleFields(title, authorList, journal, year, volume, number, pages, doi)),
                       Header("article", citationKey))
  {
    KeyedHeader("article", citationKey, ArticleFields(title, authorList, journal, year, volume, number, pages, doi), 1);
  }

  lemma EntryTextOfLines(entryType: string, citationKey: string, fields: seq<Field>)
    requires Lines(Emitted(fields)) != []
    ensures EntryText(entryType, citationKey, fields)
            == Header(entryType, citationKey) + Join(",\n", Lines(Emitted(fields))) + "\n}"
  {
  }

  /** When every value is present, every field is written. */
  lemma {:induction false} EmittedAllPresent(fields: seq<Field>)
    requires forall k :: 0 <= k < |fields| ==> Truthy(fields[k].1)
    ensures Lines(Emitted(fields)) == seq(|fields|, k requires 0 <= k < |fields| => FieldLine(fields[k].0, fields[k].1.GetOr("")))
    decreases |fields|
  {
    if fields != [] {
      EmittedAllPresent(fields[1..]);
    }
  }

  /** When no value is present, nothing is written. */
  lemma {:induction false} EmittedNonePresent(fields: seq<Field>)
    requires forall k :: 0 <= k < |fields| ==> !Truthy(fields[k].1)
    ensures Emitted(fields) == []
    decreases |fields|
  {
    if fields != [] {
      EmittedNonePresent(fields[1..]);
    }
  }
}
