/** The character/quote service: a characters store of (name, description)
    records and a quotes store of (text, author) records, each a CSV file read
    with `csv.DictReader` (so its first line is the header) or absent. Handlers
    that only read are functions of the current file; handlers that append are
    methods of `CharacterQuoteService`. */
module CharacterQuotes {
  import opened Text
  import opened Seqs

  datatype Character = Character(name: string, description: string)

  datatype Quote = Quote(text: string, author: string)

  /** A store file: absent, or present with the records after its header line. */
  datatype CsvFile<R> = Missing | Present(records: seq<R>)

  /** A handler's reply: the JSON payload, or an `HTTPException` with its status and detail. */
  datatype Response<T> = Ok(value: T) | HttpError(status: nat, detail: string)

  const NotFound: nat := 404
  const ServerError: nat := 500

  /** What opening a store file for appending does: it succeeds, raises
      `PermissionError`, or raises some other exception with this text. */
  datatype OpenResult = Opened | PermissionDenied | OtherFailure(reason: string)

  /** The payload of GET /quote. */
  datatype QuoteReply = QuoteReply(quote: string, author: string)

  /** The payload of GET /quote/{author}. */
  datatype AuthorQuotes = AuthorQuotes(author: string, quotes: seq<string>)

  // ---------------------------------------------------------------------------
  // read_csv and appending a row
  // ---------------------------------------------------------------------------

  /** read_csv: the records of the file, or none when the file does not exist. */
  function ReadCsv<R>(file: CsvFile<R>): (r: seq<R>)
    ensures file.Missing? ==> r == []
    ensures file.Present? ==> r == file.records
  {
    match file
    case Missing => []
    case Present(records) => records
  }

  /** The file after one `writerow` in append mode. An existing file gains
      the row after its last record. A missing file is created holding only
      this row and no header, and `DictReader` then takes that line for the
      header, so the row is never read back as a record. */
  function AppendRow<R>(file: CsvFile<R>, row: R): (f: CsvFile<R>)
    ensures f.Present?
    ensures file.Present? ==> |ReadCsv(f)| == |ReadCsv(file)| + 1
    ensures file.Present? ==> ReadCsv(f)[..|ReadCsv(file)|] == ReadCsv(file) && ReadCsv(f)[|ReadCsv(file)|] == row
    ensures file.Missing? ==> ReadCsv(f) == []
  {
    match file
    case Missing => Present([])
    case Present(records) =>
      var r := records + [row];
      assert r[..|records|] == records;
      Present(r)
  }

  // ---------------------------------------------------------------------------
  // get_characters and get_character
  // ---------------------------------------------------------------------------

  /** get_characters: every record in store order, or 404 when there is none. */
  function GetCharacters(file: CsvFile<Character>): (r: Response<seq<Character>>)
    ensures r.HttpError? <==> ReadCsv(file) == []
    ensures r.HttpError? ==> r == HttpError(NotFound, "No characters found")
    ensures r.Ok? ==> r.value == ReadCsv(file)
  {
    var characters := ReadCsv(file);
    if characters == [] then HttpError(NotFound, "No characters found") else Ok(characters)
  }

  /** The record's name matches a query whose lowered form is `key`. */
  function NameKey(key: string): Character -> bool {
    (c: Character) => Lower(c.name) == key
  }

  /** get_character: the first record whose lowered name equals the lowered
      query, or 404 when no record matches. */
  function GetCharacter(file: CsvFile<Character>, name: string): (r: Response<Character>)
    ensures r.Ok? ==> exists i :: 0 <= i < |ReadCsv(file)| && ReadCsv(file)[i] == r.value
                        && Lower(ReadCsv(file)[i].name) == Lower(name)
                        && forall j :: 0 <= j < i ==> Lower(ReadCsv(file)[j].name) != Lower(name)
    ensures r.HttpError? <==> forall j :: 0 <= j < |ReadCsv(file)| ==> Lower(ReadCsv(file)[j].name) != Lower(name)
    ensures r.HttpError? ==> r == HttpError(NotFound, "Character not found")
  {
    var characters := ReadCsv(file);
    match FindFirst(NameKey(Lower(name)), characters)
    case Some(i) => Ok(characters[i])
    case None => HttpError(NotFound, "Character not found")
  }

  /** Queries that agree after lowering get the same answer. */
  lemma GetCharacterIgnoresCase(file: CsvFile<Character>, name1: string, name2: string)
    requires Lower(name1) == Lower(name2)
    ensures GetCharacter(file, name1) == GetCharacter(file, name2)
  {
  }

  /** "Yoda" and "yoda" find the same record. */
  lemma YodaCaseInsensitive(file: CsvFile<Character>)
    ensures GetCharacter(file, "Yoda") == GetCharacter(file, "yoda")
  {
    assert Lower("Yoda") == Lower("yoda") by {
      assert Lower("Yoda")[0] == LowerChar('Y') == 'y';
    }
    GetCharacterIgnoresCase(file, "Yoda", "yoda");
  }

  /** After a character is appended to an existing file, an earlier match
      still wins; otherwise the new record is found exactly when its name
      matches the query. */
  lemma CreateCharacterThenGetCharacter(records: seq<Character>, character: Character, name: string)
    ensures GetCharacter(AppendRow(Present(records), character), name) ==
      if GetCharacter(Present(records), name).Ok? then GetCharacter(Present(records), name)
      else if Lower(character.name) == Lower(name) then Ok(character)
      else HttpError(NotFound, "Character not found")
  {
    assert ReadCsv(AppendRow(Present(records), character)) == records + [character];
    FindFirstSnoc(NameKey(Lower(name)), records, character);
  }

  /** A character created while its file is missing is reported as added, yet
      the store still reads as having no characters. */
  lemma CreateOnMissingFileIsNotListed(character: Character)
    ensures GetCharacters(AppendRow(Missing, character)) == HttpError(NotFound, "No characters found")
    ensures GetCharacter(AppendRow(Missing, character), character.name).HttpError?
  {
  }

  // ---------------------------------------------------------------------------
  // get_quote
  // ---------------------------------------------------------------------------

  /** get_quote: 404 on an empty store; otherwise the text and author of the
      record `random.choice` draws. The draw is the parameter `pick`, reduced
      to an index into the records. */
  function GetQuote(file: CsvFile<Quote>, pick: nat): (r: Response<QuoteReply>)
    ensures r.HttpError? <==> ReadCsv(file) == []
    ensures r.HttpError? ==> r == HttpError(NotFound, "No quotes available")
    ensures r.Ok? ==> exists i :: 0 <= i < |ReadCsv(file)|
                        && r.value == QuoteReply(ReadCsv(file)[i].text, ReadCsv(file)[i].author)
  {
    var quotes := ReadCsv(file);
    if quotes == [] then HttpError(NotFound, "No quotes available")
    else
      var q := quotes[pick % |quotes|];
      Ok(QuoteReply(q.text, q.author))
  }

  /** Every stored quote is the answer for some draw. */
  lemma GetQuoteReachesEveryQuote(file: CsvFile<Quote>, i: nat)
    requires i < |ReadCsv(file)|
    ensures exists pick: nat :: GetQuote(file, pick) == Ok(QuoteReply(ReadCsv(file)[i].text, ReadCsv(file)[i].author))
  {
    assert i % |ReadCsv(file)| == i;
    assert GetQuote(file, i) == Ok(QuoteReply(ReadCsv(file)[i].text, ReadCsv(file)[i].author));
  }

  // ---------------------------------------------------------------------------
  // get_quote_by_author
  // ---------------------------------------------------------------------------

  /** The record's author matches a query whose lowered form is `key`. */
  function AuthorKey(key: string): Quote -> bool {
    (q: Quote) => Lower(q.author) == key
  }

  function Texts(quotes: seq<Quote>): (r: seq<string>)
    ensures |r| == |quotes|
    ensures forall i :: 0 <= i < |quotes| ==> r[i] == quotes[i].text
  {
    seq(|quotes|, i requires 0 <= i < |quotes| => quotes[i].text)
  }

  lemma TextsSnoc(quotes: seq<Quote>, quote: Quote)
    ensures Texts(quotes + [quote]) == Texts(quotes) + [quote.text]
  {
    assert |Texts(quotes + [quote])| == |Texts(quotes) + [quote.text]|;
    assert forall i :: 0 <= i < |quotes| ==> (quotes + [quote])[i] == quotes[i];
  }

  /** The texts of the records whose lowered author equals the lowered query, in store order. */
  function QuotesBy(quotes: seq<Quote>, author: string): (r: seq<string>)
    ensures forall k :: 0 <= k < |r| ==>
              exists i :: 0 <= i < |quotes| && quotes[i].text == r[k] && Lower(quotes[i].author) == Lower(author)
    ensures forall i :: 0 <= i < |quotes| && Lower(quotes[i].author) == Lower(author) ==> quotes[i].text in r
    ensures |r| > 0 <==> exists i :: 0 <= i < |quotes| && Lower(quotes[i].author) == Lower(author)
  {
    var matching := Filter(AuthorKey(Lower(author)), quotes);
    var r := Texts(matching);
    assert forall k :: 0 <= k < |r| ==> matching[k] in quotes && r[k] == matching[k].text;
    forall i | 0 <= i < |quotes| && Lower(quotes[i].author) == Lower(author)
      ensures quotes[i].text in r
    {
      assert AuthorKey(Lower(author))(quotes[i]);
      var k :| 0 <= k < |matching| && matching[k] == quotes[i];
      assert r[k] == quotes[i].text;
    }
    r
  }

  /** Appending a quote adds its text at the end of the list for every query
      its author matches, and changes no other list. */
  lemma QuotesBySnoc(quotes: seq<Quote>, quote: Quote, author: string)
    ensures QuotesBy(quotes + [quote], author) ==
      if Lower(quote.author) == Lower(author) then QuotesBy(quotes, author) + [quote.text]
      else QuotesBy(quotes, author)
  {
    var p := AuthorKey(Lower(author));
    FilterSnoc(p, quotes, quote);
    TextsSnoc(Filter(p, quotes), quote);
  }

  /** get_quote_by_author: 404 "No quotes available" on an empty store, 404
      "No quotes found for author" when nothing matches, and otherwise the
      query as given with the matching texts in store order. */
  function GetQuoteByAuthor(file: CsvFile<Quote>, author: string): (r: Response<AuthorQuotes>)
    ensures ReadCsv(file) == [] ==> r == HttpError(NotFound, "No quotes available")
    ensures ReadCsv(file) != [] && (forall i :: 0 <= i < |ReadCsv(file)| ==> Lower(ReadCsv(file)[i].author) != Lower(author))
            ==> r == HttpError(NotFound, "No quotes found for author: " + author)
    ensures r.Ok? <==> exists i :: 0 <= i < |ReadCsv(file)| && Lower(ReadCsv(file)[i].author) == Lower(author)
    ensures r.Ok? ==> r.value.author == author && r.value.quotes == QuotesBy(ReadCsv(file), author)
  {
    var quotes := ReadCsv(file);
    if quotes == [] then HttpError(NotFound, "No quotes available")
    else
      var texts := QuotesBy(quotes, author);
      if texts == [] then HttpError(NotFound, "No quotes found for author: " + author)
      else Ok(AuthorQuotes(author, texts))
  }

  /** Queries that agree after lowering find the same texts; each reply
      echoes its own query. */
  lemma GetQuoteByAuthorIgnoresCase(file: CsvFile<Quote>, author1: string, author2: string)
    requires Lower(author1) == Lower(author2)
    ensures GetQuoteByAuthor(file, author1).Ok? == GetQuoteByAuthor(file, author2).Ok?
    ensures GetQuoteByAuthor(file, author1).Ok? ==>
              GetQuoteByAuthor(file, author1).value.quotes == GetQuoteByAuthor(file, author2).value.quotes
  {
  }

  /** After a quote is appended to an existing file, asking for its author
      lists the earlier matching texts followed by the new one. */
  lemma CreateQuoteThenGetQuoteByAuthor(records: seq<Quote>, quote: Quote)
    ensures GetQuoteByAuthor(AppendRow(Present(records), quote), quote.author)
            == Ok(AuthorQuotes(quote.author, QuotesBy(records, quote.author) + [quote.text]))
  {
    var after := records + [quote];
    assert ReadCsv(AppendRow(Present(records), quote)) == after;
    QuotesBySnoc(records, quote, quote.author);
  }

  /** With exactly one matching record, the reply lists exactly its text. */
  lemma SingleMatchingQuote(records: seq<Quote>, quote: Quote)
    requires forall i :: 0 <= i < |records| ==> Lower(records[i].author) != Lower(quote.author)
    ensures GetQuoteByAuthor(AppendRow(Present(records), quote), quote.author)
            == Ok(AuthorQuotes(quote.author, [quote.text]))
  {
    CreateQuoteThenGetQuoteByAuthor(records, quote);
    var earlier := QuotesBy(records, quote.author);
    assert !(exists i :: 0 <= i < |records| && Lower(records[i].author) == Lower(quote.author));
    assert |earlier| == 0;
    assert earlier + [quote.text] == [quote.text];
  }

  // ---------------------------------------------------------------------------
  // The stores and the handlers that append to them
  // ---------------------------------------------------------------------------

  class CharacterQuoteService {
    var characters: CsvFile<Character>
    var quotes: CsvFile<Quote>

    constructor (characters: CsvFile<Character>, quotes: CsvFile<Quote>)
      ensures this.characters == characters && this.quotes == quotes
    {
      this.characters := characters;
      this.quotes := quotes;
    }

    /** create_character: append the record; a `PermissionError` becomes a
        500 reply, and any other failure escapes the handler, which the
        framework answers with a plain 500. No failure changes the file. */
    method CreateCharacter(character: Character, io: OpenResult) returns (r: Response<string>)
      modifies this
      ensures io.Opened? ==> (characters == AppendRow(old(characters), character)
                           && r == Ok("Character '" + character.name + "' added successfully"))
      ensures io.PermissionDenied? ==> (characters == old(characters)
                           && r == HttpError(ServerError, "Permission denied: Unable to write to characters.csv"))
      ensures io.OtherFailure? ==> (characters == old(characters)
                           && r == HttpError(ServerError, "Internal Server Error"))
      ensures quotes == old(quotes)
    {
      match io
      case Opened =>
        characters := AppendRow(characters, character);
        r := Ok("Character '" + character.name + "' added successfully");
      case PermissionDenied =>
        r := HttpError(ServerError, "Permission denied: Unable to write to characters.csv");
      case OtherFailure(_) =>
        r := HttpError(ServerError, "Internal Server Error");
    }

    /** create_quote: append the record; a `PermissionError` and any other
        exception each become a 500 reply of their own, the latter echoing
        the exception text. No failure changes the file. */
    method CreateQuote(quote: Quote, io: OpenResult) returns (r: Response<string>)
      modifies this
      ensures io.Opened? ==> (quotes == AppendRow(old(quotes), quote)
                           && r == Ok("Quote added: '" + quote.text + "' by " + quote.author))
      ensures io.PermissionDenied? ==> (quotes == old(quotes)
                           && r == HttpError(ServerError, "Permission denied: Unable to write to quote.csv"))
      ensures io.OtherFailure? ==> (quotes == old(quotes)
                           && r == HttpError(ServerError, "An error occurred: " + io.reason))
      ensures characters == old(characters)
    {
      match io
      case Opened =>
        quotes := AppendRow(quotes, quote);
        r := Ok("Quote added: '" + quote.text + "' by " + quote.author);
      case PermissionDenied =>
        r := HttpError(ServerError, "Permission denied: Unable to write to quote.csv");
      case OtherFailure(reason) =>
        r := HttpError(ServerError, "An error occurred: " + reason);
    }
  }
}
