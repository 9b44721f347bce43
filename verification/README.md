# Google News sitemap writer, modelled in Dafny

`Sitemap` (src/Sitemap.php) writes a Google News sitemap: one `<urlset>`
root carrying the sitemap and news namespaces, and one `<url>` element per
news item. A caller stages an item's fields through seven setters
(`setLoc`, `setTitle`, `setName`, `setLanguage`, `setGenres`, `setKeywords`,
`setPublicationDate`), then calls `addItem`. `addItem` first checks that the
staged location is a URL and throws if it is not. Only then does it write
the item's `<url>` element through PHP's `XMLWriter`. `write` closes the
root, ends the document and appends the writer's buffer to the
destination file.

The model keeps the writer as an immutable record and each PHP method
becomes a function from the old record to the new one:

- `Writer` holds the staged fields, the in-memory `XMLWriter` and the
  events already flushed to the file.
- A thrown exception becomes `Err`. The exceptions the model covers are
  thrown before anything is written, so the PHP object is left as it was.
  This holds for integer dates and string keywords; see "## Left out" for
  the exceptions that other values cause inside `addItem`.
- XML is modelled at the level of a streaming writer's events: `Start`,
  `Attr`, `Text` and `End`.
- The element trees those events serialize come with a parser. The parser
  is proved to invert the serializer, so the file can be "read back".

Modules:

- `Results`: `Option` and `Result`.
- `Xml`: events, trees, serialization, the nesting-depth scan, start-tag
  names and the parser.
- `XmlWriter`: `XMLWriter` in memory mode, seen as an event sink with an
  open-element count.
- `Php`: `empty()` on strings and arrays, and `implode()`.
- `Sitemap`: the class itself.
- `Statements`: the body of `addItem` as the sequence of statements PHP
  runs, stopping at the first throw.
- `Session`: whole runs of construct, setters, `addItem` and `write`.

Three behaviours of the code that a caller may not expect:

- `addItem` never flushes. Everything stays in the writer's memory until
  `write`, and the file is first written by `write`.
- Construction deletes an existing writable file but does not create
  one.
- No guard stops `addItem` after `write`. The item is accepted, and the
  next `write` appends a second top-level element after the closed root.
  `Session.AddAfterWrite` proves this.

## Model

| member | source | states |
|---|---|---|
| Sitemap.New | src/Sitemap.php:33-104 | Construction fails exactly when the directory is missing, or when a file exists that may not be written. The directory check comes first, and each failure names the path. On success nothing is staged and nothing is in the file. One element is open, and the buffer holds exactly `Start(urlset)` and the `xmlns` and `xmlns:news` attributes with the two namespace URIs. The writer is consistent: its open-element count is the nesting depth of what it produced. |
| Sitemap.Stage | src/Sitemap.php:46-79 | Each setter stores its argument in its own field, and the other six staged fields keep their values. |
| Sitemap.Apply | src/Sitemap.php:46-79 | A setter call changes only the staged fields. The XML buffer, the open-element count and the file are untouched. |
| Sitemap.ValidateLocation | src/Sitemap.php:141-147 | Validation succeeds iff the location is non-null and the URL validator accepts it. On success it returns that location. Otherwise it fails with the invalid-location error naming the location, null included. |
| Sitemap.WritePublication | src/Sitemap.php:161-164 | The calls that write `<news:publication>` append exactly the events of the publication element, with the name and language children in that order. |
| Sitemap.WriteGenres | src/Sitemap.php:165-167 | The guarded `news:genres` call appends the events of the genres element when the genres are not `empty()`, and nothing otherwise. |
| Sitemap.WriteDateAndTitle | src/Sitemap.php:168-169 | Appends the publication-date element with the formatted date, then the title element. |
| Sitemap.WriteKeywords | src/Sitemap.php:170-172 | The guarded `news:keywords` call appends the keywords element when the keyword array is not `empty()`, and nothing otherwise. |
| Sitemap.WriteNews | src/Sitemap.php:161-172 | The calls inside `<news:news>` append the serialization of its children in the fixed order: publication, optional genres, date, title, optional keywords. The writer's depth is the same afterwards. |
| Sitemap.WriteUrl | src/Sitemap.php:158-174 | The writer calls of `addItem` append exactly one balanced `<url>` subtree, the item's reference tree `UrlNode`, and return to the starting depth. |
| Sitemap.AddItem | src/Sitemap.php:154-175 | `addItem` fails iff the staged location is not a URL, with the invalid-location error. The error carries no writer: that a throw leaves the object as it was is stated by `Statements.AddItemExecuted`. On success the staged fields, the file and the depth are unchanged, and the buffer grows by exactly the events of `UrlNode` for the staged fields. Consistency is preserved. |
| Statements.UrlPerformed | src/Sitemap.php:158-174 | Performing the writer calls of `addItem` one at a time, in source order, gives exactly the writer `WriteUrl` describes. |
| Statements.AddItemExecuted | src/Sitemap.php:154-175 | Running the body of `addItem` statement by statement, stopping at the first throw: it throws iff the staged location is not a URL, and with the same error as `AddItem`. A throw leaves the writer exactly as it was, because the location check precedes every writer call. Without a throw the writer is the one `AddItem` returns. |
| Sitemap.UrlStartNames | src/Sitemap.php:158-174 | The tags one item opens are, in order: `url`, `loc`, `news:news`, `news:publication`, `news:name`, `news:language`, then `news:genres` only if the genres are not empty, then `news:publication_date`, `news:title`, then `news:keywords` only if the keywords are not empty. |
| Sitemap.GenresEmitted | src/Sitemap.php:165-167 | A `news:genres` start tag is written iff `empty()` does not hold of the genres. Null, "" and "0" all suppress it. |
| Sitemap.KeywordsEmitted | src/Sitemap.php:170-172 | A `news:keywords` start tag is written iff the keyword array is neither null nor empty. |
| Sitemap.KeywordsText | src/Sitemap.php:170-172 | When keywords are written, they form the last child of `<news:news>`, whose single text is the keywords joined by ", ". |
| Sitemap.Write | src/Sitemap.php:109-131 | `write` keeps the staged fields and leaves nothing buffered and nothing open. The file gains the old buffer followed by one `End` per element still open: exactly one `End` for a writer with only the root open, none for a closed writer. A consistent writer yields a well-nested file. |
| XmlWriter.Sink.WriteElement | src/Sitemap.php:159-169 | `writeElement(name, content)` writes one complete element and leaves the depth unchanged: start tag, one text child when the content is a string, end tag. |
| XmlWriter.WriteElementEvents | src/Sitemap.php:159-169 | The libxml behaviour assumed for `writeElement`: null content (an unset `news:name`, `news:language` or `news:title`) gives `Start`, `End` with no text, and any string, "" included, gives `Start`, `Text`, `End`. |
| XmlWriter.EndElementCloses | src/Sitemap.php:112 | The libxml behaviour assumed for `endElement`: with nothing open it writes nothing and changes nothing. Otherwise it adds one event, which closes exactly one open element, and keeps what was buffered. |
| XmlWriter.Sink.EndDocument | src/Sitemap.php:113 | The libxml behaviour assumed for `endDocument`: it keeps the earlier buffer, adds exactly as many events as elements are open, every one of them an `End`, and leaves nothing open. |
| XmlWriter.EndDocumentBalanced | src/Sitemap.php:113 | The closing tags `endDocument` adds bring the nesting depth from the open-element count down to zero without ever closing a missing element. |
| Php.EmptyStringCases | src/Sitemap.php:165 | `empty()` on the genres string: null, "" and "0" are empty; "00", "0.0", " " and "false" are not. |
| Php.EmptyArrayCases | src/Sitemap.php:170 | `empty()` on the keyword array: null and the empty array are empty; an array holding "" or "0" is not. |
| Php.ImplodeEnds | src/Sitemap.php:171 | `Implode`, the model of `implode`, gives "" for no pieces, and otherwise a string that starts with the first piece and ends with the last. |
| Php.ImplodeLoop | src/Sitemap.php:171 | `implode` written as a left-to-right loop, with the separator before every piece but the first, computes `Implode` on every input. |
| Php.ImplodeSnoc | src/Sitemap.php:171 | Joining one more piece appends the separator and that piece. |
| Php.ImplodeLength | src/Sitemap.php:171 | The joined string's length is the total length of the pieces plus one separator per gap. |
| Php.ImplodeKeywordsExample | src/Sitemap.php:171 | Keywords `a`, `b`, `c` are written as `a, b, c`. |
| Session.RunPending | src/Sitemap.php:154-175 | A run of setters and `addItem` calls on a freshly rooted writer succeeds iff every added item's location is a URL. It then holds the `<url>` elements of those items after the ones already held, in call order. An item inherits every field not set since the previous item. |
| Session.RunFailure | src/Sitemap.php:141-156 | A failing run fails at the first added item whose location is not a URL, and the error names that item's location. |
| Session.SessionDocument | src/Sitemap.php:85-175 | Construct, then any setters and `addItem` calls, then `write`. The run succeeds iff every item is valid, and the file is then exactly the serialization of one `<urlset>` document: both namespace attributes, one `<url>` per item in call order. The file is well nested. |
| Session.SitemapReadBack | src/Sitemap.php:158-159 | Parsing the finished file gives a single `urlset` root with the two namespace attributes. It has exactly one `url` child per `addItem` call, and child i's `loc` text is the location staged at the i-th `addItem`. |
| Session.RunConsistent | src/Sitemap.php:109-175 | Whatever the calls, including `write` and calls after it, no `End` closes an element that is not open. The open-element count stays the depth of everything produced. |
| Session.SecondWriteAddsNothing | src/Sitemap.php:109-116 | A second `write` appends nothing to the file. |
| Session.AddAfterWrite | src/Sitemap.php:154-158 | `addItem` after `write` is accepted. The next `write` leaves a well-nested file that is no longer one rooted document. |

## Left out

- File-system effects are reduced to a `Disk` parameter, which answers whether the directory exists, whether the file exists and whether it may be written. `dirname`, `realpath`, the deletion of an existing file and any failure of `file_put_contents` are not modelled. The file is modelled as the events appended to it since construction.
- The XML declaration written by `startDocument`, indentation (`setIndent`), character escaping and byte encoding sit below the event level of the model.
- `filter_var(..., FILTER_VALIDATE_URL)` and `date('c', ...)` are functions of the `Env` parameter. The staged date is handed to the formatter as it stands, null included, because PHP versions disagree on what `date` does with null.
- Sitemap.AddItem: fixes one publication-date text per staged date for the whole run, as `Env.formatDate(date)`. When `setPublicationDate` was never called, the date is null, and on PHP 8 `date('c', null)` reads the clock at each `addItem`. Two unset-date items added in different seconds then get different `news:publication_date` texts. The model gives both the single string `formatDate(None)`, so `Session.SessionDocument` describes that run only when the clock does not change between items.
- Sitemap.AddItem: assumes an integer (or null) date and string keywords. `setPublicationDate` takes any value, and `date('c', ...)` at line 168 can then throw a `TypeError`. `implode` at line 171 throws an `Error` for a keyword that is an object without `__toString`, while a nested array only raises a warning and is written as "Array". When `date` throws, `<url>`, `<loc>`, `<news:news>`, the publication element and possibly `<news:genres>` are already buffered; when `implode` throws, the date and title elements are too. That partial `<url>` would be flushed by the next `write`. The model has no such mid-element failure.
- PHP's dynamic typing is not modelled: the date is an integer timestamp, keywords are strings, and the `TypeError`s of the typed setters are out of scope.
- The `$useXhtml` constructor flag is stored but never read by the code, so it is not modelled.
- `flush`'s `$finishFile` argument is never read, and the `writer !== null` test in `finishFile` always passes after a successful construction. Both are omitted.
- Exceptions end a run (`Session.Run`). A caller that catches one and carries on holds the same object, which is the writer passed to the failing call.

