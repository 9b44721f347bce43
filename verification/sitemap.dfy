/** The `Sitemap` writer of a Google News sitemap generator. The writer stages
    the fields of the next news item through setters, and `AddItem` turns
    them into one `<url>` element of a `<urlset>` document. `Write` closes the
    document and flushes it to the destination file.

    The writer is an immutable record here: every PHP method becomes a
    function from the old record to the new one, and a thrown exception
    becomes `Err`. The exceptions modelled are all thrown before anything is
    written, so the PHP object is then left exactly as it was. */
module Sitemap {
  import opened Results
  import opened Xml
  import opened XmlWriter
  import Php

  const SitemapNamespace: string := "http://www.sitemaps.org/schemas/sitemap/0.9"
  const NewsNamespace: string := "http://www.google.com/schemas/sitemap-news/0.9"
  const RootAttributes: seq<Attribute> :=
    [Attribute("xmlns", SitemapNamespace), Attribute("xmlns:news", NewsNamespace)]
  const KeywordSeparator: string := ", "

  /** The fields of the next item; `None` is a property still at PHP's `null`. */
  datatype Staged = Staged(
    location: Option<string>,
    title: Option<string>,
    name: Option<string>,
    date: Option<int>,
    keywords: Option<seq<string>>,
    genres: Option<string>,
    lang: Option<string>)

  /** A freshly constructed writer has staged nothing. */
  const Unset: Staged := Staged(None, None, None, None, None, None, None)

  /** The seven public setters, one constructor each. */
  datatype Setter =
    | SetKeywords(keywords: seq<string>)
    | SetTitle(title: string)
    | SetPublicationDate(date: int)
    | SetGenres(genres: string)
    | SetLanguage(lang: string)
    | SetName(name: string)
    | SetLoc(location: string)

  datatype Field = LocationField | TitleField | NameField | DateField | KeywordsField | GenresField | LangField

  /** The staged field a setter writes. */
  function Target(op: Setter): Field
  {
    match op
    case SetKeywords(_) => KeywordsField
    case SetTitle(_) => TitleField
    case SetPublicationDate(_) => DateField
    case SetGenres(_) => GenresField
    case SetLanguage(_) => LangField
    case SetName(_) => NameField
    case SetLoc(_) => LocationField
  }

  /** `s` and `t` hold the same value in field `f`. */
  predicate Agree(s: Staged, t: Staged, f: Field)
  {
    match f
    case LocationField => s.location == t.location
    case TitleField => s.title == t.title
    case NameField => s.name == t.name
    case DateField => s.date == t.date
    case KeywordsField => s.keywords == t.keywords
    case GenresField => s.genres == t.genres
    case LangField => s.lang == t.lang
  }

  /** `s` holds the value `op` writes, in the field `op` writes. */
  predicate Holds(s: Staged, op: Setter)
  {
    match op
    case SetKeywords(k) => s.keywords == Some(k)
    case SetTitle(t) => s.title == Some(t)
    case SetPublicationDate(d) => s.date == Some(d)
    case SetGenres(g) => s.genres == Some(g)
    case SetLanguage(l) => s.lang == Some(l)
    case SetName(n) => s.name == Some(n)
    case SetLoc(l) => s.location == Some(l)
  }

  /** A setter overwrites its own field and no other. */
  function Stage(s: Staged, op: Setter): (t: Staged)
    ensures Holds(t, op)
    ensures forall f :: f != Target(op) ==> Agree(s, t, f)
  {
    match op
    case SetKeywords(k) => s.(keywords := Some(k))
    case SetTitle(t) => s.(title := Some(t))
    case SetPublicationDate(d) => s.(date := Some(d))
    case SetGenres(g) => s.(genres := Some(g))
    case SetLanguage(l) => s.(lang := Some(l))
    case SetName(n) => s.(name := Some(n))
    case SetLoc(l) => s.(location := Some(l))
  }

  /** What the generator asks of code it does not contain: the URL validator
      behind `filter_var(..., FILTER_VALIDATE_URL)` and `date('c', ...)`,
      which is handed the staged date as it stands (null included). */
  datatype Env = Env(validUrl: string -> bool, formatDate: Option<int> -> string)

  /** The file system's answers for the destination path: does its directory
      exist, does a file exist there, and may that file be written. */
  datatype Disk = Disk(dirExists: bool, fileExists: bool, fileWritable: bool)

  datatype Error =
    | DirectoryMissing(path: string)        // InvalidArgumentException from the constructor
    | NotWritable(path: string)             // RuntimeException from createNewFile
    | InvalidLocation(location: Option<string>)  // InvalidArgumentException from validateLocation

  /** The staged fields, the in-memory XML writer, and everything flushed to
      the destination file since construction. */
  datatype Writer = Writer(staged: Staged, xml: Sink, file: seq<Event>)

  /** The writer's count of open elements is the nesting depth of all it has
      produced, flushed or not, and no `End` ever closed a missing element. */
  predicate Consistent(w: Writer)
  {
    Scan(w.file + w.xml.buffer, 0) == Some(w.xml.depth)
  }

  /** The constructor: the directory check, then the existing-file check,
      then the root element with its two namespace attributes, left open. */
  function New(path: string, disk: Disk): (r: Result<Writer, Error>)
    ensures r.Err? <==> !disk.dirExists || (disk.fileExists && !disk.fileWritable)
    ensures !disk.dirExists ==> r == Err(DirectoryMissing(path))
    ensures disk.dirExists && r.Err? ==> r == Err(NotWritable(path))
    ensures r.Ok? ==> r.value.staged == Unset && r.value.file == []
    ensures r.Ok? ==> r.value.xml.depth == 1
    ensures r.Ok? ==>
      r.value.xml.buffer == [Start("urlset"), Attr("xmlns", SitemapNamespace), Attr("xmlns:news", NewsNamespace)]
    ensures r.Ok? ==> Consistent(r.value)
  {
    if !disk.dirExists then Err(DirectoryMissing(path))
    else if disk.fileExists && !disk.fileWritable then Err(NotWritable(path))
    else
      var xml := Sink(0, [])
        .StartElement("urlset")
        .WriteAttribute("xmlns", SitemapNamespace)
        .WriteAttribute("xmlns:news", NewsNamespace);
      assert xml.buffer == [Start("urlset")] + AttrEvents(RootAttributes);
      ScanAttrs(RootAttributes, 1);
      assert xml.buffer[1..] == AttrEvents(RootAttributes);
      assert [] + xml.buffer == xml.buffer;
      Ok(Writer(Unset, xml, []))
  }

  /** A setter call: one staged field changes, and nothing is written. */
  function Apply(w: Writer, op: Setter): (r: Writer)
    ensures r.xml == w.xml && r.file == w.file
    ensures Holds(r.staged, op)
    ensures forall f :: f != Target(op) ==> Agree(w.staged, r.staged, f)
  {
    w.(staged := Stage(w.staged, op))
  }

  /** `filter_var($location, FILTER_VALIDATE_URL) !== false`; null is never a URL. */
  predicate IsUrl(env: Env, location: Option<string>)
  {
    location.Some? && env.validUrl(location.value)
  }

  /** `validateLocation`: the location itself, or the exception naming it. */
  function ValidateLocation(env: Env, location: Option<string>): (r: Result<string, Error>)
    ensures r.Ok? <==> IsUrl(env, location)
    ensures r.Ok? ==> location == Some(r.value)
    ensures r.Err? ==> r.error == InvalidLocation(location)
  {
    if IsUrl(env, location) then Ok(location.value) else Err(InvalidLocation(location))
  }

  /** Genres are written unless PHP's `empty()` holds of them. */
  predicate ShowsGenres(s: Staged)
  {
    !Php.EmptyString(s.genres)
  }

  /** Keywords are written unless the array is null or empty. */
  predicate ShowsKeywords(s: Staged)
  {
    !Php.EmptyArray(s.keywords)
  }

  /** `<news:publication>` with the publication's name and language. */
  function Publication(s: Staged): Node
  {
    Element("news:publication", [], [SimpleElement("news:name", s.name), SimpleElement("news:language", s.lang)])
  }

  function GenresPart(s: Staged): seq<Node>
  {
    if ShowsGenres(s) then [SimpleElement("news:genres", s.genres)] else []
  }

  function DateAndTitle(env: Env, s: Staged): seq<Node>
  {
    [SimpleElement("news:publication_date", Some(env.formatDate(s.date))), SimpleElement("news:title", s.title)]
  }

  function KeywordsPart(s: Staged): seq<Node>
  {
    if ShowsKeywords(s) then
      [SimpleElement("news:keywords", Some(Php.Implode(KeywordSeparator, s.keywords.value)))]
    else []
  }

  /** The children of `<news:news>` for the staged fields, in document order. */
  function NewsChildren(env: Env, s: Staged): seq<Node>
  {
    [Publication(s)] + GenresPart(s) + DateAndTitle(env, s) + KeywordsPart(s)
  }

  /** The `<url>` element one item becomes. */
  function UrlNode(env: Env, s: Staged): Node
  {
    Element("url", [], [SimpleElement("loc", s.location), Element("news:news", [], NewsChildren(env, s))])
  }

  lemma NewsEvents(env: Env, s: Staged)
    ensures SerializeAll(NewsChildren(env, s)) ==
      Serialize(Publication(s)) + SerializeAll(GenresPart(s)) + SerializeAll(DateAndTitle(env, s))
      + SerializeAll(KeywordsPart(s))
  {
    var p := [Publication(s)];
    SerializeAllAppend(p + GenresPart(s) + DateAndTitle(env, s), KeywordsPart(s));
    SerializeAllAppend(p + GenresPart(s), DateAndTitle(env, s));
    SerializeAllAppend(p, GenresPart(s));
    SerializeAllPair(Publication(s), Publication(s));
  }

  /** An element without attributes is its start tag, its children and its end tag. */
  lemma PlainElementEvents(name: string, children: seq<Node>)
    ensures Serialize(Element(name, [], children)) == [Start(name)] + SerializeAll(children) + [End]
  {
  }

  /** The calls that write `<news:publication>`. */
  function WritePublication(x: Sink, s: Staged): (y: Sink)
    ensures y.depth == x.depth
    ensures y.buffer == x.buffer + Serialize(Publication(s))
  {
    var name := SimpleElement("news:name", s.name);
    var lang := SimpleElement("news:language", s.lang);
    var a := x.StartElement("news:publication");
    var b := a.WriteElement("news:name", s.name);
    var c := b.WriteElement("news:language", s.lang);
    var y := c.EndElement();
    SerializeAllPair(name, lang);
    PlainElementEvents("news:publication", [name, lang]);
    assert y.buffer == x.buffer + [Start("news:publication")] + Serialize(name) + Serialize(lang) + [End];
    y
  }

  /** The calls that write `news:publication_date` and `news:title`. */
  function WriteDateAndTitle(x: Sink, env: Env, s: Staged): (y: Sink)
    ensures y.depth == x.depth
    ensures y.buffer == x.buffer + SerializeAll(DateAndTitle(env, s))
  {
    var y := x
      .WriteElement("news:publication_date", Some(env.formatDate(s.date)))
      .WriteElement("news:title", s.title);
    SerializeAllPair(DateAndTitle(env, s)[0], DateAndTitle(env, s)[1]);
    y
  }

  /** The optional `news:genres` element, written unless `empty()` holds of the genres. */
  function WriteGenres(x: Sink, s: Staged): (y: Sink)
    ensures y.depth == x.depth
    ensures y.buffer == x.buffer + SerializeAll(GenresPart(s))
  {
    SerializeAllOptional(GenresPart(s));
    if ShowsGenres(s) then x.WriteElement("news:genres", s.genres) else x
  }

  /** The optional `news:keywords` element, the keywords joined by ", ". */
  function WriteKeywords(x: Sink, s: Staged): (y: Sink)
    ensures y.depth == x.depth
    ensures y.buffer == x.buffer + SerializeAll(KeywordsPart(s))
  {
    SerializeAllOptional(KeywordsPart(s));
    if ShowsKeywords(s) then
      x.WriteElement("news:keywords", Some(Php.Implode(KeywordSeparator, s.keywords.value)))
    else x
  }

  /** The XMLWriter calls that write the children of `<news:news>`, in source order. */
  function WriteNews(x: Sink, env: Env, s: Staged): (y: Sink)
    ensures y.depth == x.depth
    ensures y.buffer == x.buffer + SerializeAll(NewsChildren(env, s))
  {
    var x1 := WritePublication(x, s);
    var x2 := WriteGenres(x1, s);
    var x3 := WriteDateAndTitle(x2, env, s);
    var x4 := WriteKeywords(x3, s);
    NewsEvents(env, s);
    AppendAssoc(x.buffer, Serialize(Publication(s)), SerializeAll(GenresPart(s)),
                SerializeAll(DateAndTitle(env, s)), SerializeAll(KeywordsPart(s)));
    x4
  }

  lemma UrlEvents(env: Env, s: Staged)
    ensures Serialize(UrlNode(env, s)) ==
      [Start("url")] + Serialize(SimpleElement("loc", s.location))
      + Serialize(Element("news:news", [], NewsChildren(env, s))) + [End]
  {
    var loc := SimpleElement("loc", s.location);
    var news := Element("news:news", [], NewsChildren(env, s));
    SerializeAllPair(loc, news);
    PlainElementEvents("url", [loc, news]);
  }

  /** The XMLWriter calls of `addItem` after validation, in source order;
      together they write exactly the events of the item's `<url>` element. */
  function WriteUrl(x: Sink, env: Env, s: Staged): (y: Sink)
    ensures y.depth == x.depth
    ensures y.buffer == x.buffer + Serialize(UrlNode(env, s))
  {
    var a := x.StartElement("url");
    var b := a.WriteElement("loc", s.location);
    var c := b.StartElement("news:news");
    var d := WriteNews(c, env, s);
    CloseElement(b, "news:news", NewsChildren(env, s), d);
    var e := d.EndElement();
    UrlEvents(env, s);
    AppendAssoc(x.buffer, [Start("url")], Serialize(SimpleElement("loc", s.location)),
                Serialize(Element("news:news", [], NewsChildren(env, s))), [End]);
    e.EndElement()
  }

  /** `addItem`: validate the staged location before anything is written,
      then write one `<url>` element for the staged fields. The staged fields
      are kept and nothing reaches the file. With the date an integer and the
      keywords strings, nothing after the validation can throw.
      `Statements.AddItemExecuted` runs the same body statement by statement. */
  function AddItem(env: Env, w: Writer): (r: Result<Writer, Error>)
    ensures r.Err? <==> !IsUrl(env, w.staged.location)
    ensures r.Err? ==> r.error == InvalidLocation(w.staged.location)
    ensures r.Ok? ==> r.value.staged == w.staged && r.value.file == w.file && r.value.xml.depth == w.xml.depth
    ensures r.Ok? ==> r.value.xml.buffer == w.xml.buffer + Serialize(UrlNode(env, w.staged))
    ensures r.Ok? && Consistent(w) ==> Consistent(r.value)
  {
    var _ :- ValidateLocation(env, w.staged.location);
    var s := w.staged;
    var x := WriteUrl(w.xml, env, s);
    ScanSerialize(UrlNode(env, s), w.xml.depth);
    assert Consistent(w) ==> Consistent(w.(xml := x)) by {
      if Consistent(w) {
        ScanExtend(w.file, w.xml.buffer, Serialize(UrlNode(env, s)), w.xml.depth);
      }
    }
    Ok(w.(xml := x))
  }

  lemma PublicationTags(s: Staged)
    ensures Tags(Publication(s)) == ["news:publication", "news:name", "news:language"]
  {
    var name := SimpleElement("news:name", s.name);
    var lang := SimpleElement("news:language", s.lang);
    TagsPair(name, lang);
    SimpleElementTags("news:name", s.name);
    SimpleElementTags("news:language", s.lang);
  }

  lemma GenresTags(s: Staged)
    ensures TagsAll(GenresPart(s)) == if ShowsGenres(s) then ["news:genres"] else []
  {
    if ShowsGenres(s) {
      TagsPair(GenresPart(s)[0], GenresPart(s)[0]);
      SimpleElementTags("news:genres", s.genres);
    }
  }

  lemma KeywordsTags(s: Staged)
    ensures TagsAll(KeywordsPart(s)) == if ShowsKeywords(s) then ["news:keywords"] else []
  {
    if ShowsKeywords(s) {
      TagsPair(KeywordsPart(s)[0], KeywordsPart(s)[0]);
      SimpleElementTags("news:keywords", Some(Php.Implode(KeywordSeparator, s.keywords.value)));
    }
  }

  lemma DateAndTitleTags(env: Env, s: Staged)
    ensures TagsAll(DateAndTitle(env, s)) == ["news:publication_date", "news:title"]
  {
    TagsPair(DateAndTitle(env, s)[0], DateAndTitle(env, s)[1]);
    SimpleElementTags("news:publication_date", Some(env.formatDate(s.date)));
    SimpleElementTags("news:title", s.title);
  }

  lemma NewsTagsSplit(env: Env, s: Staged)
    ensures TagsAll(NewsChildren(env, s)) ==
      Tags(Publication(s)) + TagsAll(GenresPart(s)) + TagsAll(DateAndTitle(env, s)) + TagsAll(KeywordsPart(s))
  {
    var p := [Publication(s)];
    var g := GenresPart(s);
    var dt := DateAndTitle(env, s);
    var k := KeywordsPart(s);
    TagsAllAppend(p + g + dt, k);
    TagsAllAppend(p + g, dt);
    TagsAllAppend(p, g);
    TagsPair(Publication(s), Publication(s));
  }

  lemma NewsTags(env: Env, s: Staged)
    ensures TagsAll(NewsChildren(env, s)) ==
      ["news:publication", "news:name", "news:language"]
      + (if ShowsGenres(s) then ["news:genres"] else [])
      + ["news:publication_date", "news:title"]
      + (if ShowsKeywords(s) then ["news:keywords"] else [])
  {
    NewsTagsSplit(env, s);
    PublicationTags(s);
    GenresTags(s);
    DateAndTitleTags(env, s);
    KeywordsTags(s);
  }

  /** The tags one item opens, in document order: the fixed skeleton of a
      `<url>` element, with `news:genres` and `news:keywords` present only
      when their fields are not empty. */
  lemma UrlStartNames(env: Env, s: Staged)
    ensures StartNames(Serialize(UrlNode(env, s))) ==
      ["url", "loc", "news:news", "news:publication", "news:name", "news:language"]
      + (if ShowsGenres(s) then ["news:genres"] else [])
      + ["news:publication_date", "news:title"]
      + (if ShowsKeywords(s) then ["news:keywords"] else [])
  {
    var loc := SimpleElement("loc", s.location);
    var news := Element("news:news", [], NewsChildren(env, s));
    StartNamesTags(UrlNode(env, s));
    TagsPair(loc, news);
    SimpleElementTags("loc", s.location);
    NewsTags(env, s);
  }

  /** `news:genres` is written if and only if the staged genres are not
      empty in PHP's sense: null, "" and "0" all suppress it. */
  lemma GenresEmitted(env: Env, s: Staged)
    ensures Start("news:genres") in Serialize(UrlNode(env, s)) <==> !Php.EmptyString(s.genres)
  {
    UrlStartNames(env, s);
    StartNamesMember(Serialize(UrlNode(env, s)), "news:genres");
  }

  /** `news:keywords` is written if and only if the keyword array is neither
      null nor empty. */
  lemma KeywordsEmitted(env: Env, s: Staged)
    ensures Start("news:keywords") in Serialize(UrlNode(env, s)) <==> !Php.EmptyArray(s.keywords)
  {
    UrlStartNames(env, s);
    StartNamesMember(Serialize(UrlNode(env, s)), "news:keywords");
  }

  /** When keywords are written they are the last child of `<news:news>`,
      holding one text: the keywords joined by ", ". */
  lemma KeywordsText(env: Env, s: Staged)
    requires !Php.EmptyArray(s.keywords)
    ensures var news := UrlNode(env, s).children[1];
      && news.name == "news:news"
      && news.children[|news.children| - 1]
         == Element("news:keywords", [], [Leaf(Php.Implode(", ", s.keywords.value))])
  {
  }

  /** `write`: close the root, end the document and flush. The buffered
      events are appended to the file, followed by one `End` per element
      still open; afterwards nothing is buffered and nothing is open. */
  function Write(w: Writer): (r: Writer)
    ensures r.staged == w.staged
    ensures r.xml.buffer == [] && r.xml.depth == 0
    ensures r.file == w.file + w.xml.buffer + Ends(w.xml.depth)
    ensures Consistent(w) ==> Consistent(r) && WellNested(r.file)
  {
    var x := w.xml.EndElement().EndDocument();
    var (out, x') := x.Flush();
    var r := w.(xml := x', file := w.file + out);
    assert out == w.xml.buffer + Ends(w.xml.depth);
    assert r.file == (w.file + w.xml.buffer) + Ends(w.xml.depth);
    ScanAppend(w.file + w.xml.buffer, Ends(w.xml.depth), 0);
    ScanEnds(w.xml.depth);
    assert r.file + r.xml.buffer == r.file;
    r
  }
}
