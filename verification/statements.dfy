/** The body of `addItem` as the list of statements PHP executes in order:
    the location check, then the XMLWriter calls. Running the list stops at
    the first statement that throws, and the writer is whatever the
    statements before it left. The order of the list is therefore what
    decides whether a rejected item leaves a trace in the buffer. */
module Statements {
  import opened Results
  import opened Xml
  import opened XmlWriter
  import opened Sitemap
  import Php

  /** One XMLWriter call of `addItem`. */
  datatype XmlCall = StartCall(name: string) | ElementCall(name: string, content: Option<string>) | EndCall

  /** One statement of `addItem`: `validateLocation` or a writer call. */
  datatype Statement = CheckLocation | Do(call: XmlCall)

  function Perform(x: Sink, c: XmlCall): Sink
  {
    match c
    case StartCall(name) => x.StartElement(name)
    case ElementCall(name, content) => x.WriteElement(name, content)
    case EndCall => x.EndElement()
  }

  /** The writer calls, one after the other. */
  function PerformAll(x: Sink, cs: seq<XmlCall>): Sink
    decreases |cs|
  {
    if cs == [] then x else PerformAll(Perform(x, cs[0]), cs[1..])
  }

  /** Runs the statements in order. A failing check throws: the run stops
      and returns the writer as the earlier statements left it, with the
      exception. */
  function Execute(env: Env, w: Writer, body: seq<Statement>): (Writer, Option<Error>)
    decreases |body|
  {
    if body == [] then (w, None)
    else match body[0]
      case CheckLocation =>
        (match ValidateLocation(env, w.staged.location)
         case Err(e) => (w, Some(e))
         case Ok(_) => Execute(env, w, body[1..]))
      case Do(c) => Execute(env, w.(xml := Perform(w.xml, c)), body[1..])
  }

  function Calls(cs: seq<XmlCall>): (body: seq<Statement>)
    ensures |body| == |cs|
    ensures forall i :: 0 <= i < |cs| ==> body[i] == Do(cs[i])
  {
    seq(|cs|, i requires 0 <= i < |cs| => Do(cs[i]))
  }

  // ---------------------------------------------------------------------
  // The calls of src/Sitemap.php lines 158-174, in source order

  function PublicationCalls(s: Staged): seq<XmlCall>
  {
    [StartCall("news:publication")] + [ElementCall("news:name", s.name)]
    + [ElementCall("news:language", s.lang)] + [EndCall]
  }

  function GenresCalls(s: Staged): seq<XmlCall>
  {
    if ShowsGenres(s) then [ElementCall("news:genres", s.genres)] else []
  }

  function DateAndTitleCalls(env: Env, s: Staged): seq<XmlCall>
  {
    [ElementCall("news:publication_date", Some(env.formatDate(s.date)))] + [ElementCall("news:title", s.title)]
  }

  function KeywordsCalls(s: Staged): seq<XmlCall>
  {
    if ShowsKeywords(s) then [ElementCall("news:keywords", Some(Php.Implode(KeywordSeparator, s.keywords.value)))]
    else []
  }

  function NewsCalls(env: Env, s: Staged): seq<XmlCall>
  {
    PublicationCalls(s) + GenresCalls(s) + DateAndTitleCalls(env, s) + KeywordsCalls(s)
  }

  function UrlCalls(env: Env, s: Staged): seq<XmlCall>
  {
    [StartCall("url")] + [ElementCall("loc", s.location)] + [StartCall("news:news")]
    + NewsCalls(env, s) + [EndCall] + [EndCall]
  }

  /** `addItem`: validate, then write. */
  function AddItemBody(env: Env, s: Staged): seq<Statement>
  {
    [CheckLocation] + Calls(UrlCalls(env, s))
  }

  // ---------------------------------------------------------------------
  // Running the calls

  lemma {:induction false} PerformAllAppend(x: Sink, a: seq<XmlCall>, b: seq<XmlCall>)
    ensures PerformAll(x, a + b) == PerformAll(PerformAll(x, a), b)
    decreases |a|
  {
    if a == [] {
      assert a + b == b;
    } else {
      assert (a + b)[0] == a[0];
      assert (a + b)[1..] == a[1..] + b;
      PerformAllAppend(Perform(x, a[0]), a[1..], b);
    }
  }

  lemma PerformOne(x: Sink, c: XmlCall)
    ensures PerformAll(x, [c]) == Perform(x, c)
  {
    assert [c][1..] == [];
  }

  lemma PerformTwo(x: Sink, a: seq<XmlCall>, c: XmlCall)
    ensures PerformAll(x, a + [c]) == Perform(PerformAll(x, a), c)
  {
    PerformAllAppend(x, a, [c]);
    PerformOne(PerformAll(x, a), c);
  }

  lemma PublicationPerformed(x: Sink, s: Staged)
    ensures PerformAll(x, PublicationCalls(s)) == WritePublication(x, s)
  {
    var c0 := [StartCall("news:publication")];
    var c1 := ElementCall("news:name", s.name);
    var c2 := ElementCall("news:language", s.lang);
    PerformOne(x, StartCall("news:publication"));
    PerformTwo(x, c0, c1);
    PerformTwo(x, c0 + [c1], c2);
    PerformTwo(x, c0 + [c1] + [c2], EndCall);
  }

  lemma GenresPerformed(x: Sink, s: Staged)
    ensures PerformAll(x, GenresCalls(s)) == WriteGenres(x, s)
  {
    if ShowsGenres(s) {
      PerformOne(x, ElementCall("news:genres", s.genres));
    }
  }

  lemma DateAndTitlePerformed(x: Sink, env: Env, s: Staged)
    ensures PerformAll(x, DateAndTitleCalls(env, s)) == WriteDateAndTitle(x, env, s)
  {
    var c0 := ElementCall("news:publication_date", Some(env.formatDate(s.date)));
    PerformOne(x, c0);
    PerformTwo(x, [c0], ElementCall("news:title", s.title));
  }

  lemma KeywordsPerformed(x: Sink, s: Staged)
    ensures PerformAll(x, KeywordsCalls(s)) == WriteKeywords(x, s)
  {
    if ShowsKeywords(s) {
      PerformOne(x, ElementCall("news:keywords", Some(Php.Implode(KeywordSeparator, s.keywords.value))));
    }
  }

  lemma NewsPerformed(x: Sink, env: Env, s: Staged)
    ensures PerformAll(x, NewsCalls(env, s)) == WriteNews(x, env, s)
  {
    var p := PublicationCalls(s);
    var g := GenresCalls(s);
    var dt := DateAndTitleCalls(env, s);
    PerformAllAppend(x, p + g + dt, KeywordsCalls(s));
    PerformAllAppend(x, p + g, dt);
    PerformAllAppend(x, p, g);
    PublicationPerformed(x, s);
    var x1 := WritePublication(x, s);
    GenresPerformed(x1, s);
    var x2 := WriteGenres(x1, s);
    DateAndTitlePerformed(x2, env, s);
    var x3 := WriteDateAndTitle(x2, env, s);
    KeywordsPerformed(x3, s);
  }

  /** The calls of `addItem` after the check are exactly `WriteUrl`. */
  lemma UrlPerformed(x: Sink, env: Env, s: Staged)
    ensures PerformAll(x, UrlCalls(env, s)) == WriteUrl(x, env, s)
  {
    var a := [StartCall("url")];
    var b := a + [ElementCall("loc", s.location)];
    var c := b + [StartCall("news:news")];
    var d := c + NewsCalls(env, s);
    var e := d + [EndCall];
    PerformOne(x, StartCall("url"));
    PerformTwo(x, a, ElementCall("loc", s.location));
    PerformTwo(x, b, StartCall("news:news"));
    PerformAllAppend(x, c, NewsCalls(env, s));
    NewsPerformed(PerformAll(x, c), env, s);
    PerformTwo(x, d, EndCall);
    PerformTwo(x, e, EndCall);
  }

  /** Writer calls never throw: running them is performing them. */
  lemma {:induction false} ExecuteCalls(env: Env, w: Writer, cs: seq<XmlCall>)
    ensures Execute(env, w, Calls(cs)) == (w.(xml := PerformAll(w.xml, cs)), None)
    decreases |cs|
  {
    if cs != [] {
      assert Calls(cs)[1..] == Calls(cs[1..]);
      ExecuteCalls(env, w.(xml := Perform(w.xml, cs[0])), cs[1..]);
    }
  }

  /** `addItem` run statement by statement. It throws exactly when the
      staged location is not a URL, and a throw leaves the writer exactly as
      it was: the check precedes every writer call. Without a throw the
      writer is the one `AddItem` returns. */
  lemma AddItemExecuted(env: Env, w: Writer)
    ensures var (w', thrown) := Execute(env, w, AddItemBody(env, w.staged));
      && (thrown.Some? <==> !IsUrl(env, w.staged.location))
      && (thrown.Some? ==> w' == w && thrown.value == AddItem(env, w).error)
      && (thrown.None? ==> w' == AddItem(env, w).value)
  {
    var body := AddItemBody(env, w.staged);
    assert body[0] == CheckLocation;
    assert body[1..] == Calls(UrlCalls(env, w.staged));
    ExecuteCalls(env, w, UrlCalls(env, w.staged));
    UrlPerformed(w.xml, env, w.staged);
  }
}
