/** PHP's `XMLWriter` in memory mode, seen as an event sink: it appends events
    to a buffer and keeps the number of open elements, and `Flush` hands the
    buffer over and empties it. */
module XmlWriter {
  import opened Results
  import opened Xml

  /** `n` copies of `End`. */
  function Ends(n: nat): (es: seq<Event>)
    ensures |es| == n
    ensures forall i :: 0 <= i < n ==> es[i] == End
  {
    if n == 0 then [] else [End] + Ends(n - 1)
  }

  /** The tree `writeElement(name, content)` writes: a null content gives an
      element with no text at all, any string one text child. */
  function SimpleElement(name: string, content: Option<string>): Node
  {
    Element(name, [], if content.Some? then [Leaf(content.value)] else [])
  }

  /** `writeElement` opens exactly one tag, the one it names. */
  lemma SimpleElementTags(name: string, content: Option<string>)
    ensures Tags(SimpleElement(name, content)) == [name]
  {
    if content.Some? {
      TagsPair(Leaf(content.value), Leaf(content.value));
    }
  }

  /** `depth` open elements; `buffer` holds the events not yet flushed. */
  datatype Sink = Sink(depth: nat, buffer: seq<Event>) {

    function StartElement(name: string): Sink
    {
      Sink(depth + 1, buffer + [Start(name)])
    }

    function WriteAttribute(name: string, value: string): Sink
    {
      Sink(depth, buffer + [Attr(name, value)])
    }

    function WriteText(text: string): Sink
    {
      Sink(depth, buffer + [Text(text)])
    }

    /** Closes the innermost open element; with nothing open the writer
        refuses and writes nothing. */
    function EndElement(): Sink
    {
      if depth == 0 then this else Sink(depth - 1, buffer + [End])
    }

    /** Start tag, optional text, end tag: one complete element. */
    function WriteElement(name: string, content: Option<string>): (s: Sink)
      ensures s.depth == depth
      ensures s.buffer == buffer + Serialize(SimpleElement(name, content))
    {
      var open := StartElement(name);
      var children := if content.Some? then [Leaf(content.value)] else [];
      assert SerializeAll(children) == if content.Some? then [Text(content.value)] else [];
      (if content.Some? then open.WriteText(content.value) else open).EndElement()
    }

    /** Ends the document, closing every element still open: one `End` per
        open element after what is already buffered. */
    function EndDocument(): (s: Sink)
      ensures s.depth == 0
      ensures |s.buffer| == |buffer| + depth && s.buffer[..|buffer|] == buffer
      ensures forall i :: |buffer| <= i < |s.buffer| ==> s.buffer[i] == End
    {
      Sink(0, buffer + Ends(depth))
    }

    /** Returns the buffered events and empties the buffer. */
    function Flush(): (r: (seq<Event>, Sink))
      ensures r.0 + r.1.buffer == buffer
      ensures r.1.buffer == [] && r.1.depth == depth
    {
      (buffer, Sink(depth, []))
    }
  }

  /** `endElement` with nothing open writes nothing and changes nothing;
      otherwise it adds one event, which closes exactly one open element. */
  lemma EndElementCloses(x: Sink)
    ensures |x.EndElement().buffer| >= |x.buffer| && x.EndElement().buffer[..|x.buffer|] == x.buffer
    ensures x.depth == 0 ==> x.EndElement() == x
    ensures x.depth > 0 ==>
      && x.EndElement().depth == x.depth - 1
      && |x.EndElement().buffer| == |x.buffer| + 1
      && Scan(x.EndElement().buffer[|x.buffer|..], x.depth) == Some(x.EndElement().depth)
  {
    if x.depth > 0 {
      assert x.EndElement().buffer[|x.buffer|..] == [End];
    }
  }

  /** The events `endDocument` adds take the open-element count from its
      current value down to zero, never below. */
  lemma EndDocumentBalanced(x: Sink)
    ensures Scan(x.EndDocument().buffer[|x.buffer|..], x.depth) == Some(0)
  {
    assert x.EndDocument().buffer[|x.buffer|..] == Ends(x.depth);
    ScanEnds(x.depth);
  }

  /** `writeElement` with null content writes an empty element; with any
      string, including "", it writes the text between the tags. */
  lemma WriteElementEvents(x: Sink, name: string, content: Option<string>)
    ensures content.None? ==> x.WriteElement(name, content).buffer == x.buffer + [Start(name), End]
    ensures content.Some? ==>
      x.WriteElement(name, content).buffer == x.buffer + [Start(name), Text(content.value), End]
  {
    assert AttrEvents([]) == [];
  }

  /** Closing an element whose start tag and children were written completes it. */
  lemma CloseElement(x: Sink, name: string, children: seq<Node>, inner: Sink)
    requires inner.depth == x.depth + 1
    requires inner.buffer == x.buffer + [Start(name)] + SerializeAll(children)
    ensures inner.EndElement() == Sink(x.depth, x.buffer + Serialize(Element(name, [], children)))
  {
  }

  lemma {:induction false} ScanEnds(n: nat)
    ensures Scan(Ends(n), n) == Some(0)
  {
    if n > 0 {
      assert Ends(n)[1..] == Ends(n - 1);
      ScanEnds(n - 1);
    }
  }
}
