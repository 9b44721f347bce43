/** XML documents at the level a streaming writer sees them: a flat stream of
    events, and the element trees those streams serialize. Character escaping,
    indentation and the XML declaration are below this level of detail. */
module Xml {
  import opened Results

  /** One event of a streaming writer's output. `End` closes the innermost
      open element. */
  datatype Event = Start(name: string) | Attr(name: string, value: string) | Text(text: string) | End

  datatype Attribute = Attribute(name: string, value: string)

  /** An element tree: elements carry attributes and ordered children; leaves are text. */
  datatype Node = Element(name: string, attributes: seq<Attribute>, children: seq<Node>) | Leaf(text: string)

  function AttrEvents(attrs: seq<Attribute>): (es: seq<Event>)
    ensures |es| == |attrs|
  {
    if attrs == [] then [] else [Attr(attrs[0].name, attrs[0].value)] + AttrEvents(attrs[1..])
  }

  /** The event stream a streaming writer produces for a tree. */
  function Serialize(n: Node): seq<Event>
    decreases n
  {
    match n
    case Leaf(t) => [Text(t)]
    case Element(name, attrs, children) => [Start(name)] + AttrEvents(attrs) + SerializeAll(children) + [End]
  }

  function SerializeAll(ns: seq<Node>): seq<Event>
    decreases ns
  {
    if ns == [] then [] else Serialize(ns[0]) + SerializeAll(ns[1..])
  }

  lemma {:induction false} SerializeAllAppend(a: seq<Node>, b: seq<Node>)
    ensures SerializeAll(a + b) == SerializeAll(a) + SerializeAll(b)
  {
    if a == [] {
      assert a + b == b;
    } else {
      assert (a + b)[1..] == a[1..] + b;
      SerializeAllAppend(a[1..], b);
    }
  }

  lemma SerializeAllPair(a: Node, b: Node)
    ensures SerializeAll([a]) == Serialize(a)
    ensures SerializeAll([a, b]) == Serialize(a) + Serialize(b)
  {
    assert [a][1..] == [];
    assert [a, b][1..] == [b];
    assert [b][1..] == [];
  }

  lemma SerializeAllOptional(ns: seq<Node>)
    requires |ns| <= 1
    ensures SerializeAll(ns) == if ns == [] then [] else Serialize(ns[0])
  {
  }

  lemma AppendAssoc<T>(a: seq<T>, b: seq<T>, c: seq<T>, d: seq<T>, e: seq<T>)
    ensures a + b + c + d + e == a + (b + c + d + e)
  {
  }

  lemma AppendAssoc4<T>(a: seq<T>, b: seq<T>, c: seq<T>, d: seq<T>)
    ensures a + b + c + d == a + (b + (c + d))
  {
  }

  lemma AppendAssoc3<T>(a: seq<T>, b: seq<T>, c: seq<T>)
    ensures a + b + c == a + (b + c)
  {
  }

  /** A serialized forest never begins with an attribute event. */
  lemma SerializeAllHead(ns: seq<Node>)
    ensures SerializeAll(ns) == [] || !SerializeAll(ns)[0].Attr?
  {
  }

  // ---------------------------------------------------------------------
  // Nesting depth

  /** The nesting depth after reading `es` from depth `d`, or `None` when an
      `End` would close an element that is not open. */
  function Scan(es: seq<Event>, d: nat): Option<nat>
  {
    if es == [] then Some(d)
    else match es[0]
      case Start(_) => Scan(es[1..], d + 1)
      case End => if d == 0 then None else Scan(es[1..], d - 1)
      case _ => Scan(es[1..], d)
  }

  /** Every `End` closes an open element and nothing is left open. */
  predicate WellNested(es: seq<Event>)
  {
    Scan(es, 0) == Some(0)
  }

  /** Scanning a concatenation is scanning the parts one after the other. */
  lemma {:induction false} ScanAppend(a: seq<Event>, b: seq<Event>, d: nat)
    ensures Scan(a + b, d) == (match Scan(a, d) case None => None case Some(d') => Scan(b, d'))
    decreases |a|
  {
    if a == [] {
      assert a + b == b;
    } else {
      assert (a + b)[0] == a[0];
      assert (a + b)[1..] == a[1..] + b;
      match a[0]
      case Start(_) => ScanAppend(a[1..], b, d + 1);
      case End => if d > 0 { ScanAppend(a[1..], b, d - 1); }
      case Attr(_, _) => ScanAppend(a[1..], b, d);
      case Text(_) => ScanAppend(a[1..], b, d);
    }
  }

  /** Appending a balanced stretch keeps the depth a stream ends at. */
  lemma ScanExtend(prefix: seq<Event>, buffer: seq<Event>, added: seq<Event>, d: nat)
    requires Scan(prefix + buffer, 0) == Some(d)
    requires Scan(added, d) == Some(d)
    ensures Scan(prefix + (buffer + added), 0) == Some(d)
  {
    ScanAppend(prefix + buffer, added, 0);
    assert prefix + (buffer + added) == prefix + buffer + added;
  }

  lemma {:induction false} ScanAttrs(attrs: seq<Attribute>, d: nat)
    ensures Scan(AttrEvents(attrs), d) == Some(d)
  {
    if attrs != [] {
      ScanAttrs(attrs[1..], d);
    }
  }

  /** The serialization of any tree is balanced: it returns to the depth it started at. */
  lemma {:induction false} ScanSerialize(n: Node, d: nat)
    ensures Scan(Serialize(n), d) == Some(d)
    decreases n, 1
  {
    match n
    case Leaf(_) =>
    case Element(name, attrs, children) =>
      ScanSerializeAll(children, d + 1);
      ScanElement(name, attrs, children, d);
  }

  /** An element is balanced when its children are. */
  lemma ScanElement(name: string, attrs: seq<Attribute>, children: seq<Node>, d: nat)
    requires Scan(SerializeAll(children), d + 1) == Some(d + 1)
    ensures Scan(Serialize(Element(name, attrs, children)), d) == Some(d)
  {
    var body := SerializeAll(children) + [End];
    var tail := AttrEvents(attrs) + body;
    assert Scan([End], d + 1) == Some(d) by {
      assert [End][1..] == [];
    }
    ScanAppend(SerializeAll(children), [End], d + 1);
    assert Scan(body, d + 1) == Some(d);
    ScanAppend(AttrEvents(attrs), body, d + 1);
    ScanAttrs(attrs, d + 1);
    assert Scan(tail, d + 1) == Some(d);
    var es := Serialize(Element(name, attrs, children));
    AppendAssoc4([Start(name)], AttrEvents(attrs), SerializeAll(children), [End]);
    assert es == [Start(name)] + tail;
    assert es[0] == Start(name) && es[1..] == tail;
  }

  lemma {:induction false} ScanSerializeAll(ns: seq<Node>, d: nat)
    ensures Scan(SerializeAll(ns), d) == Some(d)
    decreases ns, 0
  {
    if ns != [] {
      ScanAppend(Serialize(ns[0]), SerializeAll(ns[1..]), d);
      ScanSerialize(ns[0], d);
      ScanSerializeAll(ns[1..], d);
    }
  }

  /** A serialized tree is a well-nested event stream. */
  lemma SerializeWellNested(n: Node)
    ensures WellNested(Serialize(n))
  {
    ScanSerialize(n, 0);
  }

  /** The names of the start tags in `es`, in document order. */
  function StartNames(es: seq<Event>): seq<string>
  {
    if es == [] then []
    else (if es[0].Start? then [es[0].name] else []) + StartNames(es[1..])
  }

  lemma {:induction false} StartNamesAppend(a: seq<Event>, b: seq<Event>)
    ensures StartNames(a + b) == StartNames(a) + StartNames(b)
    decreases |a|
  {
    if a == [] {
      assert a + b == b;
    } else {
      assert (a + b)[0] == a[0];
      assert (a + b)[1..] == a[1..] + b;
      StartNamesAppend(a[1..], b);
    }
  }

  /** A name is among the start tags exactly when a `Start` event carries it. */
  lemma {:induction false} StartNamesMember(es: seq<Event>, name: string)
    ensures name in StartNames(es) <==> Start(name) in es
    decreases |es|
  {
    if es != [] {
      StartNamesMember(es[1..], name);
      assert es == [es[0]] + es[1..];
    }
  }

  /** The element names of a tree in document order (preorder). */
  function Tags(n: Node): seq<string>
    decreases n
  {
    match n
    case Leaf(_) => []
    case Element(name, _, children) => [name] + TagsAll(children)
  }

  function TagsAll(ns: seq<Node>): seq<string>
    decreases ns
  {
    if ns == [] then [] else Tags(ns[0]) + TagsAll(ns[1..])
  }

  lemma {:induction false} TagsAllAppend(a: seq<Node>, b: seq<Node>)
    ensures TagsAll(a + b) == TagsAll(a) + TagsAll(b)
  {
    if a == [] {
      assert a + b == b;
    } else {
      assert (a + b)[1..] == a[1..] + b;
      TagsAllAppend(a[1..], b);
    }
  }

  lemma TagsPair(a: Node, b: Node)
    ensures TagsAll([a]) == Tags(a)
    ensures TagsAll([a, b]) == Tags(a) + Tags(b)
  {
    assert [a][1..] == [];
    assert [a, b][1..] == [b];
    assert [b][1..] == [];
  }

  lemma AttrNames(attrs: seq<Attribute>)
    ensures StartNames(AttrEvents(attrs)) == []
  {
  }

  /** The start tags of a serialized tree are its element names in document order. */
  lemma {:induction false} StartNamesTags(n: Node)
    ensures StartNames(Serialize(n)) == Tags(n)
    decreases n, 1
  {
    match n
    case Leaf(t) =>
      assert StartNames([Text(t)]) == [];
    case Element(name, attrs, children) =>
      StartNamesAppend([Start(name)] + AttrEvents(attrs) + SerializeAll(children), [End]);
      StartNamesAppend([Start(name)] + AttrEvents(attrs), SerializeAll(children));
      StartNamesAppend([Start(name)], AttrEvents(attrs));
      AttrNames(attrs);
      StartNamesAllTags(children);
      assert StartNames([End]) == [];
      assert StartNames([Start(name)]) == [name];
  }

  lemma {:induction false} StartNamesAllTags(ns: seq<Node>)
    ensures StartNames(SerializeAll(ns)) == TagsAll(ns)
    decreases ns, 0
  {
    if ns != [] {
      StartNamesAppend(Serialize(ns[0]), SerializeAll(ns[1..]));
      StartNamesTags(ns[0]);
      StartNamesAllTags(ns[1..]);
    }
  }

  // ---------------------------------------------------------------------
  // Reading an event stream back into a tree

  /** Reads the attribute events that directly follow a start tag. */
  function ParseAttrs(es: seq<Event>): (r: (seq<Attribute>, seq<Event>))
    ensures |r.1| <= |es|
  {
    if es != [] && es[0].Attr? then
      var more := ParseAttrs(es[1..]);
      ([Attribute(es[0].name, es[0].value)] + more.0, more.1)
    else ([], es)
  }

  /** Reads one node from the front of `es`; returns it with the unread rest. */
  function ParseNode(es: seq<Event>): (r: Option<(Node, seq<Event>)>)
    ensures r.Some? ==> |r.value.1| < |es|
    decreases |es|, 0
  {
    if es == [] then None
    else match es[0]
      case Text(t) => Some((Leaf(t), es[1..]))
      case Start(name) =>
        var (attrs, rest) := ParseAttrs(es[1..]);
        (match ParseChildren(rest)
         case None => None
         case Some((children, rest')) =>
           if rest' != [] && rest'[0].End? then Some((Element(name, attrs, children), rest'[1..])) else None)
      case _ => None
  }

  /** Reads sibling nodes up to (not including) the `End` of their parent. */
  function ParseChildren(es: seq<Event>): (r: Option<(seq<Node>, seq<Event>)>)
    ensures r.Some? ==> |r.value.1| <= |es|
    decreases |es|, 1
  {
    if es == [] || es[0].End? then Some(([], es))
    else match ParseNode(es)
      case None => None
      case Some((n, rest)) =>
        match ParseChildren(rest)
        case None => None
        case Some((ns, rest')) => Some(([n] + ns, rest'))
  }

  /** The single root element of a complete document, if `es` is one. */
  function ParseDocument(es: seq<Event>): Option<Node>
  {
    match ParseNode(es)
    case Some((n, rest)) => if rest == [] && n.Element? then Some(n) else None
    case None => None
  }

  lemma {:induction false} ParseAttrsRoundTrip(attrs: seq<Attribute>, rest: seq<Event>)
    requires rest == [] || !rest[0].Attr?
    ensures ParseAttrs(AttrEvents(attrs) + rest) == (attrs, rest)
  {
    if attrs == [] {
      assert AttrEvents(attrs) + rest == rest;
    } else {
      ParseAttrsRoundTrip(attrs[1..], rest);
      ParseAttrsStep(attrs[0], AttrEvents(attrs[1..]) + rest, attrs[1..], rest);
      AppendAssoc3([Attr(attrs[0].name, attrs[0].value)], AttrEvents(attrs[1..]), rest);
      assert [attrs[0]] + attrs[1..] == attrs;
    }
  }

  /** One more attribute event in front of the ones already read. */
  lemma ParseAttrsStep(a: Attribute, later: seq<Event>, attrs: seq<Attribute>, rest: seq<Event>)
    requires ParseAttrs(later) == (attrs, rest)
    ensures ParseAttrs([Attr(a.name, a.value)] + later) == ([a] + attrs, rest)
  {
  }

  /** Reading back what `Serialize` wrote gives the same tree, whatever follows it. */
  lemma {:induction false} ParseNodeRoundTrip(n: Node, rest: seq<Event>)
    ensures ParseNode(Serialize(n) + rest) == Some((n, rest))
    decreases n, 1
  {
    match n
    case Leaf(t) =>
      assert (Serialize(n) + rest)[1..] == rest;
    case Element(name, attrs, children) =>
      var es := Serialize(n) + rest;
      var after := SerializeAll(children) + ([End] + rest);
      assert es == [Start(name)] + (AttrEvents(attrs) + after);
      assert es[1..] == AttrEvents(attrs) + after;
      SerializeAllHead(children);
      ParseAttrsRoundTrip(attrs, after);
      ParseChildrenRoundTrip(children, [End] + rest);
      assert ([End] + rest)[1..] == rest;
  }

  lemma {:induction false} ParseChildrenRoundTrip(ns: seq<Node>, rest: seq<Event>)
    requires rest == [] || rest[0].End?
    ensures ParseChildren(SerializeAll(ns) + rest) == Some((ns, rest))
    decreases ns, 0
  {
    if ns == [] {
      assert SerializeAll(ns) + rest == rest;
    } else {
      ParseNodeRoundTrip(ns[0], SerializeAll(ns[1..]) + rest);
      ParseChildrenRoundTrip(ns[1..], rest);
      ParseChildrenCons(ns, rest);
    }
  }

  /** The inductive step of `ParseChildrenRoundTrip`: the first tree, then the others. */
  lemma ParseChildrenCons(ns: seq<Node>, rest: seq<Event>)
    requires ns != []
    requires ParseNode(Serialize(ns[0]) + (SerializeAll(ns[1..]) + rest)) == Some((ns[0], SerializeAll(ns[1..]) + rest))
    requires ParseChildren(SerializeAll(ns[1..]) + rest) == Some((ns[1..], rest))
    ensures ParseChildren(SerializeAll(ns) + rest) == Some((ns, rest))
  {
    var mid := SerializeAll(ns[1..]) + rest;
    var es := SerializeAll(ns) + rest;
    AppendAssoc3(Serialize(ns[0]), SerializeAll(ns[1..]), rest);
    assert es == Serialize(ns[0]) + mid;
    SerializeFront(ns[0], mid);
    ParseChildrenStep(es, ns[0], mid, ns[1..], rest);
    assert [ns[0]] + ns[1..] == ns;
  }

  /** A serialized tree starts with a start tag or a text, never an end tag. */
  lemma SerializeFront(n: Node, rest: seq<Event>)
    ensures Serialize(n) + rest != []
    ensures !(Serialize(n) + rest)[0].End?
  {
  }

  /** One node followed by its siblings. */
  lemma ParseChildrenStep(es: seq<Event>, n: Node, mid: seq<Event>, ns: seq<Node>, rest: seq<Event>)
    requires es != [] && !es[0].End?
    requires ParseNode(es) == Some((n, mid))
    requires ParseChildren(mid) == Some((ns, rest))
    ensures ParseChildren(es) == Some(([n] + ns, rest))
  {
  }

  /** Whatever `ParseAttrs` reads is exactly the attribute events it consumed. */
  lemma {:induction false} ParseAttrsExact(es: seq<Event>)
    ensures es == AttrEvents(ParseAttrs(es).0) + ParseAttrs(es).1
    ensures ParseAttrs(es).1 == [] || !ParseAttrs(es).1[0].Attr?
  {
    if es != [] && es[0].Attr? {
      ParseAttrsExact(es[1..]);
      var (attrs, rest) := ParseAttrs(es[1..]);
      var a := [Attribute(es[0].name, es[0].value)] + attrs;
      assert a[1..] == attrs;
      assert es == [es[0]] + es[1..];
    }
  }

  /** The parser accepts only serializations: what it reads is what was written. */
  lemma {:induction false} ParseNodeExact(es: seq<Event>)
    requires ParseNode(es).Some?
    ensures es == Serialize(ParseNode(es).value.0) + ParseNode(es).value.1
    decreases |es|, 0
  {
    match es[0]
    case Text(t) =>
      assert es == [es[0]] + es[1..];
    case Start(name) =>
      var (attrs, rest) := ParseAttrs(es[1..]);
      ParseAttrsExact(es[1..]);
      ParseNodeStart(es);
      var (children, rest') := ParseChildren(rest).value;
      ParseChildrenExact(rest);
      assert rest' == [End] + rest'[1..];
      assert es == [es[0]] + es[1..];
      ElementSplit(name, attrs, children, rest'[1..]);
    case End =>
      assert false;
    case Attr(_, _) =>
      assert false;
  }

  /** What the parser returns after a start tag: the element closed by an `End`. */
  lemma ParseNodeStart(es: seq<Event>)
    requires es != [] && es[0].Start?
    requires ParseNode(es).Some?
    ensures ParseChildren(ParseAttrs(es[1..]).1).Some?
    ensures var rest' := ParseChildren(ParseAttrs(es[1..]).1).value.1;
      && rest' != [] && rest'[0].End?
      && ParseNode(es).value ==
         (Element(es[0].name, ParseAttrs(es[1..]).0, ParseChildren(ParseAttrs(es[1..]).1).value.0), rest'[1..])
  {
  }

  lemma ElementSplit(name: string, attrs: seq<Attribute>, children: seq<Node>, rest: seq<Event>)
    ensures Serialize(Element(name, attrs, children)) + rest ==
      [Start(name)] + (AttrEvents(attrs) + (SerializeAll(children) + ([End] + rest)))
  {
    AppendAssoc4([Start(name)], AttrEvents(attrs), SerializeAll(children), [End]);
    AppendAssoc4(AttrEvents(attrs), SerializeAll(children), [End], rest);
    AppendAssoc3([Start(name)], AttrEvents(attrs) + (SerializeAll(children) + [End]), rest);
  }

  lemma {:induction false} ParseChildrenExact(es: seq<Event>)
    requires ParseChildren(es).Some?
    ensures es == SerializeAll(ParseChildren(es).value.0) + ParseChildren(es).value.1
    ensures ParseChildren(es).value.1 == [] || ParseChildren(es).value.1[0].End?
    decreases |es|, 1
  {
    if es == [] || es[0].End? {
      assert SerializeAll([]) + es == es;
    } else {
      var (n, rest) := ParseNode(es).value;
      ParseNodeExact(es);
      ParseChildrenExact(rest);
      var (ns, rest') := ParseChildren(rest).value;
      assert ([n] + ns)[0] == n;
      assert ([n] + ns)[1..] == ns;
    }
  }

  /** A document parses to root `n` exactly when it is the serialization of
      the element `n`: the parser and the serializer are mutually inverse. */
  lemma DocumentRoundTrip(es: seq<Event>, n: Node)
    ensures ParseDocument(es) == Some(n) <==> n.Element? && es == Serialize(n)
  {
    if n.Element? && es == Serialize(n) {
      ParseNodeRoundTrip(n, []);
      assert Serialize(n) + [] == Serialize(n);
    }
    if ParseDocument(es) == Some(n) {
      ParseNodeExact(es);
      assert Serialize(n) + [] == Serialize(n);
    }
  }
}
