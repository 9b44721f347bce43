/** Whole runs of the generator: construct, a sequence of setter and
    `addItem` calls, then `write`. The items a run describes are read off the
    calls alone, without any XML. The file the run leaves behind is compared
    with the `<urlset>` document those items call for. */
module Session {
  import opened Results
  import opened Xml
  import opened XmlWriter
  import opened Sitemap

  /** One public call on a constructed writer. */
  datatype Call = Set(op: Setter) | Add | Finish

  function Step(env: Env, w: Writer, c: Call): Result<Writer, Error>
  {
    match c
    case Set(op) => Ok(Apply(w, op))
    case Add => AddItem(env, w)
    case Finish => Ok(Write(w))
  }

  /** Performs the calls in order; the first exception ends the run. */
  function Run(env: Env, w: Writer, calls: seq<Call>): Result<Writer, Error>
    decreases |calls|
  {
    if calls == [] then Ok(w)
    else match Step(env, w, calls[0])
      case Err(e) => Err(e)
      case Ok(w') => Run(env, w', calls[1..])
  }

  /** The number of `addItem` calls. */
  function Adds(calls: seq<Call>): nat
  {
    if calls == [] then 0 else (if calls[0].Add? then 1 else 0) + Adds(calls[1..])
  }

  /** The staged fields at each `addItem` among `calls`, starting from `s`.
      Setters change only what they set, and `addItem` clears nothing, so an
      item inherits every field it does not set from the item before it. */
  function Items(s: Staged, calls: seq<Call>): (items: seq<Staged>)
    ensures |items| == Adds(calls)
    decreases |calls|
  {
    if calls == [] then []
    else match calls[0]
      case Set(op) => Items(Stage(s, op), calls[1..])
      case Add => [s] + Items(s, calls[1..])
      case Finish => Items(s, calls[1..])
  }

  /** No `write` among the calls. */
  predicate Open(calls: seq<Call>)
  {
    forall i :: 0 <= i < |calls| ==> !calls[i].Finish?
  }

  predicate AllValid(env: Env, items: seq<Staged>)
  {
    forall i :: 0 <= i < |items| ==> IsUrl(env, items[i].location)
  }

  function Urls(env: Env, items: seq<Staged>): (us: seq<Node>)
    ensures |us| == |items|
    ensures forall i :: 0 <= i < |items| ==> us[i] == UrlNode(env, items[i])
  {
    seq(|items|, i requires 0 <= i < |items| => UrlNode(env, items[i]))
  }

  /** The sitemap document for `items`: one `<url>` per item, in order. */
  function Document(env: Env, items: seq<Staged>): Node
  {
    Element("urlset", RootAttributes, Urls(env, items))
  }

  /** The text of the `<loc>` element that opens a `<url>`, if there is one. */
  function LocOf(u: Node): Option<string>
  {
    if u.Element? && |u.children| > 0 && u.children[0].Element? && u.children[0].name == "loc"
       && |u.children[0].children| == 1 && u.children[0].children[0].Leaf?
    then Some(u.children[0].children[0].text)
    else None
  }

  /** A writer between construction and `write`: the root start tag and the
      `<url>` elements of `items` are buffered, nothing is flushed. */
  predicate Pending(env: Env, w: Writer, items: seq<Staged>)
  {
    && w.file == []
    && w.xml == Sink(1, [Start("urlset")] + AttrEvents(RootAttributes) + SerializeAll(Urls(env, items)))
  }

  lemma PendingAdd(env: Env, w: Writer, items: seq<Staged>)
    requires Pending(env, w, items)
    requires IsUrl(env, w.staged.location)
    ensures AddItem(env, w).Ok?
    ensures Pending(env, AddItem(env, w).value, items + [w.staged])
  {
    var u := UrlNode(env, w.staged);
    var head := [Start("urlset")] + AttrEvents(RootAttributes);
    UrlsSnoc(env, items, w.staged);
    SerializeAllAppend(Urls(env, items), [u]);
    SerializeAllPair(u, u);
    AppendAssoc3(head, SerializeAll(Urls(env, items)), Serialize(u));
  }

  lemma UrlsSnoc(env: Env, items: seq<Staged>, s: Staged)
    ensures Urls(env, items + [s]) == Urls(env, items) + [UrlNode(env, s)]
  {
  }

  lemma AllValidAppend(env: Env, a: seq<Staged>, b: seq<Staged>)
    ensures AllValid(env, a + b) <==> AllValid(env, a) && AllValid(env, b)
  {
    if AllValid(env, a + b) {
      forall i | 0 <= i < |a| ensures IsUrl(env, a[i].location) {
        assert a[i] == (a + b)[i];
      }
      forall i | 0 <= i < |b| ensures IsUrl(env, b[i].location) {
        assert b[i] == (a + b)[|a| + i];
      }
    }
  }

  lemma AllValidCons(env: Env, s: Staged, later: seq<Staged>)
    ensures AllValid(env, [s] + later) <==> IsUrl(env, s.location) && AllValid(env, later)
  {
    var all := [s] + later;
    assert all[0] == s;
    if IsUrl(env, s.location) && AllValid(env, later) {
      forall i | 0 <= i < |all| ensures IsUrl(env, all[i].location) {
        if i > 0 { assert all[i] == later[i - 1]; }
      }
    }
    if AllValid(env, all) {
      forall i | 0 <= i < |later| ensures IsUrl(env, later[i].location) {
        assert later[i] == all[i + 1];
      }
    }
  }

  lemma OpenTail(calls: seq<Call>)
    requires calls != [] && Open(calls)
    ensures !calls[0].Finish? && Open(calls[1..])
  {
  }

  /** `e` is the exception for item `k`: the first item whose location is not a URL. */
  predicate FailsAtIndex(env: Env, items: seq<Staged>, e: Error, k: int)
  {
    && 0 <= k < |items|
    && AllValid(env, items[..k])
    && !IsUrl(env, items[k].location)
    && e == InvalidLocation(items[k].location)
  }

  predicate FailsAt(env: Env, items: seq<Staged>, e: Error)
  {
    exists k :: 0 <= k < |items| && FailsAtIndex(env, items, e, k)
  }

  lemma FailsAtShift(env: Env, now: seq<Staged>, later: seq<Staged>, e: Error)
    requires AllValid(env, now)
    requires FailsAt(env, later, e)
    ensures FailsAt(env, now + later, e)
  {
    var k :| 0 <= k < |later| && FailsAtIndex(env, later, e, k);
    assert (now + later)[..|now| + k] == now + later[..k];
    AllValidAppend(env, now, later[..k]);
    assert FailsAtIndex(env, now + later, e, |now| + k);
  }

  lemma FailsAtHead(env: Env, s: Staged, later: seq<Staged>)
    requires !IsUrl(env, s.location)
    ensures FailsAt(env, [s] + later, InvalidLocation(s.location))
  {
    assert ([s] + later)[..0] == [];
    assert FailsAtIndex(env, [s] + later, InvalidLocation(s.location), 0);
  }

  /** The items one call adds, and the staged fields after it. */
  function Added(s: Staged, c: Call): seq<Staged>
  {
    if c.Add? then [s] else []
  }

  function StagedAfter(s: Staged, c: Call): Staged
  {
    if c.Set? then Stage(s, c.op) else s
  }

  lemma ItemsStep(s: Staged, calls: seq<Call>)
    requires calls != []
    ensures Items(s, calls) == Added(s, calls[0]) + Items(StagedAfter(s, calls[0]), calls[1..])
  {
  }

  /** One setter or `addItem` call on a pending writer. */
  lemma StepPending(env: Env, w: Writer, items: seq<Staged>, c: Call)
    requires Pending(env, w, items)
    requires !c.Finish?
    ensures Step(env, w, c).Ok? <==> AllValid(env, Added(w.staged, c))
    ensures Step(env, w, c).Err? ==> Step(env, w, c).error.InvalidLocation?
    ensures Step(env, w, c).Ok? ==>
      && Pending(env, Step(env, w, c).value, items + Added(w.staged, c))
      && Step(env, w, c).value.staged == StagedAfter(w.staged, c)
  {
    if c.Add? {
      AllValidCons(env, w.staged, []);
      assert [w.staged] + [] == [w.staged];
      if IsUrl(env, w.staged.location) {
        PendingAdd(env, w, items);
      }
    } else {
      assert items + [] == items;
    }
  }

  /** Running setter and `addItem` calls on a pending writer: the run
      succeeds exactly when every item it adds has a valid location, and
      then the writer holds those items after the ones it held before. */
  lemma {:induction false} RunPending(env: Env, w: Writer, items: seq<Staged>, calls: seq<Call>)
    requires Pending(env, w, items)
    requires Open(calls)
    ensures Run(env, w, calls).Ok? <==> AllValid(env, Items(w.staged, calls))
    ensures Run(env, w, calls).Ok? ==> Pending(env, Run(env, w, calls).value, items + Items(w.staged, calls))
    decreases |calls|
  {
    if calls == [] {
      assert items + [] == items;
    } else {
      var c := calls[0];
      var rest := calls[1..];
      OpenTail(calls);
      StepPending(env, w, items, c);
      var now := Added(w.staged, c);
      var later := Items(StagedAfter(w.staged, c), rest);
      ItemsStep(w.staged, calls);
      AllValidAppend(env, now, later);
      if Step(env, w, c).Ok? {
        var w' := Step(env, w, c).value;
        assert Run(env, w, calls) == Run(env, w', rest);
        assert w'.staged == StagedAfter(w.staged, c);
        RunPending(env, w', items + now, rest);
        AppendAssoc3(items, now, later);
      } else {
        assert Run(env, w, calls).Err?;
      }
    }
  }

  /** A failing run fails at the first added item whose location is not a
      URL, with the exception naming that location. */
  lemma {:induction false} RunFailure(env: Env, w: Writer, items: seq<Staged>, calls: seq<Call>)
    requires Pending(env, w, items)
    requires Open(calls)
    ensures Run(env, w, calls).Err? ==> FailsAt(env, Items(w.staged, calls), Run(env, w, calls).error)
    decreases |calls|
  {
    if calls != [] {
      var c := calls[0];
      var rest := calls[1..];
      OpenTail(calls);
      StepPending(env, w, items, c);
      var now := Added(w.staged, c);
      var later := Items(StagedAfter(w.staged, c), rest);
      ItemsStep(w.staged, calls);
      if Step(env, w, c).Ok? {
        var w' := Step(env, w, c).value;
        RunFailure(env, w', items + now, rest);
        if Run(env, w', rest).Err? {
          FailsAtShift(env, now, later, Run(env, w', rest).error);
        }
      } else {
        assert now == [w.staged];
        FailsAtHead(env, w.staged, later);
      }
    }
  }

  /** Construct, any setter and `addItem` calls, then `write`: the run
      succeeds exactly when every added item has a valid location, and the
      file then holds exactly the sitemap document of the added items: one
      `<urlset>` root with both namespace attributes and one `<url>` per
      `addItem`, in call order. The file is well nested. */
  lemma SessionDocument(env: Env, path: string, disk: Disk, calls: seq<Call>)
    requires New(path, disk).Ok?
    requires Open(calls)
    ensures var r := Run(env, New(path, disk).value, calls);
      && (r.Ok? <==> AllValid(env, Items(Unset, calls)))
      && (r.Ok? ==> Write(r.value).file == Serialize(Document(env, Items(Unset, calls))))
      && (r.Ok? ==> WellNested(Write(r.value).file))
  {
    var w := New(path, disk).value;
    assert SerializeAll(Urls(env, [])) == [];
    assert w.xml.buffer == [Start("urlset")] + AttrEvents(RootAttributes) + SerializeAll(Urls(env, []));
    RunPending(env, w, [], calls);
    var r := Run(env, w, calls);
    if r.Ok? {
      var items := Items(Unset, calls);
      assert [] + items == items;
      var d := Document(env, items);
      assert Serialize(d) == [Start("urlset")] + AttrEvents(RootAttributes) + SerializeAll(Urls(env, items)) + [End];
      SerializeWellNested(d);
    }
  }

  /** Reading the finished file back: one `urlset` root with the two
      namespace attributes, exactly one `url` child per `addItem` call, and
      the `loc` texts of those children are the staged locations in call
      order. */
  lemma SitemapReadBack(env: Env, path: string, disk: Disk, calls: seq<Call>)
    requires New(path, disk).Ok?
    requires Open(calls)
    requires Run(env, New(path, disk).value, calls).Ok?
    ensures var doc := ParseDocument(Write(Run(env, New(path, disk).value, calls).value).file);
      && doc.Some?
      && doc.value.name == "urlset"
      && doc.value.attributes == RootAttributes
      && |doc.value.children| == Adds(calls)
      && (forall i :: 0 <= i < |doc.value.children| ==>
            doc.value.children[i].Element? && doc.value.children[i].name == "url"
            && LocOf(doc.value.children[i]) == Items(Unset, calls)[i].location)
  {
    SessionDocument(env, path, disk, calls);
    var items := Items(Unset, calls);
    var d := Document(env, items);
    DocumentRoundTrip(Serialize(d), d);
    forall i | 0 <= i < |items|
      ensures LocOf(Urls(env, items)[i]) == items[i].location
    {
      assert IsUrl(env, items[i].location);
    }
  }

  /** Whatever the calls, including `write` and calls after it, the writer's
      open-element count stays the nesting depth of everything it produced:
      no `End` ever closes an element that is not open. */
  lemma {:induction false} RunConsistent(env: Env, w: Writer, calls: seq<Call>)
    requires Consistent(w)
    ensures Run(env, w, calls).Ok? ==> Consistent(Run(env, w, calls).value)
    decreases |calls|
  {
    if calls != [] {
      var r := Step(env, w, calls[0]);
      if r.Ok? {
        RunConsistent(env, r.value, calls[1..]);
      }
    }
  }

  /** A second `write` appends nothing: the root is already closed. */
  lemma SecondWriteAddsNothing(w: Writer)
    ensures Write(Write(w)).file == Write(w).file
  {
  }

  /** No guard stops `addItem` after `write`: the item still succeeds, and
      the next `write` leaves a file that is well nested but is no longer a
      single-rooted document. */
  lemma AddAfterWrite(env: Env, w: Writer, items: seq<Staged>)
    requires Pending(env, w, items)
    requires IsUrl(env, w.staged.location)
    ensures AddItem(env, Write(w)).Ok?
    ensures WellNested(Write(AddItem(env, Write(w)).value).file)
    ensures ParseDocument(Write(AddItem(env, Write(w)).value).file).None?
  {
    var d := Document(env, items);
    var u := UrlNode(env, w.staged);
    assert Serialize(d) == [Start("urlset")] + AttrEvents(RootAttributes) + SerializeAll(Urls(env, items)) + [End];
    assert Write(w).file == Serialize(d);
    var w2 := AddItem(env, Write(w)).value;
    assert w2.xml.buffer == Serialize(u);
    assert Write(w2).file == Serialize(d) + Serialize(u);
    ParseNodeRoundTrip(d, Serialize(u));
    ScanAppend(Serialize(d), Serialize(u), 0);
    ScanSerialize(d, 0);
    ScanSerialize(u, 0);
  }
}
