/** The `w:bookmarkStart` and `w:bookmarkEnd` elements (section 17.13.6 of ECMA-376
    Part 1) and what each derives from the whole document: the next bookmark id and
    whether a bookmark is closed. The document is reduced to its bookmark markers in
    document order; every derived property is a function of that sequence, so asking
    it never changes the document. */
module BookmarkElements {
  import opened Wrappers
  import opened Decimal

  /** A bookmark marker element. A start carries the required attributes `w:name`
      and `w:id`, an end only `w:id`. Both are optional values here because an
      element is inserted bare and its attributes are assigned afterwards. */
  datatype Marker =
    | Start(name: Option<string>, id: Option<string>)
    | End(id: Option<string>)

  /** What the bookmark code can raise: reading an absent required attribute
      (InvalidXml), reading `name` off an end element (AttributeError), indexing
      the collection out of range (IndexError), ending a closed bookmark (ValueError). */
  datatype Error = InvalidXml | AttributeError | IndexError | ValueError

  /** The bookmark markers of the whole element tree, in document order. */
  type Document = seq<Marker>

  /** `doc` with `m` inserted at position `p`. */
  function Insert(doc: Document, p: nat, m: Marker): (r: Document)
    requires p <= |doc|
    ensures |r| == |doc| + 1 && r[p] == m
    ensures forall i :: 0 <= i < |doc| ==> r[Shifted(i, p)] == doc[i]
  {
    doc[..p] + [m] + doc[p..]
  }

  /** Where the element at `i` is found once an element is inserted at `p`. */
  function Shifted(i: nat, p: nat): nat {
    if i < p then i else i + 1
  }

  /** The positions of all start elements, in document order: the result of the
      tree-wide query for `w:bookmarkStart`. */
  function StartPositions(doc: Document): (r: seq<nat>)
    ensures |r| <= |doc|
    ensures forall k :: 0 <= k < |r| ==> r[k] < |doc| && doc[r[k]].Start?
    ensures forall k, l :: 0 <= k < l < |r| ==> r[k] < r[l]
    ensures forall j :: 0 <= j < |doc| && doc[j].Start? ==> j in r
  {
    if doc == [] then []
    else
      var n := |doc| - 1;
      StartPositions(doc[..n]) + (if doc[n].Start? then [n] else [])
  }

  /** The number of start elements: `len(bookmarks)`, and the count `_next_id`
      renders. At most the size of the document, and 0 iff it holds no start. */
  function StartCount(doc: Document): (r: nat)
    ensures r <= |doc|
    ensures r == 0 <==> forall j :: 0 <= j < |doc| ==> doc[j].End?
  {
    var starts := StartPositions(doc);
    assert starts != [] ==> doc[starts[0]].Start?;
    |starts|
  }

  /** The positions of the end elements whose `w:id` is `id`, in document order: the
      result of the query for `w:bookmarkEnd[@w:id='id']`. Ends without an id never
      match. */
  function MatchingEnds(doc: Document, id: string): (r: seq<nat>)
    ensures forall k :: 0 <= k < |r| ==> r[k] < |doc| && doc[r[k]] == End(Some(id))
    ensures forall k, l :: 0 <= k < l < |r| ==> r[k] < r[l]
    ensures forall j :: 0 <= j < |doc| && doc[j] == End(Some(id)) ==> j in r
  {
    if doc == [] then []
    else
      var n := |doc| - 1;
      MatchingEnds(doc[..n], id) + (if doc[n] == End(Some(id)) then [n] else [])
  }

  /** `_next_id`, the same on a start and on an end element: the number of start
      elements in the whole document, rendered in decimal. */
  function NextId(doc: Document): (r: string)
    ensures IsDecimal(r) && ParseNat(r) == StartCount(doc)
    ensures |r| > 0 && (|r| == 1 || r[0] != '0')
  {
    ParseNatToString(StartCount(doc));
    NatToString(StartCount(doc))
  }

  /** `is_closed` of the start element at `i`: whether at least one end element
      carries its id. Reading the absent id raises. */
  function StartIsClosed(doc: Document, i: nat): (r: Result<bool, Error>)
    requires i < |doc| && doc[i].Start?
    ensures r.Err? <==> doc[i].id.None?
    ensures r.Err? ==> r.error == InvalidXml
    ensures r == Ok(true) <==> doc[i].id.Some? && exists j :: 0 <= j < |doc| && doc[j] == End(doc[i].id)
  {
    match doc[i].id
    case None => Err(InvalidXml)
    case Some(id) =>
      var matching := MatchingEnds(doc, id);
      if |matching| == 0 then Ok(false)
      else
        assert doc[matching[0]] == End(Some(id));
        Ok(true)
  }

  /** `is_closed` of the end element at `i`: whether exactly one end element carries
      its id. That one may be the element itself, so the answer is true iff no other
      end element shares its id. */
  function EndIsClosed(doc: Document, i: nat): (r: Result<bool, Error>)
    requires i < |doc| && doc[i].End?
    ensures r.Err? <==> doc[i].id.None?
    ensures r.Err? ==> r.error == InvalidXml
    ensures r == Ok(true) <==> doc[i].id.Some? && forall k :: 0 <= k < |doc| && doc[k] == doc[i] ==> k == i
  {
    match doc[i].id
    case None => Err(InvalidXml)
    case Some(id) =>
      var matching := MatchingEnds(doc, id);
      assert i in matching;
      if |matching| == 1 then Ok(true)
      else
        assert matching[0] < matching[1];
        assert matching[0] != i || matching[1] != i;
        Ok(false)
  }

  /** Matching ends of a concatenation are those of its parts. */
  lemma {:induction false} MatchingEndsConcat(a: Document, b: Document, id: string)
    ensures |MatchingEnds(a + b, id)| == |MatchingEnds(a, id)| + |MatchingEnds(b, id)|
    decreases |b|
  {
    if b == [] {
      assert a + b == a;
    } else {
      var n := |b| - 1;
      assert (a + b)[..|a + b| - 1] == a + b[..n];
      MatchingEndsConcat(a, b[..n], id);
    }
  }

  /** Start positions of a concatenation: those of its parts. */
  lemma {:induction false} StartCountConcat(a: Document, b: Document)
    ensures StartCount(a + b) == StartCount(a) + StartCount(b)
    decreases |b|
  {
    if b == [] {
      assert a + b == a;
    } else {
      var n := |b| - 1;
      assert (a + b)[..|a + b| - 1] == a + b[..n];
      StartCountConcat(a, b[..n]);
    }
  }

  /** Inserting a marker anywhere adds one matching end exactly when the marker is an
      end carrying that id. */
  lemma MatchingEndsInsert(doc: Document, p: nat, m: Marker, id: string)
    requires p <= |doc|
    ensures |MatchingEnds(Insert(doc, p, m), id)| == |MatchingEnds(doc, id)| + (if m == End(Some(id)) then 1 else 0)
  {
    assert doc == doc[..p] + doc[p..];
    assert Insert(doc, p, m) == doc[..p] + ([m] + doc[p..]);
    MatchingEndsConcat(doc[..p], [m] + doc[p..], id);
    MatchingEndsConcat([m], doc[p..], id);
    MatchingEndsConcat(doc[..p], doc[p..], id);
    assert [m][..0] == [];
  }

  /** Inserting a marker anywhere adds one start exactly when it is a start. */
  lemma StartCountInsert(doc: Document, p: nat, m: Marker)
    requires p <= |doc|
    ensures StartCount(Insert(doc, p, m)) == StartCount(doc) + (if m.Start? then 1 else 0)
  {
    assert doc == doc[..p] + doc[p..];
    assert Insert(doc, p, m) == doc[..p] + ([m] + doc[p..]);
    StartCountConcat(doc[..p], [m] + doc[p..]);
    StartCountConcat([m], doc[p..]);
    StartCountConcat(doc[..p], doc[p..]);
    assert [m][..0] == [];
  }

  /** Appending a marker appends its position when it is a start. */
  lemma StartPositionsAppend(doc: Document, m: Marker)
    ensures StartPositions(doc + [m]) == StartPositions(doc) + (if m.Start? then [|doc|] else [])
  {
    assert (doc + [m])[..|doc|] == doc;
  }

  /** Appending a marker appends its position when it is an end carrying `id`. */
  lemma MatchingEndsAppend(doc: Document, m: Marker, id: string)
    ensures MatchingEnds(doc + [m], id) == MatchingEnds(doc, id) + (if m == End(Some(id)) then [|doc|] else [])
  {
    assert (doc + [m])[..|doc|] == doc;
  }

  /** `_next_id` counts starts, not ends: inserting an end element, with or without
      an id, never changes it. */
  lemma NextIdIgnoresEnds(doc: Document, p: nat, id: Option<string>)
    requires p <= |doc|
    ensures NextId(Insert(doc, p, End(id))) == NextId(doc)
  {
    StartCountInsert(doc, p, End(id));
  }

  /** Once a start element is inserted, `_next_id` is one more than before. */
  lemma NextIdCountsNewStart(doc: Document, p: nat, name: Option<string>, id: Option<string>)
    requires p <= |doc|
    ensures NextId(Insert(doc, p, Start(name, id))) == NatToString(StartCount(doc) + 1)
    ensures ParseNat(NextId(Insert(doc, p, Start(name, id)))) == ParseNat(NextId(doc)) + 1
  {
    StartCountInsert(doc, p, Start(name, id));
  }

  /** A marker that is not an end carrying the asking element's id (an end with a
      different id, an end with no id, any start) changes neither `is_closed`. */
  lemma UnrelatedMarkerKeepsClosed(doc: Document, p: nat, m: Marker, i: nat)
    requires p <= |doc| && i < |doc|
    requires m.End? && m.id.Some? ==> m.id != doc[i].id
    ensures doc[i].Start? ==> StartIsClosed(Insert(doc, p, m), Shifted(i, p)) == StartIsClosed(doc, i)
    ensures doc[i].End? ==> EndIsClosed(Insert(doc, p, m), Shifted(i, p)) == EndIsClosed(doc, i)
  {
    if doc[i].id.Some? {
      MatchingEndsInsert(doc, p, m, doc[i].id.value);
    }
  }

  /** Adding end elements never turns a closed start open. */
  lemma EndsNeverReopenStart(doc: Document, p: nat, id: Option<string>, i: nat)
    requires p <= |doc| && i < |doc| && doc[i].Start?
    requires StartIsClosed(doc, i) == Ok(true)
    ensures StartIsClosed(Insert(doc, p, End(id)), Shifted(i, p)) == Ok(true)
  {
    MatchingEndsInsert(doc, p, End(id), doc[i].id.value);
  }

  /** An end's `is_closed` is not monotone: a second end with the same id turns a
      closed end element open. */
  lemma SecondEndOpensEnd(doc: Document, p: nat, i: nat)
    requires p <= |doc| && i < |doc| && doc[i].End?
    requires EndIsClosed(doc, i) == Ok(true)
    ensures EndIsClosed(Insert(doc, p, doc[i]), Shifted(i, p)) == Ok(false)
  {
    var d := Insert(doc, p, doc[i]);
    assert d[p] == d[Shifted(i, p)] && p != Shifted(i, p);
  }
}
