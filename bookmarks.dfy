/** The bookmark proxies of a document: the read-only `Bookmarks` collection over
    the start elements, the `Bookmark` proxy around one element, and the two
    operations that insert markers (`BookmarkParent`). */
module Bookmarks {
  import opened Wrappers
  import opened Decimal
  import opened BookmarkElements

  /** A `Bookmark` proxy: the position of the element it wraps. Markers are only
      ever appended, so a position keeps naming the same element. */
  datatype Bookmark = Bookmark(node: nat)

  /** What an inserting operation leaves behind: the new document, and the proxy it
      returns or the error it raises (the inserted element stays either way). */
  datatype Outcome = Outcome(doc: Document, result: Result<Bookmark, Error>)

  // ---------------------------------------------------------------------------
  // The `Bookmarks` collection. Every query is recomputed from the document it is
  // given, so it sees every insertion made before it is asked.
  // ---------------------------------------------------------------------------

  /** The `k`-th start position holds the start that has exactly `k` starts before it. */
  lemma {:induction false} StartRank(doc: Document, k: nat)
    requires k < StartCount(doc)
    ensures StartCount(doc[..StartPositions(doc)[k]]) == k
  {
    var n := |doc| - 1;
    var before := StartPositions(doc[..n]);
    var p := StartPositions(doc)[k];
    if k < |before| {
      assert p == before[k] && p < n;
      assert doc[..p] == doc[..n][..p];
      StartRank(doc[..n], k);
    } else {
      assert p == n;
    }
  }

  /** `bookmarks[idx]`: list indexing into the start elements, so a negative index
      counts from the end; outside `[-len, len)` it raises IndexError. The proxy
      wraps the start element with exactly `idx` (or `len + idx`) starts before it. */
  function At(doc: Document, idx: int): (r: Result<Bookmark, Error>)
    ensures r.Ok? <==> -(StartCount(doc) as int) <= idx < StartCount(doc)
    ensures r.Err? ==> r.error == IndexError
    ensures r.Ok? ==> r.value.node < |doc| && doc[r.value.node].Start?
    ensures r.Ok? ==> StartCount(doc[..r.value.node]) == if idx < 0 then idx + StartCount(doc) else idx
  {
    var starts := StartPositions(doc);
    if -|starts| <= idx < |starts| then
      var k := if idx < 0 then idx + |starts| else idx;
      StartRank(doc, k);
      Ok(Bookmark(starts[k]))
    else
      Err(IndexError)
  }

  /** `iter(bookmarks)`: exactly `len` proxies, the `k`-th being `bookmarks[k]`
      (equally `bookmarks[k - len]`). */
  function Iter(doc: Document): (r: seq<Bookmark>)
    ensures |r| == StartCount(doc)
    ensures forall k :: 0 <= k < |r| ==> At(doc, k) == Ok(r[k]) && At(doc, k - |r|) == Ok(r[k])
  {
    var starts := StartPositions(doc);
    seq(|starts|, k requires 0 <= k < |starts| => Bookmark(starts[k]))
  }

  /** The scan of `get` moves past the element at `j`: it is not a start, or a start
      whose name is present and differs from `name`. */
  predicate PassedBy(doc: Document, j: nat, name: string)
    requires j < |doc|
  {
    doc[j].Start? ==> doc[j].name.Some? && doc[j].name.value != name
  }

  /** `bookmarks.get(name, default)`: the proxy of the first start in document order
      named `name`, or `None` where the source returns `default`. Reading the absent
      name of a start met before any match raises. */
  method Get(doc: Document, name: string) returns (r: Result<Option<Bookmark>, Error>)
    ensures r.Ok? && r.value.Some? ==>
      var node := r.value.value.node;
      node < |doc| && doc[node] == Start(Some(name), doc[node].id)
      && forall j :: 0 <= j < node ==> PassedBy(doc, j, name)
    ensures r == Ok(None) <==> forall j :: 0 <= j < |doc| ==> PassedBy(doc, j, name)
    ensures r.Err? ==> r.error == InvalidXml
    ensures r.Err? ==>
      exists j :: 0 <= j < |doc| && doc[j] == Start(None, doc[j].id) && (forall i :: 0 <= i < j ==> PassedBy(doc, i, name))
  {
    var starts := StartPositions(doc);
    var k := 0;
    while k < |starts|
      invariant k <= |starts|
      invariant forall m :: 0 <= m < k ==> PassedBy(doc, starts[m], name)
    {
      var s := starts[k];
      match doc[s].name {
        case None =>
          ScanReaches(doc, starts, k, name);
          assert !PassedBy(doc, s, name);
          return Err(InvalidXml);
        case Some(n) =>
          if n == name {
            ScanReaches(doc, starts, k, name);
            assert !PassedBy(doc, s, name);
            return Ok(Some(Bookmark(s)));
          }
      }
      k := k + 1;
    }
    forall j | 0 <= j < |doc| ensures PassedBy(doc, j, name) {
      if doc[j].Start? {
        var m :| 0 <= m < |starts| && starts[m] == j;
      }
    }
    r := Ok(None);
  }

  /** Every element before the `k`-th start was passed by the scan once the first
      `k` starts were. */
  lemma ScanReaches(doc: Document, starts: seq<nat>, k: nat, name: string)
    requires starts == StartPositions(doc) && k < |starts|
    requires forall m :: 0 <= m < k ==> PassedBy(doc, starts[m], name)
    ensures forall j :: 0 <= j < starts[k] ==> PassedBy(doc, j, name)
  {
    forall j | 0 <= j < starts[k] ensures PassedBy(doc, j, name) {
      if doc[j].Start? {
        var m :| 0 <= m < |starts| && starts[m] == j;
        assert m < k;
      }
    }
  }

  // ---------------------------------------------------------------------------
  // The `Bookmark` proxy.
  // ---------------------------------------------------------------------------

  /** `bookmark.id`: the wrapped element's required `w:id`. */
  function Id(doc: Document, b: Bookmark): (r: Result<string, Error>)
    requires b.node < |doc|
    ensures r.Ok? <==> doc[b.node].id.Some?
    ensures r.Ok? ==> doc[b.node].id == Some(r.value)
    ensures r.Err? ==> r.error == InvalidXml
  {
    match doc[b.node].id
    case None => Err(InvalidXml)
    case Some(id) => Ok(id)
  }

  /** `bookmark.name`: the wrapped start's required `w:name`; an end element has no
      such property. */
  function Name(doc: Document, b: Bookmark): (r: Result<string, Error>)
    requires b.node < |doc|
    ensures r.Ok? <==> doc[b.node].Start? && doc[b.node].name.Some?
    ensures r.Ok? ==> doc[b.node].name == Some(r.value)
    ensures doc[b.node].End? ==> r == Err(AttributeError)
    ensures doc[b.node].Start? && r.Err? ==> r.error == InvalidXml
  {
    match doc[b.node]
    case End(_) => Err(AttributeError)
    case Start(name, _) =>
      match name
      case None => Err(InvalidXml)
      case Some(n) => Ok(n)
  }

  /** `bookmark.is_closed`: the wrapped element's own `is_closed`, at least one end
      carrying the id for a start, exactly one for an end. */
  function IsClosed(doc: Document, b: Bookmark): (r: Result<bool, Error>)
    requires b.node < |doc|
    ensures r.Err? <==> doc[b.node].id.None?
    ensures r.Err? ==> r.error == InvalidXml
    ensures doc[b.node].Start? ==>
      (r == Ok(true) <==> doc[b.node].id.Some? && exists j :: 0 <= j < |doc| && doc[j] == End(doc[b.node].id))
    ensures doc[b.node].End? ==>
      (r == Ok(true) <==> doc[b.node].id.Some? && forall k :: 0 <= k < |doc| && doc[k] == doc[b.node] ==> k == b.node)
  {
    match doc[b.node]
    case Start(_, _) => StartIsClosed(doc, b.node)
    case End(_) => EndIsClosed(doc, b.node)
  }

  // ---------------------------------------------------------------------------
  // What `start_bookmark` and `end_bookmark` do, stated over the document as it
  // was before the call.
  // ---------------------------------------------------------------------------

  /** The document after `start_bookmark(name)`: one start appended, named `name`,
      whose id is the start count once it is in, which is one more than before. */
  function Started(doc: Document, name: string): (r: Document)
    ensures |r| == |doc| + 1 && r[..|doc|] == doc
    ensures r[|doc|] == Start(Some(name), Some(NextId(r)))
    ensures ParseNat(NextId(r)) == StartCount(doc) + 1
  {
    var r := doc + [Start(Some(name), Some(NatToString(StartCount(doc) + 1)))];
    assert Insert(doc, |doc|, r[|doc|]) == r;
    NextIdCountsNewStart(doc, |doc|, r[|doc|].name, r[|doc|].id);
    r
  }

  /** The outcome of `end_bookmark(bookmark)`. An end element is appended first in
      either mode. Implicit mode (`None`) gives it the current start count as id and
      raises ValueError iff it is then the only end with that id, that is iff no
      earlier end carried it. Explicit mode raises what `bookmark.is_closed` raises,
      or ValueError when it is true, and then leaves the new end without an id;
      otherwise the new end gets the bookmark's id. */
  function Ended(doc: Document, bookmark: Option<Bookmark>): (o: Outcome)
    requires bookmark.Some? ==> bookmark.value.node < |doc|
    ensures |o.doc| == |doc| + 1 && o.doc[..|doc|] == doc && o.doc[|doc|].End?
    ensures o.result.Ok? ==> o.result.value == Bookmark(|doc|)
  {
    match bookmark
    case None =>
      var id := NextId(doc);
      Outcome(doc + [End(Some(id))], if |MatchingEnds(doc, id)| == 0 then Err(ValueError) else Ok(Bookmark(|doc|)))
    case Some(b) =>
      match IsClosed(doc, b)
      case Err(e) => Outcome(doc + [End(None)], Err(e))
      case Ok(closed) =>
        if closed then Outcome(doc + [End(None)], Err(ValueError))
        else Outcome(doc + [End(doc[b.node].id)], Ok(Bookmark(|doc|)))
  }

  // ---------------------------------------------------------------------------
  // `BookmarkParent`: the part of a document that bookmarks are added to. Its
  // element tree is shared with the rest of the document, and the queries above
  // run over all of it.
  // ---------------------------------------------------------------------------

  class BookmarkParent {
    /** The bookmark markers of the whole element tree, in document order. */
    var markers: Document

    constructor (markers: Document)
      ensures this.markers == markers
    {
      this.markers := markers;
    }

    /** `start_bookmark(name)`: insert a bare start, set its id from `_next_id` (which
        now counts it), then set its name. */
    method StartBookmark(name: string) returns (b: Bookmark)
      modifies this
      ensures markers == Started(old(markers), name)
      ensures b == Bookmark(|old(markers)|)
    {
      ghost var before := markers;
      markers := markers + [Start(None, None)];
      var n := |markers| - 1;
      assert markers == Insert(before, n, Start(None, None));
      NextIdCountsNewStart(before, n, None, None);
      markers := markers[n := Start(None, Some(NextId(markers)))];
      markers := markers[n := Start(Some(name), markers[n].id)];
      b := Bookmark(n);
      assert markers == Started(before, name);
    }

    /** `end_bookmark(bookmark)`: insert a bare end, then either give it `_next_id` and
        raise if its own `is_closed` holds (implicit), or raise if `bookmark.is_closed`
        holds and else give it the bookmark's id (explicit). */
    method EndBookmark(bookmark: Option<Bookmark>) returns (r: Result<Bookmark, Error>)
      requires bookmark.Some? ==> bookmark.value.node < |markers|
      modifies this
      ensures markers == Ended(old(markers), bookmark).doc
      ensures r == Ended(old(markers), bookmark).result
    {
      ghost var before := markers;
      markers := markers + [End(None)];
      var n := |markers| - 1;
      assert markers == Insert(before, n, End(None));
      if bookmark.None? {
        ghost var id := NextId(before);
        NextIdIgnoresEnds(before, n, None);
        markers := markers[n := End(Some(NextId(markers)))];
        assert markers == Insert(before, n, End(Some(id))) == before + [End(Some(id))];
        MatchingEndsInsert(before, n, End(Some(id)), id);
        var closed := EndIsClosed(markers, n);
        assert closed == Ok(|MatchingEnds(before, id)| == 0);
        if closed == Ok(true) {
          r := Err(ValueError);
        } else {
          r := Ok(Bookmark(n));
        }
      } else {
        var b := bookmark.value;
        UnrelatedMarkerKeepsClosed(before, n, End(None), b.node);
        assert markers[b.node] == before[b.node];
        var closed := IsClosed(markers, b);
        assert closed == IsClosed(before, b);
        if closed.Err? {
          r := Err(closed.error);
        } else if closed.value {
          r := Err(ValueError);
        } else {
          var id := Id(markers, b);
          markers := markers[n := End(Some(id.value))];
          assert markers == before + [End(before[b.node].id)];
          r := Ok(Bookmark(n));
        }
      }
    }
  }
}
