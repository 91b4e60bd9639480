/** What `start_bookmark` and `end_bookmark` promise, stated over the outcomes
    `Started` and `Ended`, and what they leave unprotected: implicit ending of a
    freshly started bookmark, and uniqueness of end ids, which explicit mode keeps
    and only a successful implicit end breaks. `EndedIntended` is the
    end operation checked before it inserts, as the error message "Cannot end
    closed bookmark." describes it. */
module BookmarkLifecycle {
  import opened Wrappers
  import opened Decimal
  import opened BookmarkElements
  import opened Bookmarks

  // ---------------------------------------------------------------------------
  // start_bookmark
  // ---------------------------------------------------------------------------

  /** `start_bookmark` adds one bookmark to the collection, last in document order,
      with the given name, and every earlier bookmark keeps its index. */
  lemma StartedGrowsCollection(doc: Document, name: string)
    ensures StartCount(Started(doc, name)) == StartCount(doc) + 1
    ensures At(Started(doc, name), -1) == Ok(Bookmark(|doc|))
    ensures Name(Started(doc, name), Bookmark(|doc|)) == Ok(name)
    ensures forall k :: 0 <= k < StartCount(doc) ==> At(Started(doc, name), k) == At(doc, k)
  {
    var d := Started(doc, name);
    assert d == doc + [d[|doc|]];
    StartPositionsAppend(doc, d[|doc|]);
  }

  /** Two successive `start_bookmark` calls give ids one apart: the second id, read
      as a number, is the first plus one. */
  lemma SuccessiveStartIds(doc: Document, first: string, second: string)
    ensures var d1 := Started(doc, first);
            var d2 := Started(d1, second);
            ParseNat(d2[|d1|].id.value) == ParseNat(d1[|doc|].id.value) + 1
  {
    var d1 := Started(doc, first);
    assert d1 == doc + [d1[|doc|]];
    StartPositionsAppend(doc, d1[|doc|]);
  }

  /** Every start carries as id the number of starts up to and including itself:
      the shape a document has when all its starts came from `start_bookmark` and
      new markers are appended. */
  ghost predicate WellNumbered(doc: Document) {
    var starts := StartPositions(doc);
    forall k :: 0 <= k < |starts| ==> doc[starts[k]].id == Some(NatToString(k + 1))
  }

  /** In a well-numbered document no two starts share an id. */
  lemma WellNumberedIdsDistinct(doc: Document, k: nat, l: nat)
    requires WellNumbered(doc)
    requires k < l < StartCount(doc)
    ensures doc[StartPositions(doc)[k]].id != doc[StartPositions(doc)[l]].id
  {
    NatToStringInjective(k + 1, l + 1);
  }

  /** Appending a start that carries the next number keeps a document well numbered. */
  lemma AppendNumberedStart(doc: Document, m: Marker)
    requires WellNumbered(doc)
    requires m.Start? && m.id == Some(NatToString(StartCount(doc) + 1))
    ensures WellNumbered(doc + [m])
  {
    var d := doc + [m];
    var before := StartPositions(doc);
    StartPositionsAppend(doc, m);
    var starts := StartPositions(d);
    forall k | 0 <= k < |starts| ensures d[starts[k]].id == Some(NatToString(k + 1)) {
      if k < |before| {
        assert starts[k] == before[k];
      }
    }
  }

  /** `start_bookmark` keeps a document well numbered. */
  lemma StartedKeepsWellNumbered(doc: Document, name: string)
    requires WellNumbered(doc)
    ensures WellNumbered(Started(doc, name))
  {
    var d := Started(doc, name);
    assert d == doc + [d[|doc|]];
    AppendNumberedStart(doc, d[|doc|]);
  }

  /** `end_bookmark`, on any path, keeps a document well numbered and its collection
      unchanged: ends are not bookmarks. */
  lemma EndedKeepsCollection(doc: Document, bookmark: Option<Bookmark>)
    requires bookmark.Some? ==> bookmark.value.node < |doc|
    ensures Iter(Ended(doc, bookmark).doc) == Iter(doc)
    ensures WellNumbered(doc) ==> WellNumbered(Ended(doc, bookmark).doc)
  {
    var d := Ended(doc, bookmark).doc;
    assert d == doc + [d[|doc|]];
    StartPositionsAppend(doc, d[|doc|]);
    assert StartPositions(d) == StartPositions(doc);
    forall k | 0 <= k < StartCount(doc) ensures d[StartPositions(doc)[k]] == doc[StartPositions(doc)[k]] {
    }
  }

  // ---------------------------------------------------------------------------
  // end_bookmark
  // ---------------------------------------------------------------------------

  /** Implicit `end_bookmark()`: the new end carries the current start count. It
      raises ValueError, and nothing else, iff no earlier end carries that id, that
      is iff the new end is then closed (the only end with its id). It succeeds only
      when an earlier end already has the id, and then two or more ends share it. */
  lemma ImplicitEnd(doc: Document)
    ensures Ended(doc, None).doc[|doc|] == End(Some(NextId(doc)))
    ensures Ended(doc, None).result.Ok? || Ended(doc, None).result == Err(ValueError)
    ensures Ended(doc, None).result == Err(ValueError)
            <==> forall j :: 0 <= j < |doc| ==> doc[j] != End(Some(NextId(doc)))
    ensures Ended(doc, None).result == Err(ValueError) <==> EndIsClosed(Ended(doc, None).doc, |doc|) == Ok(true)
    ensures Ended(doc, None).result.Ok? ==> |MatchingEnds(Ended(doc, None).doc, NextId(doc))| >= 2
  {
    var id := NextId(doc);
    var d := Ended(doc, None).doc;
    MatchingEndsAppend(doc, End(Some(id)), id);
    var before := MatchingEnds(doc, id);
    if |before| != 0 {
      assert doc[before[0]] == End(Some(id));
    }
  }

  /** Explicit `end_bookmark(bookmark)`: ValueError iff `bookmark.is_closed` held;
      any other error only when the bookmark's element has no id. On every error the
      new end stays in the document without an id. On success it carries the
      bookmark's id, and every start with that id is closed afterwards. */
  lemma ExplicitEnd(doc: Document, b: Bookmark)
    requires b.node < |doc|
    ensures Ended(doc, Some(b)).result == Err(ValueError) <==> IsClosed(doc, b) == Ok(true)
    ensures Ended(doc, Some(b)).result.Err? && Ended(doc, Some(b)).result.error != ValueError
            ==> doc[b.node].id.None?
    ensures Ended(doc, Some(b)).result.Err? ==> Ended(doc, Some(b)).doc[|doc|] == End(None)
    ensures Ended(doc, Some(b)).result.Ok? ==>
              doc[b.node].id.Some? && Ended(doc, Some(b)).doc[|doc|] == End(doc[b.node].id)
    ensures Ended(doc, Some(b)).result.Ok? ==>
              var d := Ended(doc, Some(b)).doc;
              forall i :: 0 <= i < |d| && d[i].Start? && d[i].id == doc[b.node].id ==> StartIsClosed(d, i) == Ok(true)
  {
    var d := Ended(doc, Some(b)).doc;
    if Ended(doc, Some(b)).result.Ok? {
      forall i | 0 <= i < |d| && d[i].Start? && d[i].id == doc[b.node].id
        ensures StartIsClosed(d, i) == Ok(true)
      {
        assert d[|doc|] == End(d[i].id);
      }
    }
  }

  /** Ending the same started bookmark twice in explicit mode: the second call raises
      ValueError and adds no second end with the bookmark's id. */
  lemma ExplicitDoubleEndRejected(doc: Document, b: Bookmark)
    requires b.node < |doc| && doc[b.node].Start?
    requires Ended(doc, Some(b)).result.Ok?
    ensures var d := Ended(doc, Some(b)).doc;
            Ended(d, Some(b)).result == Err(ValueError)
            && |MatchingEnds(Ended(d, Some(b)).doc, doc[b.node].id.value)| == |MatchingEnds(d, doc[b.node].id.value)|
  {
    var d := Ended(doc, Some(b)).doc;
    ExplicitEnd(doc, b);
    assert d[b.node] == doc[b.node];
    assert d[|doc|] == End(d[b.node].id);
    assert IsClosed(d, b) == Ok(true);
    MatchingEndsAppend(d, End(None), doc[b.node].id.value);
  }

  // ---------------------------------------------------------------------------
  // Uniqueness of end ids, and the end operation as intended
  // ---------------------------------------------------------------------------

  /** No two end elements carry the same id. */
  predicate UniqueEnds(doc: Document) {
    forall j, k :: 0 <= j < k < |doc| && doc[j].End? && doc[j].id.Some? ==> doc[j] != doc[k]
  }

  /** Whenever implicit `end_bookmark()` succeeds, the document it leaves has two
      ends with the same id. */
  lemma ImplicitEndSuccessBreaksUniqueness(doc: Document)
    requires Ended(doc, None).result.Ok?
    ensures !UniqueEnds(Ended(doc, None).doc)
  {
    var id := NextId(doc);
    var d := Ended(doc, None).doc;
    ImplicitEnd(doc);
    var matching := MatchingEnds(d, id);
    assert d[matching[0]] == d[matching[1]] && d[matching[0]].End?;
  }

  /** Explicit `end_bookmark(bookmark)` keeps end ids unique: it succeeds only when
      no end carries the bookmark's id yet (an end element that is the only one with
      its id is closed), and on failure it adds an end without an id. */
  lemma ExplicitEndKeepsEndsUnique(doc: Document, b: Bookmark)
    requires b.node < |doc| && UniqueEnds(doc)
    ensures UniqueEnds(Ended(doc, Some(b)).doc)
  {
    var o := Ended(doc, Some(b));
    var m := o.doc[|doc|];
    assert o.doc == doc + [m];
    if doc[b.node].End? && doc[b.node].id.Some? {
      assert EndIsClosed(doc, b.node) == Ok(true);
    }
    forall j | 0 <= j < |doc| && m.id.Some? ensures doc[j] != m {
    }
  }

  /** Starting a bookmark and then ending it implicitly always raises ValueError,
      provided no end already carries the new bookmark's id (as in any document with
      no ends). The end element stays, and it closes the bookmark all the same. */
  lemma FreshBookmarkCannotBeEndedImplicitly(doc: Document, name: string)
    requires forall j :: 0 <= j < |doc| ==> doc[j] != End(Some(NatToString(StartCount(doc) + 1)))
    ensures IsClosed(Started(doc, name), Bookmark(|doc|)) == Ok(false)
    ensures Ended(Started(doc, name), None).result == Err(ValueError)
    ensures IsClosed(Ended(Started(doc, name), None).doc, Bookmark(|doc|)) == Ok(true)
  {
    var d := Started(doc, name);
    var id := NextId(d);
    ParseNatToString(StartCount(doc) + 1);
    NatToStringInjective(ParseNat(id), StartCount(doc) + 1);
    assert d == doc + [d[|doc|]];
    StartPositionsAppend(doc, d[|doc|]);
    assert id == NatToString(StartCount(doc) + 1);
    assert forall j :: 0 <= j < |d| ==> d[j] != End(Some(id));
    ImplicitEnd(d);
    var o := Ended(d, None).doc;
    assert o[|d|] == End(o[|doc|].id);
  }

  /** The end operation as intended: it checks before it inserts. Implicit mode
      raises ValueError iff an end already carries the current start count;
      explicit mode raises what `bookmark.is_closed` raises, or ValueError when it
      holds. Only a successful call inserts an end. */
  function EndedIntended(doc: Document, bookmark: Option<Bookmark>): (o: Outcome)
    requires bookmark.Some? ==> bookmark.value.node < |doc|
    ensures o.result.Err? ==> o.doc == doc
    ensures o.result.Ok? ==> |o.doc| == |doc| + 1 && o.doc[..|doc|] == doc && o.result.value == Bookmark(|doc|)
  {
    match bookmark
    case None =>
      var id := NextId(doc);
      if |MatchingEnds(doc, id)| != 0 then Outcome(doc, Err(ValueError))
      else Outcome(doc + [End(Some(id))], Ok(Bookmark(|doc|)))
    case Some(b) =>
      match IsClosed(doc, b)
      case Err(e) => Outcome(doc, Err(e))
      case Ok(closed) =>
        if closed then Outcome(doc, Err(ValueError))
        else Outcome(doc + [End(doc[b.node].id)], Ok(Bookmark(|doc|)))
  }

  /** With the check in place, starting a bookmark and ending it implicitly succeeds
      and closes it. */
  lemma IntendedEndClosesFreshBookmark(doc: Document, name: string)
    requires forall j :: 0 <= j < |doc| ==> doc[j] != End(Some(NatToString(StartCount(doc) + 1)))
    ensures EndedIntended(Started(doc, name), None).result == Ok(Bookmark(|doc| + 1))
    ensures IsClosed(EndedIntended(Started(doc, name), None).doc, Bookmark(|doc|)) == Ok(true)
  {
    var d := Started(doc, name);
    var id := NextId(d);
    ParseNatToString(StartCount(doc) + 1);
    NatToStringInjective(ParseNat(id), StartCount(doc) + 1);
    assert d == doc + [d[|doc|]];
    StartPositionsAppend(doc, d[|doc|]);
    assert id == NatToString(StartCount(doc) + 1);
    assert StartIsClosed(d, |doc|) == Ok(false);
    var o := EndedIntended(d, None).doc;
    assert o[|d|] == End(o[|doc|].id);
  }

  /** With the check in place, no sequence of end operations ever gives two ends the
      same id. */
  lemma IntendedEndKeepsEndsUnique(doc: Document, bookmark: Option<Bookmark>)
    requires bookmark.Some? ==> bookmark.value.node < |doc|
    requires UniqueEnds(doc)
    ensures UniqueEnds(EndedIntended(doc, bookmark).doc)
  {
    var o := EndedIntended(doc, bookmark);
    if o.result.Ok? {
      var m := o.doc[|doc|];
      assert o.doc == doc + [m];
      if bookmark.None? {
        var before := MatchingEnds(doc, NextId(doc));
        assert |before| == 0;
      } else {
        var b := bookmark.value;
        assert IsClosed(doc, b) == Ok(false);
        assert doc[b.node].Start?;
      }
      forall j | 0 <= j < |doc| && m.id.Some? ensures doc[j] != m {
      }
    }
  }
}
