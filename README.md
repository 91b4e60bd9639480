# Bookmarks in python-docx, modelled in Dafny

This project models the bookmark subsystem of python-docx: the `w:bookmarkStart` and
`w:bookmarkEnd` elements (section 17.13.6 of ECMA-376 Part 1), the `Bookmarks`
collection and `Bookmark` proxy over them, and the `start_bookmark` / `end_bookmark`
operations of `BookmarkParent`.

The document is reduced to its bookmark markers in document order
(`BookmarkElements.Document = seq<Marker>`). A marker is `Start(name, id)` or
`End(id)`. Its attributes are `Option<string>` because the code inserts a bare element
and assigns its attributes afterwards. Reading an absent required attribute raises
(`InvalidXml`). Ids are compared as strings, as the XPath query compares them.
`Decimal.NatToString` renders a count the way `str` does, and `Decimal.ParseNatToString`
shows the rendering is injective.

Modules:

- `Wrappers`: `Option` and `Result`.
- `Decimal`: `str` on non-negative integers and its inverse.
- `BookmarkElements` (`docx/oxml/bookmark.py`): the tree-wide queries, `_next_id`, and
  both `is_closed` properties. All are functions of the document, so they cannot
  change it.
- `Bookmarks` (`docx/text/bookmarks.py`): `Iter`, `At` and `Get` for the
  collection (`len` is `BookmarkElements.StartCount`). `Id`, `Name` and `IsClosed` for the proxy. A `Bookmark` proxy is the
  position of the element it wraps; markers are only appended, so a position keeps
  naming the same element. The class `BookmarkParent` holds the markers in a `seq`
  field and has the two mutating methods. Each method does the source's steps in
  order and is proved equal to a function stated over the old document: `Started` for
  `start_bookmark`, `Ended` for `end_bookmark`.
- `BookmarkLifecycle`: properties of `Started` and `Ended`, the numbering invariant
  `WellNumbered`, and `EndedIntended`, the end operation as evidently intended (see
  Findings).

The model keeps these behaviours exactly as the code has them, although a reader might
expect otherwise:

- A new start's id is computed after the start is inserted. In a document with k
  starts the new id is `str(k + 1)`, so the first bookmark gets "1", not "0".
- `end_bookmark` inserts the end element before it checks anything. In explicit mode a
  failed call leaves an end element with no `w:id` in the document. It does not check
  first.
- In implicit mode the check reads the new end's own `is_closed`, which means "exactly
  one end carries this id". The new end counts itself. So the call raises in the
  ordinary case and succeeds only when an end with that id already existed, which
  leaves duplicate end ids. Explicit mode keeps end ids unique, so only a successful
  implicit `end_bookmark()` can create duplicate end ids.

## Model

| member | source | states |
|---|---|---|
| `Decimal.NatToString` | docx/oxml/bookmark.py:25 | `str(n)`: a non-empty string of decimal digits with no leading zero unless it is the single digit `0` |
| `Decimal.ParseNatToString` | docx/oxml/bookmark.py:25 | parsing the rendered count gives the count back |
| `Decimal.NatToStringInjective` | docx/oxml/bookmark.py:36-38 | two counts render to the same id string iff they are equal, so string comparison of ids is comparison of counts |
| `BookmarkElements.StartPositions` | docx/text/bookmarks.py:47-50 | the query for start elements: exactly the start positions, each once, strictly increasing (document order) |
| `BookmarkElements.MatchingEnds` | docx/oxml/bookmark.py:35-38 | the query for ends with a given id: exactly the positions of ends carrying it, in document order; ends without an id never match |
| `BookmarkElements.NextId` | docx/oxml/bookmark.py:18-25 | `_next_id` is a decimal string, without leading zero, whose value is the number of start elements in the whole document; it depends on nothing else |
| `BookmarkElements.StartCount` | docx/text/bookmarks.py:30-35 | `len(bookmarks)`, also the count `_next_id` renders: at most the size of the document, and 0 iff it holds no start |
| `BookmarkElements.StartPositionsAppend` | docx/text/bookmarks.py:47-50 | appending a start adds its position last to the query result; appending an end leaves the result unchanged |
| `BookmarkElements.MatchingEndsAppend` | docx/oxml/bookmark.py:35-38 | appending an end carrying the id adds its position last to the query result; any other marker leaves it unchanged |
| `BookmarkElements.NextIdIgnoresEnds` | docx/oxml/bookmark.py:48-55 | `_next_id` counts starts only: inserting an end element anywhere, with or without an id, leaves it unchanged |
| `BookmarkElements.NextIdCountsNewStart` | docx/text/bookmarks.py:97-98 | once a start is inserted, `_next_id` is the old start count plus one |
| `BookmarkElements.StartIsClosed` | docx/oxml/bookmark.py:27-41 | a start is closed iff at least one end carries its id; an absent id raises |
| `BookmarkElements.EndIsClosed` | docx/oxml/bookmark.py:57-69 | an end is closed iff exactly one end carries its id, which means no other end shares it; an absent id raises |
| `BookmarkElements.UnrelatedMarkerKeepsClosed` | docx/oxml/bookmark.py:36-38 | inserting anything other than an end with the asking element's id (an end with another id, an end with no id, a start) changes neither `is_closed` answer |
| `BookmarkElements.EndsNeverReopenStart` | docx/oxml/bookmark.py:39-41 | inserting end elements never turns a closed start open |
| `BookmarkElements.SecondEndOpensEnd` | docx/oxml/bookmark.py:67-69 | an end's `is_closed` is not monotone: a second end with the same id makes a closed end report open |
| `Bookmarks.At` | docx/text/bookmarks.py:25-28 | indexing succeeds iff `-len <= idx < len` and otherwise raises IndexError; the proxy wraps a start with exactly `idx` (or `len + idx` when `idx < 0`) starts before it |
| `Bookmarks.Iter` | docx/text/bookmarks.py:20-23 | iteration yields exactly `len` proxies, the k-th equal to `bookmarks[k]` and to `bookmarks[k - len]` |
| `Bookmarks.Get` | docx/text/bookmarks.py:37-45 | returns the default (`None`) iff every start has a name and none equals `name`; returns the first start named `name` when no nameless start comes before it; otherwise raises InvalidXml, at a nameless start reached before any match |
| `Bookmarks.Id` | docx/text/bookmarks.py:67-70 | the proxy's id is the wrapped element's `w:id`; an absent id raises |
| `Bookmarks.Name` | docx/text/bookmarks.py:72-75 | the proxy's name is the wrapped start's `w:name`; an absent name raises; an end element has no name (AttributeError) |
| `Bookmarks.IsClosed` | docx/text/bookmarks.py:77-80 | delegates by element kind: at least one matching end for a start, exactly one for an end |
| `Bookmarks.Started` | docx/text/bookmarks.py:97-100 | `start_bookmark` appends one start named `name` and leaves every existing element unchanged; its id equals `_next_id` of the resulting document, which is the old start count plus one |
| `Bookmarks.Ended` | docx/text/bookmarks.py:108-117 | `end_bookmark` appends exactly one end element on every path, the failing ones included, and leaves existing elements unchanged; on success it returns the proxy of that new end |
| `Bookmarks.BookmarkParent.StartBookmark` | docx/text/bookmarks.py:97-100 | inserting a bare start, setting its id from `_next_id` and then its name leaves the markers equal to `Started` of the old markers, and returns the new element's proxy |
| `Bookmarks.BookmarkParent.EndBookmark` | docx/text/bookmarks.py:108-117 | inserting a bare end and then running the checks of the code on the new document gives exactly the document and the result of `Ended` on the old one |
| `BookmarkLifecycle.StartedGrowsCollection` | docx/text/bookmarks.py:97-100 | after `start_bookmark`, `len` is one more, `bookmarks[-1]` is the new bookmark when new markers are appended, and carries the name given, and every earlier index still gives the same bookmark |
| `BookmarkLifecycle.SuccessiveStartIds` | docx/text/bookmarks.py:97-98 | two successive `start_bookmark` calls give ids whose values differ by exactly one |
| `BookmarkLifecycle.StartedKeepsWellNumbered` | docx/text/bookmarks.py:97-99 | if the k-th start carries id `str(k+1)` for every k, `start_bookmark` keeps it so when new markers are appended |
| `BookmarkLifecycle.WellNumberedIdsDistinct` | docx/text/bookmarks.py:97-98 | in such a document no two starts share an id |
| `BookmarkLifecycle.EndedKeepsCollection` | docx/text/bookmarks.py:108-116 | `end_bookmark` leaves the collection (and the numbering invariant) unchanged on every path |
| `BookmarkLifecycle.ImplicitEnd` | docx/text/bookmarks.py:108-112 | implicit mode gives the new end the current start count as id; it raises ValueError, and nothing else, iff no earlier end carries that id, which is iff the new end is then closed; success leaves two or more ends with that id |
| `BookmarkLifecycle.ExplicitEnd` | docx/text/bookmarks.py:113-116 | explicit mode raises ValueError iff `bookmark.is_closed` held; any other error means the element has no id; every error leaves an end without an id; on success the new end carries the bookmark's id and every start with that id is closed |
| `BookmarkLifecycle.ExplicitDoubleEndRejected` | docx/text/bookmarks.py:113-115 | ending the same started bookmark a second time raises ValueError and adds no second end with its id |
| `BookmarkLifecycle.ImplicitEndSuccessBreaksUniqueness` | docx/text/bookmarks.py:109-112 | whenever implicit mode succeeds, two end elements share an id afterwards |
| `BookmarkLifecycle.ExplicitEndKeepsEndsUnique` | docx/text/bookmarks.py:113-116 | explicit mode keeps end ids unique on every path: it succeeds only when no end carries the bookmark's id yet, and a failure adds an end without an id |
| `BookmarkLifecycle.FreshBookmarkCannotBeEndedImplicitly` | docx/text/bookmarks.py:108-112 | starting a bookmark and ending it implicitly raises ValueError whenever no end already had the new id; the bookmark was open before and is closed after, by the end left behind |
| `BookmarkLifecycle.EndedIntended` | docx/text/bookmarks.py:108-116 | the end operation as intended: a failing call leaves the document unchanged; a successful one appends one end and returns its proxy |
| `BookmarkLifecycle.IntendedEndClosesFreshBookmark` | docx/text/bookmarks.py:109-112 | with the intended check, starting a bookmark and ending it implicitly succeeds and closes it |
| `BookmarkLifecycle.IntendedEndKeepsEndsUnique` | docx/text/bookmarks.py:108-116 | with the intended check, no end operation creates two ends with the same id |

## Left out

- lxml tree mechanics (`getroottree`, XPath evaluation, namespaces) are not modelled. The tree is its sequence of bookmark markers in document order. Paragraphs, runs and other content are left out because no bookmark query depends on them.
- The collection queries the document element and `_next_id` queries the tree root. The model treats both as the whole document.
- Attribute type validation (`RequiredAttribute`, `ST_String`, `ST_RelationshipId`) is not part of this model. Only a missing attribute is an error (`InvalidXml`). Any string is accepted as a value.
- Where `_add_bookmarkStart` / `_add_bookmarkEnd` put the new child is not part of this model. The model appends. The element-level lemmas in `BookmarkElements` allow an insertion at any position.
- Bookmarks.Get: the caller's `default` value is represented by `None`, because a Dafny result has one type.
- Bookmarks.Iter: the generator is modelled by the full sequence it yields. Laziness is not modelled.
- Bookmarks.At: slice arguments are left out. The unused `_bookmarkEnds` helper is left out too.
- The `ElementProxy` base class is left out. So are the methods `Bookmarks` inherits from `collections.Sequence` (`index`, `count`, `__contains__`, `__reversed__`).
- Quoting of the id inside the XPath string is left out. Ids are compared as whole strings.
- Package, serialisation and file I/O are left out.
- `_next_id` is defined twice in the source, with identical bodies. It is one function here, `NextId`.

## Findings

| source | as written | input that shows it | evidently intended | confidence | as-written member | corrected member |
|---|---|---|---|---|---|---|
| docx/text/bookmarks.py:108-112 | implicit `end_bookmark()` raises "Cannot end closed bookmark." when the new end is the only end with its id, which is exactly when the bookmark was still open | any document with no end elements: `start_bookmark("a")`, then `end_bookmark()` raises ValueError and still leaves the end element behind | raise only when an end with that id already exists, and check before inserting | high; not executed | `BookmarkLifecycle.FreshBookmarkCannotBeEndedImplicitly` | `BookmarkLifecycle.EndedIntended` |
| docx/text/bookmarks.py:108-115 | explicit `end_bookmark(b)` inserts the end element before it tests `b.is_closed`, so a rejected call leaves a `w:bookmarkEnd` without its required `w:id` | `b = start_bookmark("a")`, `end_bookmark(b)`, then `end_bookmark(b)` again: the second call raises ValueError and leaves an end without an id | test `b.is_closed` first and insert nothing when it raises | medium; not executed | `BookmarkLifecycle.ExplicitEnd` | `BookmarkLifecycle.EndedIntended` |

`EndedIntended` is proved to end a freshly started bookmark (`IntendedEndClosesFreshBookmark`). It is also proved never to create two ends with the same id (`IntendedEndKeepsEndsUnique`). `BookmarkParent.EndBookmark` keeps the code's behaviour, since it models the code as it runs.
