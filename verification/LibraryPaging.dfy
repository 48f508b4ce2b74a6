/**
 The library listing: a filtered pool of works, two sort orders, and keyset pagination. Any chain of pages that
 starts from the empty cursor is proved to list the sorted pool, each work once.
 */
module LibraryPaging {
  import opened Prelude
  import opened LibraryCursor
  import opened Ranking

  /** A work as seen from the active library: when its editions were added and when collections took it in. */
  datatype Work = Work(title: string, entries: set<int>, memberships: set<int>)

  datatype Row = Row(id: string, title: string, owned: bool, addedAt: Option<int>)

  /** The database's text order and the textual form of times. */
  datatype Env = Env(less: (string, string) -> bool, text: TimeText)

  /** What is asked of the collation: it is a strict total order. */
  ghost predicate StrictOrder(env: Env) {
    && (forall a :: !env.less(a, a))
    && (forall a, b :: a != b ==> env.less(a, b) || env.less(b, a))
    && (forall a, b, c :: env.less(a, b) && env.less(b, c) ==> env.less(a, c))
  }

  // ----- the pool -----

  function Least(s: set<int>): (m: int)
    requires s != {}
    ensures m in s && forall x :: x in s ==> m <= x
  {
    LeastExists(s);
    var m :| m in s && forall x :: x in s ==> m <= x; m
  }

  lemma LeastExists(s: set<int>)
    requires s != {}
    ensures exists m :: m in s && forall x :: x in s ==> m <= x
  {
    var m := Smallest((a, b) => a < b, s);
    assert forall x :: x in s ==> m <= x;
  }

  function Greatest(s: set<int>): (m: int)
    requires s != {}
    ensures m in s && forall x :: x in s ==> x <= m
  {
    GreatestExists(s);
    var m :| m in s && forall x :: x in s ==> x <= m; m
  }

  lemma GreatestExists(s: set<int>)
    requires s != {}
    ensures exists m :: m in s && forall x :: x in s ==> x <= m
  {
    var m := Smallest((a, b) => a > b, s);
    assert forall x :: x in s ==> x <= m;
  }

  /** COALESCE of the first library entry and the last collection membership. */
  function EffectiveAddedAt(w: Work): Option<int> {
    if w.entries != {} then Some(Least(w.entries))
    else if w.memberships != {} then Some(Greatest(w.memberships))
    else None
  }

  predicate Selected(w: Work, filter: string) {
    || (filter == "owned" && w.entries != {})
    || (filter == "wanted" && w.memberships != {} && w.entries == {})
    || (filter == "all" && (w.entries != {} || w.memberships != {}))
  }

  function RowOf(id: string, w: Work): Row { Row(id, w.title, w.entries != {}, EffectiveAddedAt(w)) }

  /** The works passing the filter and the text search; `hits` are the ids the search finds. */
  function Pool(works: map<string, Work>, hits: set<string>, filter: string): set<Row> {
    set id | id in works && id in hits && Selected(works[id], filter) :: RowOf(id, works[id])
  }

  ghost predicate UniqueIds(s: set<Row>) { forall a, b :: a in s && b in s && a.id == b.id ==> a == b }

  ghost predicate AllDated(s: set<Row>) { forall a :: a in s ==> a.addedAt.Some? }

  /** Whatever the filter, every pooled work has an added-at and its own id. */
  lemma PoolIsDated(works: map<string, Work>, hits: set<string>, filter: string)
    ensures AllDated(Pool(works, hits, filter)) && UniqueIds(Pool(works, hits, filter))
  {
  }

  /**
   What the pool holds, said of the works themselves: "owned" asks for an entry, "wanted" for a membership and no
   entry, "all" for either, any other filter for the impossible. A row tells the work's title, whether it has an entry,
   and its earliest entry or else its latest membership.
   */
  lemma PoolMeans(works: map<string, Work>, hits: set<string>, filter: string)
    ensures var pool := Pool(works, hits, filter);
            && (forall r :: r in pool ==> r.id in works && r.id in hits && TellsOf(r, works[r.id]))
            && (filter == "owned" ==> forall id ::
                  HasRow(pool, id) <==> id in works.Keys * hits && works[id].entries != {})
            && (filter == "wanted" ==> forall id ::
                HasRow(pool, id) <==> id in works.Keys * hits && works[id].memberships != {} && works[id].entries == {})
            && (filter == "all" ==> forall id ::
                  HasRow(pool, id) <==> id in works.Keys * hits && works[id].entries + works[id].memberships != {})
            && (filter !in {"owned", "wanted", "all"} ==> pool == {})
  {
    var pool := Pool(works, hits, filter);
    forall id | id in works && id in hits && Selected(works[id], filter) ensures HasRow(pool, id) {
      assert RowOf(id, works[id]) in pool;
    }
  }

  ghost predicate HasRow(rows: set<Row>, id: string) { exists r :: r in rows && r.id == id }

  predicate IsEarliest(t: int, times: set<int>) { t in times && forall x :: x in times ==> t <= x }

  predicate IsLatest(t: int, times: set<int>) { t in times && forall x :: x in times ==> x <= t }

  /** The row shows this work: its title, whether it is owned, and since when it is in the library or wanted. */
  predicate TellsOf(r: Row, w: Work) {
    && r.title == w.title && (r.owned <==> w.entries != {})
    && (w.entries != {} ==> r.addedAt.Some? && IsEarliest(r.addedAt.value, w.entries))
    && (w.entries == {} && w.memberships != {} ==> r.addedAt.Some? && IsLatest(r.addedAt.value, w.memberships))
  }

  // ----- orders and cursors -----

  /** title ASC, id ASC; or added-at DESC (nulls first), id DESC. */
  predicate Before(env: Env, byTitle: bool, a: Row, b: Row) {
    if byTitle then env.less(a.title, b.title) || (a.title == b.title && env.less(a.id, b.id))
    else if a.addedAt == b.addedAt then env.less(b.id, a.id)
    else a.addedAt.None? || (b.addedAt.Some? && a.addedAt.value > b.addedAt.value)
  }

  function By(env: Env, byTitle: bool): (Row, Row) -> bool { (a, b) => Before(env, byTitle, a, b) }

  lemma OrderIsStrict(env: Env, byTitle: bool, s: set<Row>)
    requires StrictOrder(env) && UniqueIds(s)
    ensures StrictOn(By(env, byTitle), s)
  {
  }

  datatype Key = TitleKey(title: string, id: string) | AddedAtKey(at: int, id: string)

  /** The zero time, used when a row has no added-at. */
  const ZERO_TIME: int := -62_135_596_800_000_000_000

  function EncodeCursor(env: Env, byTitle: bool, last: Row): (c: string)
    ensures c != ""
  {
    if byTitle then EncodeTitle(last.title, last.id)
    else EncodeAddedAt(env.text, if last.addedAt.Some? then last.addedAt.value else ZERO_TIME, last.id)
  }

  function DecodeCursor(env: Env, byTitle: bool, cursor: string): Result<Key> {
    if byTitle then
      var k := DecodeTitle(cursor);
      if k.Ok? then Ok(TitleKey(k.value.0, k.value.1)) else Err(k.category)
    else
      var k := DecodeAddedAt(env.text, cursor);
      if k.Ok? then Ok(AddedAtKey(k.value.0, k.value.1)) else Err(k.category)
  }

  /** The cursor's WHERE clause; a comparison with a missing added-at is not true. */
  predicate PastKey(env: Env, k: Key, r: Row) {
    match k
    case TitleKey(title, id) => env.less(title, r.title) || (r.title == title && env.less(id, r.id))
    case AddedAtKey(at, id) =>
      r.addedAt.Some? && (r.addedAt.value < at || (r.addedAt.value == at && env.less(r.id, id)))
  }

  function Past(env: Env, s: set<Row>, k: Key): set<Row> { set r | r in s && PastKey(env, k, r) }

  /** What the cursor can carry: an id, and when sorting by title a title, without NUL. */
  predicate Carried(byTitle: bool, r: Row) { (byTitle ==> NUL !in r.title) && NUL !in r.id && r.id != "" }

  /** The server accepts the cursor it made from a row exactly when the cursor can carry the row's key. */
  lemma OwnCursorAccepted(env: Env, byTitle: bool, last: Row)
    requires env.text.Faithful()
    ensures DecodeCursor(env, byTitle, EncodeCursor(env, byTitle, last)).Ok? <==> Carried(byTitle, last)
  {
    TitleRoundTrip(last.title, last.id);
    AddedAtRoundTrip(env.text, if last.addedAt.Some? then last.addedAt.value else ZERO_TIME, last.id);
  }

  ghost predicate Encodable(byTitle: bool, s: set<Row>) { forall r :: r in s ==> Carried(byTitle, r) }

  /** A cursor made from a row decodes, and selects exactly the rows sorted after that row. */
  lemma CursorSelectsAfter(env: Env, byTitle: bool, s: set<Row>, last: Row)
    requires env.text.Faithful() && AllDated(s) && Encodable(byTitle, s) && last in s
    ensures DecodeCursor(env, byTitle, EncodeCursor(env, byTitle, last)).Ok?
    ensures var k := DecodeCursor(env, byTitle, EncodeCursor(env, byTitle, last)).value;
            forall r :: r in s ==> (PastKey(env, k, r) <==> Before(env, byTitle, last, r))
  {
    TitleRoundTrip(last.title, last.id);
    AddedAtRoundTrip(env.text, last.addedAt.value, last.id);
  }

  // ----- one page -----

  datatype LibraryQuery = LibraryQuery(cursor: string, limit: int, filter: string, sort: string)

  datatype LibraryPage = LibraryPage(works: seq<Row>, next: string)

  function NormalLimit(limit: int): (n: nat)
    ensures 1 <= n <= 100 && (1 <= limit <= 100 ==> n == limit)
    ensures (limit <= 0 ==> n == 50) && (limit > 100 ==> n == 100)
  {
    if limit <= 0 then 50 else if limit > 100 then 100 else limit
  }

  function NormalFilter(filter: string): string { if filter == "" then "all" else filter }

  /** A page over the rows s still to come: the first `limit` of them, and a cursor exactly when more remain. */
  ghost predicate IsPage(env: Env, byTitle: bool, s: set<Row>, limit: nat, page: LibraryPage)
    requires limit > 0
  {
    && Top(By(env, byTitle), s, limit, page.works)
    && page.next == if |s| > limit then EncodeCursor(env, byTitle, page.works[limit - 1]) else ""
  }

  /** The page a cursor asks for. */
  ghost predicate PageAt(env: Env, byTitle: bool, pool: set<Row>, cursor: string, limit: nat, page: LibraryPage)
    requires limit > 0
  {
    (cursor != "" ==> DecodeCursor(env, byTitle, cursor).Ok?)
    && IsPage(env, byTitle, From(env, byTitle, pool, cursor), limit, page)
  }

  /** One page: a malformed cursor is the only refusal. */
  method QueryLibrary(env: Env, works: map<string, Work>, hits: set<string>, q: LibraryQuery)
    returns (r: Result<LibraryPage>)
    requires StrictOrder(env)
    ensures r.Err? <==> q.cursor != "" && DecodeCursor(env, q.sort == "title", q.cursor).Err?
    ensures r.Err? ==> r.category == InvalidInput
    ensures var pool := Pool(works, hits, NormalFilter(q.filter));
            r.Ok? ==> PageAt(env, q.sort == "title", pool, q.cursor, NormalLimit(q.limit), r.value)
    ensures r.Ok? ==> |r.value.works| <= NormalLimit(q.limit)
    ensures r.Ok? ==> forall i :: 0 <= i < |r.value.works| ==>
              var row := r.value.works[i]; row.id in works && row.id in hits && TellsOf(row, works[row.id])
    ensures r.Ok? && q.filter == "owned" ==> forall i :: 0 <= i < |r.value.works| ==> r.value.works[i].owned
    ensures r.Ok? && q.filter == "wanted" ==> forall i :: 0 <= i < |r.value.works| ==> !r.value.works[i].owned
  {
    var limit := NormalLimit(q.limit);
    var filter := NormalFilter(q.filter);
    var byTitle := q.sort == "title";
    var candidates := Pool(works, hits, filter);
    PoolIsDated(works, hits, filter);
    if q.cursor != "" {
      var k := DecodeCursor(env, byTitle, q.cursor);
      if k.Err? { return Err(k.category); }
      candidates := Past(env, candidates, k.value);
    }
    OrderIsStrict(env, byTitle, candidates);
    var fetched := Fetch(By(env, byTitle), candidates, limit + 1);
    var hasMore := |fetched| > limit;
    TopShorter(By(env, byTitle), candidates, limit, fetched);
    RowsTell(works, hits, filter, candidates, fetched);
    if hasMore { fetched := fetched[..limit]; }
    var next := "";
    if hasMore && |fetched| > 0 { next := EncodeCursor(env, byTitle, fetched[|fetched| - 1]); }
    r := Ok(LibraryPage(fetched, next));
  }

  /** Rows taken from the pool show works as they are, and the filter's. */
  lemma RowsTell(works: map<string, Work>, hits: set<string>, filter: string, some: set<Row>, rows: seq<Row>)
    requires some <= Pool(works, hits, filter) && forall i :: 0 <= i < |rows| ==> rows[i] in some
    ensures forall i :: 0 <= i < |rows| ==>
              rows[i].id in works && rows[i].id in hits && TellsOf(rows[i], works[rows[i].id])
    ensures filter == "owned" ==> forall i :: 0 <= i < |rows| ==> rows[i].owned
    ensures filter == "wanted" ==> forall i :: 0 <= i < |rows| ==> !rows[i].owned
  {
    PoolMeans(works, hits, filter);
    var pool := Pool(works, hits, filter);
    assert forall i :: 0 <= i < |rows| ==> rows[i] in pool && HasRow(pool, rows[i].id);
  }

  // ----- chains of pages -----

  /** The working assumptions about a pool: what the order, the time text and the columns provide. */
  ghost predicate Sound(env: Env, byTitle: bool, s: set<Row>) {
    StrictOn(By(env, byTitle), s) && env.text.Faithful() && AllDated(s) && Encodable(byTitle, s)
  }

  /** The rows from a cursor on. */
  function From(env: Env, byTitle: bool, pool: set<Row>, cursor: string): set<Row>
    requires cursor != "" ==> DecodeCursor(env, byTitle, cursor).Ok?
  {
    if cursor == "" then pool else Past(env, pool, DecodeCursor(env, byTitle, cursor).value)
  }

  /** The cursor stands after the first k rows of the listing. */
  ghost predicate StandsAt(env: Env, byTitle: bool, L: seq<Row>, k: nat, cursor: string) {
    k <= |L| && (if k == 0 then cursor == "" else cursor == EncodeCursor(env, byTitle, L[k - 1]))
  }

  /** What lies past the cursor of the k-th row is the rest of the listing. */
  lemma RestIsListed(env: Env, byTitle: bool, s: set<Row>, L: seq<Row>, k: nat, cursor: string)
    requires Sound(env, byTitle, s) && Listing(By(env, byTitle), s, L) && StandsAt(env, byTitle, L, k, cursor)
    ensures cursor != "" ==> DecodeCursor(env, byTitle, cursor).Ok?
    ensures Listing(By(env, byTitle), From(env, byTitle, s, cursor), L[k..])
  {
    if k > 0 {
      CursorSelectsAfter(env, byTitle, s, L[k - 1]);
      ListingFacts(By(env, byTitle), s, L);
      var past := From(env, byTitle, s, cursor);
      forall x | x in past ensures x in L[k..] {
        var j :| 0 <= j < |L| && L[j] == x;
        assert By(env, byTitle)(L[k - 1], L[j]);
        assert x == L[k..][j - k];
      }
      forall i | 0 <= i < |L[k..]| ensures L[k..][i] in past {
        assert By(env, byTitle)(L[k - 1], L[k + i]);
      }
    } else {
      assert L[k..] == L;
    }
  }

  /** The page is the slice of the listing from position k, with a cursor to the rest if there is one. */
  ghost predicate SliceAt(env: Env, byTitle: bool, limit: nat, L: seq<Row>, k: nat, page: LibraryPage)
    requires limit > 0 && k <= |L|
  {
    if |L| - k <= limit then page == LibraryPage(L[k..], "")
    else page == LibraryPage(L[k..k + limit], EncodeCursor(env, byTitle, L[k + limit - 1]))
  }

  /** Wherever a cursor stands in the listing, its page is the next slice. */
  ghost predicate PagesAreSlices(env: Env, byTitle: bool, s: set<Row>, limit: nat, L: seq<Row>)
    requires limit > 0
  {
    forall k: nat, cursor, page :: StandsAt(env, byTitle, L, k, cursor) && PageAt(env, byTitle, s, cursor, limit, page)
      ==> SliceAt(env, byTitle, limit, L, k, page)
  }

  lemma PageIsSlice(env: Env, byTitle: bool, s: set<Row>, limit: nat, L: seq<Row>)
    requires Sound(env, byTitle, s) && limit > 0 && Listing(By(env, byTitle), s, L)
    ensures PagesAreSlices(env, byTitle, s, limit, L)
  {
    forall k: nat, cursor, page | StandsAt(env, byTitle, L, k, cursor) && PageAt(env, byTitle, s, cursor, limit, page)
      ensures SliceAt(env, byTitle, limit, L, k, page)
    {
      RestIsListed(env, byTitle, s, L, k, cursor);
      SliceOf(env, byTitle, s, From(env, byTitle, s, cursor), limit, L, k, page);
    }
  }

  lemma SliceOf(env: Env, byTitle: bool, s: set<Row>, rest: set<Row>, limit: nat, L: seq<Row>, k: nat,
                page: LibraryPage)
    requires StrictOn(By(env, byTitle), s) && rest <= s && limit > 0 && k <= |L|
    requires Listing(By(env, byTitle), rest, L[k..]) && IsPage(env, byTitle, rest, limit, page)
    ensures SliceAt(env, byTitle, limit, L, k, page)
  {
    ListingFacts(By(env, byTitle), rest, L[k..]);
    TopIsPrefix(By(env, byTitle), rest, limit, page.works, L[k..]);
  }

  /** Pages obtained by following cursors: each is what the previous page's cursor asks for. */
  ghost predicate Chain(env: Env, byTitle: bool, pool: set<Row>, limit: nat, cursor: string, pages: seq<LibraryPage>)
    requires limit > 0
    decreases |pages|
  {
    && pages != [] && PageAt(env, byTitle, pool, cursor, limit, pages[0])
    && (|pages| > 1 ==> pages[0].next != "" && Chain(env, byTitle, pool, limit, pages[0].next, pages[1..]))
  }

  function Concat(pages: seq<LibraryPage>): seq<Row> {
    if pages == [] then [] else pages[0].works + Concat(pages[1..])
  }

  /** Consecutive slices of the listing from position k on. */
  ghost predicate Slices(env: Env, byTitle: bool, limit: nat, L: seq<Row>, k: nat, pages: seq<LibraryPage>)
    requires limit > 0 && k <= |L|
    decreases |pages|
  {
    && pages != [] && SliceAt(env, byTitle, limit, L, k, pages[0])
    && (|pages| > 1 ==> |L| - k > limit && Slices(env, byTitle, limit, L, k + limit, pages[1..]))
  }

  lemma NextStands(env: Env, byTitle: bool, s: set<Row>, limit: nat, L: seq<Row>, k: nat, cursor: string,
                   page: LibraryPage)
    requires limit > 0 && PagesAreSlices(env, byTitle, s, limit, L)
    requires StandsAt(env, byTitle, L, k, cursor) && PageAt(env, byTitle, s, cursor, limit, page)
    ensures SliceAt(env, byTitle, limit, L, k, page)
    ensures page.next != "" ==> |L| - k > limit && StandsAt(env, byTitle, L, k + limit, page.next)
  {
  }

  lemma {:induction false} ChainIsSlices(env: Env, byTitle: bool, s: set<Row>, limit: nat, L: seq<Row>, k: nat,
                                         cursor: string, pages: seq<LibraryPage>)
    requires limit > 0 && PagesAreSlices(env, byTitle, s, limit, L)
    requires StandsAt(env, byTitle, L, k, cursor) && Chain(env, byTitle, s, limit, cursor, pages)
    ensures Slices(env, byTitle, limit, L, k, pages)
    decreases |pages|
  {
    NextStands(env, byTitle, s, limit, L, k, cursor, pages[0]);
    if |pages| > 1 { ChainIsSlices(env, byTitle, s, limit, L, k + limit, pages[0].next, pages[1..]); }
  }

  lemma {:induction false} SlicesConcat(env: Env, byTitle: bool, limit: nat, L: seq<Row>, k: nat,
                                        pages: seq<LibraryPage>)
    requires limit > 0 && k <= |L| && Slices(env, byTitle, limit, L, k, pages)
    ensures pages[|pages| - 1].next == "" ==> Concat(pages) == L[k..]
    ensures pages[|pages| - 1].next != ""
            ==> exists i :: 0 <= i < |L| && pages[|pages| - 1].next == EncodeCursor(env, byTitle, L[i])
    decreases |pages|
  {
    if |pages| == 1 {
      assert Concat(pages[1..]) == [];
    } else {
      SlicesConcat(env, byTitle, limit, L, k + limit, pages[1..]);
      assert pages[1..][|pages| - 2] == pages[|pages| - 1];
      assert L[k..] == L[k..k + limit] + L[k + limit..];
    }
  }

  lemma {:induction false} SlicesLength(env: Env, byTitle: bool, limit: nat, L: seq<Row>, k: nat,
                                        pages: seq<LibraryPage>)
    requires limit > 0 && k <= |L| && Slices(env, byTitle, limit, L, k, pages)
    ensures |pages| > 1 ==> (|pages| - 1) * limit < |L| - k
    decreases |pages|
  {
    if |pages| > 1 {
      SlicesLength(env, byTitle, limit, L, k + limit, pages[1..]);
      assert (|pages| - 1) * limit == (|pages| - 2) * limit + limit;
    }
  }

  /** The pool in sort order, each work once. */
  ghost function SortedPool(env: Env, byTitle: bool, works: map<string, Work>, hits: set<string>,
                            filter: string): (L: seq<Row>)
    requires StrictOrder(env)
    ensures Distinct(L) && Listing(By(env, byTitle), Pool(works, hits, filter), L) && |L| == |Pool(works, hits, filter)|
  {
    var pool := Pool(works, hits, filter);
    assert exists L :: Listing(By(env, byTitle), pool, L) by {
      PoolIsDated(works, hits, filter);
      OrderIsStrict(env, byTitle, pool);
      var _ := ListingExists(By(env, byTitle), pool);
    }
    var L :| Listing(By(env, byTitle), pool, L);
    PoolIsDated(works, hits, filter);
    OrderIsStrict(env, byTitle, pool);
    ListingFacts(By(env, byTitle), pool, L);
    L
  }

  /**
   Any chain of pages from the empty cursor, for any filter, search, sort and limit: it never meets a cursor that
   is refused, it has at most one page more than the pool fills, and once it ends its pages together are the
   sorted pool.
   */
  lemma PagesListThePool(env: Env, works: map<string, Work>, hits: set<string>, filter: string, byTitle: bool,
                         limit: nat, pages: seq<LibraryPage>)
    requires StrictOrder(env) && env.text.Faithful() && limit > 0
    requires Encodable(byTitle, Pool(works, hits, filter))
    requires Chain(env, byTitle, Pool(works, hits, filter), limit, "", pages)
    ensures pages[|pages| - 1].next != "" ==> DecodeCursor(env, byTitle, pages[|pages| - 1].next).Ok?
    ensures |pages| > 1 ==> (|pages| - 1) * limit < |Pool(works, hits, filter)|
    ensures pages[|pages| - 1].next == "" ==> Concat(pages) == SortedPool(env, byTitle, works, hits, filter)
  {
    var pool := Pool(works, hits, filter);
    PoolIsDated(works, hits, filter);
    OrderIsStrict(env, byTitle, pool);
    var L := SortedPool(env, byTitle, works, hits, filter);
    PageIsSlice(env, byTitle, pool, limit, L);
    ChainIsSlices(env, byTitle, pool, limit, L, 0, "", pages);
    SlicesConcat(env, byTitle, limit, L, 0, pages);
    SlicesLength(env, byTitle, limit, L, 0, pages);
    if pages[|pages| - 1].next == "" {
      assert L[0..] == L;
    } else {
      var i :| 0 <= i < |L| && pages[|pages| - 1].next == EncodeCursor(env, byTitle, L[i]);
      CursorSelectsAfter(env, byTitle, pool, L[i]);
    }
  }

  /** What validation and the columns guarantee of stored works. */
  ghost predicate Stored(works: map<string, Work>, maxLen: nat) {
    forall id :: id in works ==> ValidateBoundedText(works[id].title, maxLen).Ok? && id != "" && NUL !in id
  }

  /** For works whose titles passed validation, any finished chain of pages is the sorted pool. */
  lemma ValidatedPagesListThePool(env: Env, works: map<string, Work>, maxLen: nat, hits: set<string>, filter: string,
                                  byTitle: bool, limit: nat, pages: seq<LibraryPage>)
    requires StrictOrder(env) && env.text.Faithful() && limit > 0 && Stored(works, maxLen)
    requires Chain(env, byTitle, Pool(works, hits, filter), limit, "", pages) && pages[|pages| - 1].next == ""
    ensures Concat(pages) == SortedPool(env, byTitle, works, hits, filter)
  {
    forall r | r in Pool(works, hits, filter) ensures Carried(byTitle, r) {
      ValidatedTitleRoundTrips(works[r.id].title, maxLen, r.id);
      TitleRoundTrip(r.title, r.id);
    }
    PagesListThePool(env, works, hits, filter, byTitle, limit, pages);
  }

  /** The listing shows this work. */
  ghost predicate Shows(rows: seq<Row>, id: string) { exists i :: 0 <= i < |rows| && rows[i].id == id }

  /**
   What a finished chain of pages lists, whatever the page size: under "owned" exactly the found works with an entry,
   under "wanted" exactly those with a membership and no entry, under "all" or no filter exactly those with either;
   each once, told truly, by title and id or from the newest on.
   */
  lemma FinishedChainLists(env: Env, works: map<string, Work>, maxLen: nat, hits: set<string>, filter: string,
                           sort: string, limit: int, pages: seq<LibraryPage>)
    requires StrictOrder(env) && env.text.Faithful() && Stored(works, maxLen)
    requires Chain(env, sort == "title", Pool(works, hits, NormalFilter(filter)), NormalLimit(limit), "", pages)
    requires pages[|pages| - 1].next == ""
    ensures var rows := Concat(pages);
            && (forall i :: 0 <= i < |rows| ==>
                  rows[i].id in works && rows[i].id in hits && TellsOf(rows[i], works[rows[i].id]))
            && (forall i, j :: 0 <= i < j < |rows| ==> rows[i].id != rows[j].id && InOrder(env, sort, rows[i], rows[j]))
            && (filter == "owned" ==> forall id ::
                  Shows(rows, id) <==> id in works.Keys * hits && works[id].entries != {})
            && (filter == "wanted" ==> forall id ::
                Shows(rows, id) <==> id in works.Keys * hits && works[id].memberships != {} && works[id].entries == {})
            && (filter == "all" || filter == "" ==> forall id ::
                  Shows(rows, id) <==> id in works.Keys * hits && works[id].entries + works[id].memberships != {})
            && (filter !in {"owned", "wanted", "all", ""} ==> rows == [])
  {
    var f := NormalFilter(filter);
    var pool := Pool(works, hits, f);
    var rows := SortedPool(env, sort == "title", works, hits, f);
    ValidatedPagesListThePool(env, works, maxLen, hits, f, sort == "title", NormalLimit(limit), pages);
    PoolMeans(works, hits, f);
    ListedIds(env, sort == "title", pool, rows);
    RowsTell(works, hits, f, pool, rows);
    PoolIsDated(works, hits, f);
    ListedInOrder(env, sort, pool, rows);
  }

  lemma ListedInOrder(env: Env, sort: string, s: set<Row>, rows: seq<Row>)
    requires Listing(By(env, sort == "title"), s, rows) && Distinct(rows) && AllDated(s) && UniqueIds(s)
    ensures forall i, j :: 0 <= i < j < |rows| ==> rows[i].id != rows[j].id && InOrder(env, sort, rows[i], rows[j])
  {
    forall i, j | 0 <= i < j < |rows| ensures rows[i].id != rows[j].id && InOrder(env, sort, rows[i], rows[j]) {
      assert By(env, sort == "title")(rows[i], rows[j]);
      assert rows[i] in s && rows[j] in s;
    }
  }

  lemma ListedIds(env: Env, byTitle: bool, s: set<Row>, rows: seq<Row>)
    requires Listing(By(env, byTitle), s, rows)
    ensures forall id :: Shows(rows, id) <==> HasRow(s, id)
  {
    forall id | HasRow(s, id) ensures Shows(rows, id) {
      var r :| r in s && r.id == id;
      var i :| 0 <= i < |rows| && rows[i] == r;
    }
  }

  /** By title and then id; or the newest first, and among equals the greater id first. */
  predicate InOrder(env: Env, sort: string, a: Row, b: Row) {
    if sort == "title" then env.less(a.title, b.title) || (a.title == b.title && env.less(a.id, b.id))
    else a.addedAt.Some? && b.addedAt.Some?
         && (a.addedAt.value > b.addedAt.value || (a.addedAt.value == b.addedAt.value && env.less(b.id, a.id)))
  }
}
