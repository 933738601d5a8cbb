/** Reading a room's history page by page while the room goes on living. */
module Pages {
  import opened Basics
  import opened Chat

  const MAX_PAGE_SIZE := 50

  /** The ids of a page, the cursor of the next one and whether there is more. */
  datatype Page = Page(items: seq<nat>, next: Option<nat>, hasMore: bool)

  function Clamp(limit: int): nat {
    Max(1, Min(limit, MAX_PAGE_SIZE))
  }

  predicate Visible(messages: map<nat, Message>, room: nat, id: nat) {
    id in messages && messages[id].room == room && messages[id].normal
  }

  /** The room's visible ids below `n`, newest first. */
  function Listing(messages: map<nat, Message>, room: nat, n: nat): seq<nat> {
    if n == 0 then []
    else if Visible(messages, room, n - 1) then [n - 1] + Listing(messages, room, n - 1)
    else Listing(messages, room, n - 1)
  }

  function Bound(db: Db, cursor: Option<nat>): nat {
    if cursor.None? then db.nextMsg else cursor.value
  }

  /** `list_by_cursor`: one row more than the page holds decides whether there is more. */
  function ListByCursor(db: Db, room: nat, cursor: Option<nat>, limit: int): Page {
    var lim := Clamp(limit);
    var all := Listing(db.messages, room, Bound(db, cursor));
    var rows := all[..Min(lim + 1, |all|)];
    var hasMore := |rows| > lim;
    var items := rows[..Min(lim, |rows|)];
    Page(items, if hasMore && items != [] then Some(items[|items| - 1]) else None, hasMore)
  }

  /** What may happen between two pages: new messages get larger ids, and existing ones keep
      their room and stay visible or hidden. */
  ghost predicate Evolves(db: Db, db': Db) {
    db.nextMsg <= db'.nextMsg &&
    (forall id :: id in db.messages ==>
      id in db'.messages && db'.messages[id].room == db.messages[id].room &&
      db'.messages[id].normal == db.messages[id].normal) &&
    (forall id :: id in db'.messages && id !in db.messages ==> db.nextMsg <= id)
  }

  lemma SendEvolves(db: Db, m: Message, now: real)
    requires m.room in db.rooms && db.nextMsg !in db.messages
    ensures Evolves(db, Committed(db, m, now))
  {
  }

  const RECALL_KIND: nat := 2

  /** `recall` changes the kind of a message, not its status. */
  function Recalled(db: Db, id: nat): Db {
    if id in db.messages then db.(messages := db.messages[id := db.messages[id].(kind := RECALL_KIND)]) else db
  }

  lemma RecallEvolves(db: Db, id: nat)
    ensures Evolves(db, Recalled(db, id))
    ensures Recalled(db, id).messages.Keys == db.messages.Keys
    ensures forall k :: k in db.messages ==>
              Recalled(db, id).messages[k] == if k == id then db.messages[k].(kind := 2) else db.messages[k]
  {
  }

  /** The listing is strictly descending and holds exactly the visible ids. */
  lemma {:induction false} ListingExact(messages: map<nat, Message>, room: nat, n: nat)
    ensures var l := Listing(messages, room, n);
            (forall id: nat :: id in l <==> id < n && Visible(messages, room, id)) &&
            (forall i, j :: 0 <= i < j < |l| ==> l[i] > l[j])
  {
    if n > 0 {
      ListingExact(messages, room, n - 1);
      var rest := Listing(messages, room, n - 1);
      assert forall j :: 0 <= j < |rest| ==> rest[j] in rest;
    }
  }

  /** Asking below the k-th listed id continues the listing behind it. */
  lemma {:induction false} ListingContinues(messages: map<nat, Message>, room: nat, n: nat, k: nat)
    requires k < |Listing(messages, room, n)|
    ensures var l := Listing(messages, room, n);
            l[k] < n && Listing(messages, room, l[k]) == l[k + 1..]
  {
    if Visible(messages, room, n - 1) {
      if k > 0 {
        ListingContinues(messages, room, n - 1, k - 1);
      }
    } else {
      ListingContinues(messages, room, n - 1, k);
    }
  }

  /** Below the ids already handed out nothing changes. */
  lemma {:induction false} ListingStable(db: Db, db': Db, room: nat, n: nat)
    requires Evolves(db, db') && n <= db.nextMsg
    ensures Listing(db'.messages, room, n) == Listing(db.messages, room, n)
  {
    if n > 0 {
      ListingStable(db, db', room, n - 1);
    }
  }

  // ----- following the cursor

  /** A client follows `next` from page to page; the database may evolve in between and every
      page may ask for a different size. */
  ghost predicate Walk(dbs: seq<Db>, room: nat, limits: seq<int>, pages: seq<Page>, cursor: Option<nat>)
    decreases |pages|
  {
    |dbs| == |limits| == |pages| > 0 && pages[0] == ListByCursor(dbs[0], room, cursor, limits[0]) &&
    (|pages| > 1 ==>
      (pages[0].next.Some? && Evolves(dbs[0], dbs[1]) &&
      Walk(dbs[1..], room, limits[1..], pages[1..], pages[0].next)))
  }

  function AllItems(pages: seq<Page>): seq<nat> {
    if pages == [] then [] else pages[0].items + AllItems(pages[1..])
  }

  /** One page: the first ids of the listing, and a cursor exactly when ids are left. */
  lemma PageOfListing(db: Db, room: nat, cursor: Option<nat>, limit: int)
    ensures var l, p := Listing(db.messages, room, Bound(db, cursor)), ListByCursor(db, room, cursor, limit);
            if |l| <= Clamp(limit) then p == Page(l, None, false)
            else p == Page(l[..Clamp(limit)], Some(l[Clamp(limit) - 1]), true)
  {
  }

  lemma ClampExact(limit: int)
    ensures Clamp(limit) == if limit < 1 then 1 else if limit > 50 then 50 else limit
  {
  }

  /** In a descending list what is not in a prefix is smaller than all of it. */
  lemma PageIsPrefix(l: seq<nat>, items: seq<nat>)
    requires items <= l && forall i, j :: 0 <= i < j < |l| ==> l[i] > l[j]
    ensures forall id :: id in items ==> id in l
    ensures forall id, i :: id in l && id !in items && 0 <= i < |items| ==> id < items[i]
    ensures forall k :: |items| <= k < |l| ==> l[k] !in items
  {
    forall id, i | id in l && id !in items && 0 <= i < |items| ensures id < items[i] {
      var k :| 0 <= k < |l| && l[k] == id;
      assert forall x :: 0 <= x < |items| ==> items[x] == l[x];
    }
  }

  /** A page holds the newest normal messages of the room below the cursor, at most as many as
      were asked for and never more than 50, in descending order; it is full and carries its
      last id as the next cursor exactly when such messages are left over. */
  lemma PageExact(db: Db, room: nat, cursor: Option<nat>, limit: int)
    requires forall id :: id in db.messages ==> id < db.nextMsg
    ensures var p := ListByCursor(db, room, cursor, limit);
            |p.items| <= (if limit < 1 then 1 else if limit > 50 then 50 else limit) &&
            (p.hasMore ==> |p.items| == if limit < 1 then 1 else if limit > 50 then 50 else limit) &&
            (p.next == if p.hasMore then Some(p.items[|p.items| - 1]) else None) &&
            (forall i, j :: 0 <= i < j < |p.items| ==> p.items[i] > p.items[j])
    ensures var items := ListByCursor(db, room, cursor, limit).items;
            forall id :: id in items ==>
              id in db.messages && db.messages[id].room == room && db.messages[id].normal &&
              (cursor.Some? ==> id < cursor.value)
    ensures var p := ListByCursor(db, room, cursor, limit);
            forall id :: id in db.messages && id !in p.items ==>
              db.messages[id].room != room || !db.messages[id].normal || (cursor.Some? && id >= cursor.value) ||
              (p.hasMore && forall i :: 0 <= i < |p.items| ==> id < p.items[i])
    ensures var p := ListByCursor(db, room, cursor, limit);
            p.hasMore ==>
              exists id :: id in db.messages && db.messages[id].room == room && db.messages[id].normal &&
                           (cursor.Some? ==> id < cursor.value) && id !in p.items
  {
    var n := Bound(db, cursor);
    var l, p := Listing(db.messages, room, n), ListByCursor(db, room, cursor, limit);
    ClampExact(limit);
    ListingExact(db.messages, room, n);
    PageOfListing(db, room, cursor, limit);
    PageIsPrefix(l, p.items);
    if p.hasMore {
      var id := l[Clamp(limit)];
      assert id in l && id in db.messages && id !in p.items;
    }
  }

  lemma {:induction false} WalkFrom(dbs: seq<Db>, room: nat, limits: seq<int>, pages: seq<Page>, cursor: Option<nat>)
    requires Walk(dbs, room, limits, pages, cursor) && Bound(dbs[0], cursor) <= dbs[0].nextMsg
    ensures var l := Listing(dbs[0].messages, room, Bound(dbs[0], cursor));
            AllItems(pages) <= l && |pages| <= Max(1, |l|) &&
            (pages[|pages| - 1].next.None? <==> AllItems(pages) == l)
    decreases |pages|
  {
    var n := Bound(dbs[0], cursor);
    var l, lim := Listing(dbs[0].messages, room, n), Clamp(limits[0]);
    PageOfListing(dbs[0], room, cursor, limits[0]);
    if |pages| == 1 {
      assert pages[1..] == [] && AllItems(pages) == pages[0].items + [];
    } else {
      var c := l[lim - 1];
      ListingContinues(dbs[0].messages, room, n, lim - 1);
      ListingStable(dbs[0], dbs[1], room, c);
      WalkFrom(dbs[1..], room, limits[1..], pages[1..], pages[0].next);
      assert l == l[..lim] + l[lim..];
    }
  }

  /** From the first page on, a client sees the normal messages of the room that were there at
      the first fetch, in strictly descending order, each once; it has seen all of them exactly
      when the cursor is null, and that happens after at most one page per message. */
  lemma WalkExact(dbs: seq<Db>, room: nat, limits: seq<int>, pages: seq<Page>)
    requires Walk(dbs, room, limits, pages, None)
    requires forall id :: id in dbs[0].messages ==> id < dbs[0].nextMsg
    ensures var items := AllItems(pages);
            (forall id :: id in items ==>
              id in dbs[0].messages && dbs[0].messages[id].room == room && dbs[0].messages[id].normal) &&
            (forall i, j :: 0 <= i < j < |items| ==> items[i] > items[j])
    ensures pages[|pages| - 1].next.None? <==>
              forall id :: id in dbs[0].messages && dbs[0].messages[id].room == room && dbs[0].messages[id].normal ==>
                id in AllItems(pages)
    ensures |pages| <= Max(1, |set id | id in dbs[0].messages && dbs[0].messages[id].room == room &&
                                        dbs[0].messages[id].normal|)
  {
    var n := dbs[0].nextMsg;
    var l, items := Listing(dbs[0].messages, room, n), AllItems(pages);
    WalkFrom(dbs, room, limits, pages, None);
    ListingExact(dbs[0].messages, room, n);
    PageIsPrefix(l, items);
    if |items| < |l| {
      assert l[|items|] in l;
    }
    ListingSize(dbs[0].messages, room, n);
    var there := set id | id in dbs[0].messages && dbs[0].messages[id].room == room && dbs[0].messages[id].normal;
    assert there == set id | id in l;
  }

  lemma {:induction false} ListingSize(messages: map<nat, Message>, room: nat, n: nat)
    ensures |set id | id in Listing(messages, room, n)| == |Listing(messages, room, n)|
  {
    if n > 0 {
      ListingSize(messages, room, n - 1);
      ListingExact(messages, room, n - 1);
      if Visible(messages, room, n - 1) {
        var rest := Listing(messages, room, n - 1);
        var few := set id | id in rest;
        assert (set id | id in Listing(messages, room, n)) == few + {n - 1} && n - 1 !in few;
      }
    }
  }

  /** A walk can always be brought to its end. */
  lemma {:induction false} WalkCompletes(db: Db, room: nat, limit: int, cursor: Option<nat>)
    returns (dbs: seq<Db>, limits: seq<int>, pages: seq<Page>)
    ensures Walk(dbs, room, limits, pages, cursor) && dbs[0] == db && pages[|pages| - 1].next.None?
    decreases Bound(db, cursor)
  {
    var p := ListByCursor(db, room, cursor, limit);
    dbs, limits, pages := [db], [limit], [p];
    if p.next.Some? {
      PageOfListing(db, room, cursor, limit);
      ListingContinues(db.messages, room, Bound(db, cursor), Clamp(limit) - 1);
      var restDbs, restLimits, rest := WalkCompletes(db, room, limit, p.next);
      dbs, limits, pages := [db] + restDbs, [limit] + restLimits, [p] + rest;
      assert dbs[1..] == restDbs && limits[1..] == restLimits && pages[1..] == rest;
    }
  }
}
