/**
  The two item pipelines. `CryptoNewsPipeline` passes items through unchanged.
  `PostgresPipeline` runs one `INSERT ... ON CONFLICT (url) DO NOTHING` per item on
  its connection, commits on success, and on a database error rolls back and
  drops the item. The database is a table keyed by `url`, plus the rows whose url
  is NULL; whether each statement and commit succeeds is an input (`DbOutcome`)
  standing in for psycopg2.
 */
module Pipelines {
  import opened Wrappers
  import Spider

  /** An item as a pipeline sees it: a dict whose values are strings or `None`. */
  type Item = map<string, Option<string>>

  /** `item.get(key)`: the value under `key`, or `None` when the key is missing. */
  function Get(item: Item, key: string): Option<string> {
    if key in item then item[key] else None
  }

  /** `CryptoNewsPipeline.process_item`: every item is handed on untouched. */
  function PassThrough(item: Item): (r: Item)
    ensures r == item
  {
    item
  }

  /** One row of table `crypto_news`; a column holding SQL NULL is `None`. */
  datatype Row = Row(url: Option<string>, title: Option<string>, date: Option<string>, content: Option<string>)

  /**
    The table. Rows with a url are keyed by it, as the unique `url` column allows
    at most one row per url. Rows whose url is NULL are kept in insertion order:
    a unique index treats NULLs as distinct by default, so they never conflict.
    Every column holds the bound text as given.
   */
  datatype Table = Table(keyed: map<string, Row>, nullUrl: seq<Row>)

  /**
    The database as seen through the pipeline's connection: the committed table,
    and the table as the currently open transaction sees it.
   */
  datatype Session = Session(committed: Table, working: Table)

  /** No transaction holds uncommitted changes. */
  predicate Idle(s: Session) {
    s.working == s.committed
  }

  /**
    What the database answers to this call's statement and commit. A schema that
    forbids a NULL url answers `ExecuteFailed` for such an item, with its own text.
   */
  datatype DbOutcome = Ok | ExecuteFailed(message: string) | CommitFailed(message: string)

  /** The result of `process_item`: the item is returned, or `DropItem` is raised. */
  datatype Outcome = Passed(item: Item) | Dropped(reason: string)

  datatype Step = Step(session: Session, outcome: Outcome)

  /** The message `DropItem` carries for database error `e`. */
  function DropMessage(e: string): string {
    "Error inserting item into database: " + e
  }

  /** The four values bound to the INSERT, each `None` (NULL) when the key is missing. */
  function RowOf(item: Item): (r: Row)
    ensures r.url == Get(item, "url") && r.title == Get(item, "title")
    ensures r.date == Get(item, "date") && r.content == Get(item, "content")
  {
    Row(Get(item, "url"), Get(item, "title"), Get(item, "date"), Get(item, "content"))
  }

  /** `INSERT ... ON CONFLICT (url) DO NOTHING` */
  function InsertIfAbsent(t: Table, row: Row): (r: Table)
    ensures row.url.None? ==> r.keyed == t.keyed && r.nullUrl == t.nullUrl + [row]
    ensures row.url.Some? ==> r.nullUrl == t.nullUrl && r.keyed.Keys == t.keyed.Keys + {row.url.value}
    ensures row.url.Some? && row.url.value in t.keyed ==> r == t
    ensures row.url.Some? && row.url.value !in t.keyed ==> r.keyed[row.url.value] == row && |r.keyed| == |t.keyed| + 1
    ensures forall u :: u in t.keyed ==> r.keyed[u] == t.keyed[u]
  {
    match row.url
    case None => t.(nullUrl := t.nullUrl + [row])
    case Some(u) => if u in t.keyed then t else t.(keyed := t.keyed[u := row])
  }

  function Commit(s: Session): (r: Session)
    ensures Idle(r) && r.committed == s.working
  {
    Session(s.working, s.working)
  }

  function Rollback(s: Session): (r: Session)
    ensures Idle(r) && r.committed == s.committed
  {
    Session(s.committed, s.committed)
  }

  /** The item is stored under its url by this call: the database accepts it and its url is not NULL. */
  predicate Accepted(item: Item, db: DbOutcome) {
    db.Ok? && Get(item, "url").Some?
  }

  /**
    `PostgresPipeline.process_item`. Every call ends its transaction (commit or
    rollback); a call starts on an idle connection because the previous one did.
   */
  function ProcessItem(s: Session, item: Item, db: DbOutcome): (r: Step)
    requires Idle(s)
    ensures Idle(r.session)
    ensures r.outcome.Passed? <==> db.Ok?
    ensures r.outcome.Passed? ==> r.outcome.item == item
    ensures r.outcome.Dropped? ==> r.session.committed == s.committed && r.outcome.reason == DropMessage(db.message)
    ensures forall u :: u in s.committed.keyed ==>
      u in r.session.committed.keyed && r.session.committed.keyed[u] == s.committed.keyed[u]
    ensures forall u :: u in r.session.committed.keyed && u !in s.committed.keyed ==>
      Accepted(item, db) && u == Get(item, "url").value
    ensures db.Ok? && Get(item, "url").None? ==> r.session.committed.nullUrl == s.committed.nullUrl + [RowOf(item)]
    ensures !(db.Ok? && Get(item, "url").None?) ==> r.session.committed.nullUrl == s.committed.nullUrl
  {
    match db
    case ExecuteFailed(e) => Step(Rollback(s), Dropped(DropMessage(e)))
    case _ =>
      var inTxn := s.(working := InsertIfAbsent(s.working, RowOf(item)));
      match db
      case CommitFailed(e) => Step(Rollback(inTxn), Dropped(DropMessage(e)))
      case _ => Step(Commit(inTxn), Passed(item))
  }

  /** A new url adds exactly one row, holding the item's values; a missing key is stored as NULL. */
  lemma InsertNewRow(s: Session, item: Item)
    requires Idle(s) && Get(item, "url").Some? && Get(item, "url").value !in s.committed.keyed
    ensures var t := ProcessItem(s, item, Ok).session.committed;
      var u := Get(item, "url").value;
      && t.keyed == s.committed.keyed[u := Row(Some(u), Get(item, "title"), Get(item, "date"), Get(item, "content"))]
      && |t.keyed| == |s.committed.keyed| + 1
      && t.nullUrl == s.committed.nullUrl
  {
  }

  /**
    First write wins: a url already in the table keeps its row, the call still
    succeeds and the item is returned (a conflict is not an error).
   */
  lemma DuplicateIgnored(s: Session, item: Item)
    requires Idle(s) && Get(item, "url").Some? && Get(item, "url").value in s.committed.keyed
    ensures ProcessItem(s, item, Ok).session.committed == s.committed
    ensures ProcessItem(s, item, Ok).outcome == Passed(item)
  {
  }

  /**
    Processing an item again leaves the table as one success left it, whatever
    the database does the second time, unless the url is NULL and the database
    accepts it once more.
   */
  lemma ReplayIdempotent(s: Session, item: Item, db: DbOutcome)
    requires Idle(s)
    ensures var once := ProcessItem(s, item, Ok).session;
      ProcessItem(once, item, db).session == once <==> Get(item, "url").Some? || !db.Ok?
  {
    var once := ProcessItem(s, item, Ok).session;
    if Get(item, "url").None? && db.Ok? {
      assert |ProcessItem(once, item, db).session.committed.nullUrl| == |once.committed.nullUrl| + 1;
    }
  }

  /** A call leaves every row of every other url as it was, and adds none. */
  lemma OtherRowsUntouched(s: Session, item: Item, db: DbOutcome, u: string)
    requires Idle(s) && Get(item, "url") != Some(u)
    ensures u in ProcessItem(s, item, db).session.committed.keyed <==> u in s.committed.keyed
    ensures u in s.committed.keyed ==> ProcessItem(s, item, db).session.committed.keyed[u] == s.committed.keyed[u]
  {
  }

  /**
    A database error rolls back, so the committed table is unchanged, and the item
    is dropped with the message of the error that occurred.
   */
  lemma ErrorRollsBack(s: Session, item: Item, db: DbOutcome)
    requires Idle(s) && !db.Ok?
    ensures ProcessItem(s, item, db) == Step(s, Dropped(DropMessage(db.message)))
  {
  }

  /**
    The pipeline does not check the url itself: the database decides. Rejected, the
    item is dropped with the database's text; accepted, a NULL-url row is added
    and, as no conflict is possible, the item is returned.
   */
  lemma NullUrlDecidedByDatabase(s: Session, item: Item, db: DbOutcome)
    requires Idle(s) && Get(item, "url").None?
    ensures db.ExecuteFailed? ==> ProcessItem(s, item, db) == Step(s, Dropped(DropMessage(db.message)))
    ensures db.Ok? ==>
      var t := s.committed.(nullUrl := s.committed.nullUrl + [RowOf(item)]);
      ProcessItem(s, item, db) == Step(Session(t, t), Passed(item))
  {
  }

  /** Placing the pass-through pipeline in front of the database pipeline changes nothing. */
  lemma PassThroughTransparent(s: Session, item: Item, db: DbOutcome)
    requires Idle(s)
    ensures ProcessItem(s, PassThrough(item), db) == ProcessItem(s, item, db)
  {
  }

  /** A run of the pipeline over items in arrival order, with the database's answer for each call. */
  function ProcessAll(s: Session, items: seq<Item>, dbs: seq<DbOutcome>): (r: Session)
    requires Idle(s) && |items| == |dbs|
    ensures Idle(r)
    decreases |items|
  {
    if |items| == 0 then s
    else ProcessAll(ProcessItem(s, items[0], dbs[0]).session, items[1..], dbs[1..])
  }

  /** No stored row is ever overwritten or lost by later items. */
  lemma {:induction false} StoredRowsSurvive(s: Session, items: seq<Item>, dbs: seq<DbOutcome>)
    requires Idle(s) && |items| == |dbs|
    ensures forall u :: u in s.committed.keyed ==>
      u in ProcessAll(s, items, dbs).committed.keyed && ProcessAll(s, items, dbs).committed.keyed[u] == s.committed.keyed[u]
    ensures s.committed.nullUrl <= ProcessAll(s, items, dbs).committed.nullUrl
    decreases |items|
  {
    if |items| > 0 {
      StoredRowsSurvive(ProcessItem(s, items[0], dbs[0]).session, items[1..], dbs[1..]);
    }
  }

  /**
    First write wins across a run: for a url not yet stored, the row that ends up
    in the table is the one from the first item with that url the database accepted.
   */
  lemma {:induction false} FirstAcceptedWins(s: Session, items: seq<Item>, dbs: seq<DbOutcome>, k: nat)
    requires Idle(s) && |items| == |dbs| && k < |items|
    requires Accepted(items[k], dbs[k]) && Get(items[k], "url").value !in s.committed.keyed
    requires forall j :: 0 <= j < k && Accepted(items[j], dbs[j]) ==>
      Get(items[j], "url") != Get(items[k], "url")
    ensures var u := Get(items[k], "url").value;
      u in ProcessAll(s, items, dbs).committed.keyed && ProcessAll(s, items, dbs).committed.keyed[u] == RowOf(items[k])
    decreases |items|
  {
    var next := ProcessItem(s, items[0], dbs[0]).session;
    if k == 0 {
      StoredRowsSurvive(next, items[1..], dbs[1..]);
    } else {
      forall j | 0 <= j < k - 1 && Accepted(items[1..][j], dbs[1..][j])
        ensures Get(items[1..][j], "url") != Get(items[1..][k - 1], "url")
      {
        assert items[1..][j] == items[j + 1] && dbs[1..][j] == dbs[j + 1];
      }
      FirstAcceptedWins(next, items[1..], dbs[1..], k - 1);
    }
  }

  /** The dict `parse_item` yields for an article. */
  function ArticleItem(a: Spider.Article): Item {
    map["url" := Some(a.url), "title" := Some(a.title), "date" := a.date, "content" := Some(a.content)]
  }

  /** An extracted article stored for the first time becomes a row with its title, its date (NULL when `None`) and its content. */
  lemma StoreArticle(s: Session, a: Spider.Article)
    requires Idle(s) && a.url !in s.committed.keyed
    ensures ProcessItem(s, ArticleItem(a), Ok).session.committed ==
      s.committed.(keyed := s.committed.keyed[a.url := Row(Some(a.url), Some(a.title), a.date, Some(a.content))])
    ensures ProcessItem(s, ArticleItem(a), Ok).outcome == Passed(ArticleItem(a))
  {
  }
}
