/**
 * The `languages` table of the Flask service as a value: its rows, the order in which
 * `SELECT * FROM languages` returns them, the AUTOINCREMENT counter and whether the
 * database file exists. Each request handler is a function from the table before the
 * request to the table after it and the response; the lemmas below state what those
 * handlers promise, alone and in combination.
 */
module LanguageTable {
  import opened Optional

  /** The two text columns of one stored row. */
  datatype Row = Row(name: string, color: string)

  /** A row together with its id, the JSON object the handlers return. */
  datatype Language = Language(id: int, name: string, color: string)

  /**
   * A parsed JSON request body: None when there is none (or it is JSON null),
   * otherwise the keys and values of the JSON object.
   */
  type Body = Option<map<string, string>>

  /** What a handler sends back; `Status` gives the HTTP status code. */
  datatype Response =
    | LanguageList(languages: seq<Language>)
    | LanguageFound(language: Language)
    | LanguageCreated(language: Language)
    | LanguageDeleted(message: string)
    | BadRequest(error: string)
    | NotFound(error: string)
    | ServerError

  function Status(r: Response): int {
    match r
    case LanguageCreated(_) => 201
    case BadRequest(_) => 400
    case NotFound(_) => 404
    case ServerError => 500
    case _ => 200
  }

  const NotFoundMessage := "Language not found"
  const RequiredMessage := "Name and color are required"
  const NoDataMessage := "No data provided"
  const DeletedMessage := "Language deleted successfully"

  /** The seven rows `init_db` inserts into a freshly created table, in order. */
  const SeedData: seq<Row> := [
    Row("Python", "4F75A1"),
    Row("JavaScript", "F1DC5D"),
    Row("Swift", "EB735F"),
    Row("Rust", "8E6CE1"),
    Row("Kotlin", "8E6CE1"),
    Row("Dart", "74B8DF"),
    Row("Go", "6BAFC6")
  ]

  /**
   * The store. `rows` maps each id to its row; `order` lists the ids in rowid order,
   * which is the order a full scan returns; `lastId` is the largest id AUTOINCREMENT has
   * ever issued (the table's entry in `sqlite_sequence`); `dbExists` says whether the
   * database file exists.
   */
  datatype Db = Db(dbExists: bool, rows: map<int, Row>, order: seq<int>, lastId: nat)

  /** The table after a handler ran, and what the handler answered. */
  datatype Outcome = Outcome(db: Db, response: Response)

  /** No database file yet. */
  const Missing := Db(false, map[], [], 0)

  /** The table just after `CREATE TABLE`. */
  const EmptyTable := Db(true, map[], [], 0)

  ghost predicate Increasing(s: seq<int>) {
    forall i, j :: 0 <= i < j < |s| ==> s[i] < s[j]
  }

  /**
   * The invariant of the store: the scan order lists every id once, in increasing
   * order; every id was issued by AUTOINCREMENT; without a file there is no table.
   */
  ghost predicate WellFormed(db: Db) {
    && Increasing(db.order)
    && (forall id :: id in db.rows <==> id in db.order)
    && (forall id :: id in db.rows ==> 1 <= id <= db.lastId)
    && (!db.dbExists ==> db.rows == map[] && db.lastId == 0)
  }

  /** Every id in the scan order is stored and was issued by the counter. */
  lemma OrderIssued(db: Db)
    requires WellFormed(db)
    ensures forall i :: 0 <= i < |db.order| ==> db.order[i] in db.rows && 1 <= db.order[i] <= db.lastId
  {
    forall i | 0 <= i < |db.order|
      ensures db.order[i] in db.rows && 1 <= db.order[i] <= db.lastId
    {
      assert db.order[i] in db.order;
    }
  }

  /** Python's truth value of the parsed body: no body and `{}` are both false. */
  predicate Truthy(body: Body) {
    body.Some? && body.value != map[]
  }

  /** The guard of `add_language`: a truthy body holding both `name` and `color`. */
  predicate HasNameAndColor(body: Body) {
    Truthy(body) && "name" in body.value && "color" in body.value
  }

  function Entry(db: Db, id: int): Language
    requires id in db.rows
  {
    Language(id, db.rows[id].name, db.rows[id].color)
  }

  /** `SELECT * FROM languages`: every row, in rowid order. */
  function Listing(db: Db): (ls: seq<Language>)
    requires WellFormed(db)
    ensures |ls| == |db.order|
    ensures forall i, j :: 0 <= i < j < |ls| ==> ls[i].id < ls[j].id
    ensures forall i :: 0 <= i < |ls| ==> ls[i].id in db.rows && db.rows[ls[i].id] == Row(ls[i].name, ls[i].color)
  {
    seq(|db.order|, i requires 0 <= i < |db.order| => assert db.order[i] in db.order; Entry(db, db.order[i]))
  }

  /** The `languages` the list handler returns are exactly the stored rows. */
  lemma ListingExact(db: Db, l: Language)
    requires WellFormed(db)
    ensures l in Listing(db) <==> l.id in db.rows && db.rows[l.id] == Row(l.name, l.color)
  {
    if l.id in db.rows && db.rows[l.id] == Row(l.name, l.color) {
      var i :| 0 <= i < |db.order| && db.order[i] == l.id;
      assert Listing(db)[i] == l;
    }
  }

  /**
   * One `INSERT INTO languages (name, color)`. AUTOINCREMENT picks one more than the
   * largest of `sqlite_sequence` and the largest id present; under `WellFormed` that is
   * `lastId + 1`.
   */
  function InsertRow(db: Db, row: Row): (d: Db)
    requires WellFormed(db) && db.dbExists
    ensures WellFormed(d) && d.dbExists
    ensures d.lastId == db.lastId + 1 && d.lastId !in db.rows
    ensures d.rows == db.rows[d.lastId := row]
  {
    var id := db.lastId + 1;
    OrderIssued(db);
    Db(true, db.rows[id := row], db.order + [id], id)
  }

  /** `executemany` of one INSERT per row, in order. */
  function InsertAll(db: Db, rs: seq<Row>): (d: Db)
    requires WellFormed(db) && db.dbExists
    ensures WellFormed(d) && d.dbExists
    ensures d.lastId == db.lastId + |rs|
  {
    if rs == [] then db else InsertRow(InsertAll(db, rs[..|rs| - 1]), rs[|rs| - 1])
  }

  /** The languages that inserting `rs` after id `last` creates: ids `last + 1`, `last + 2`, ... */
  function Issued(last: int, rs: seq<Row>): seq<Language> {
    seq(|rs|, k requires 0 <= k < |rs| => Language(last + 1 + k, rs[k].name, rs[k].color))
  }

  lemma InsertRowListing(db: Db, row: Row)
    requires WellFormed(db) && db.dbExists
    ensures Listing(InsertRow(db, row)) == Listing(db) + [Language(db.lastId + 1, row.name, row.color)]
  {
  }

  /** Inserting a sequence of rows appends them to the listing under consecutive fresh ids. */
  lemma {:induction false} InsertAllListing(db: Db, rs: seq<Row>)
    requires WellFormed(db) && db.dbExists
    ensures Listing(InsertAll(db, rs)) == Listing(db) + Issued(db.lastId, rs)
  {
    if rs == [] {
      assert Issued(db.lastId, rs) == [];
    } else {
      var n := |rs|;
      var prefix := rs[..n - 1];
      InsertAllListing(db, prefix);
      var d := InsertAll(db, prefix);
      InsertRowListing(d, rs[n - 1]);
      assert Issued(db.lastId, prefix) + [Language(d.lastId + 1, rs[n - 1].name, rs[n - 1].color)]
          == Issued(db.lastId, rs);
    }
  }

  /** `init_db`: without a database file, create the table and insert the seed rows; otherwise nothing. */
  function Init(db: Db): (d: Db)
    requires WellFormed(db)
    ensures WellFormed(d) && d.dbExists
    ensures db.dbExists ==> d == db
    ensures d.lastId >= db.lastId
  {
    if db.dbExists then db else InsertAll(EmptyTable, SeedData)
  }

  /** Seeding yields exactly the seven seed rows, in order, under ids 1 to 7. */
  lemma InitSeeds(db: Db)
    requires WellFormed(db) && !db.dbExists
    ensures var ls := Listing(Init(db));
      |ls| == |SeedData| == 7 && Init(db).lastId == 7
      && forall k :: 0 <= k < 7 ==> ls[k] == Language(k + 1, SeedData[k].name, SeedData[k].color)
  {
    InsertAllListing(EmptyTable, SeedData);
    assert Listing(EmptyTable) == [];
  }

  /** Running `init_db` again on every later start changes nothing. */
  lemma InitIdempotent(db: Db)
    requires WellFormed(db)
    ensures Init(Init(db)) == Init(db)
  {
  }

  /** `get_language`: the row with that id, or 404. */
  function Get(db: Db, id: int): Response {
    if id in db.rows then LanguageFound(Entry(db, id)) else NotFound(NotFoundMessage)
  }

  /** Get finds exactly the languages the listing holds. */
  lemma GetAgreesWithListing(db: Db, id: int, l: Language)
    requires WellFormed(db)
    ensures Get(db, id) == LanguageFound(l) <==> l in Listing(db) && l.id == id
    ensures Get(db, id).NotFound? <==> (forall k :: 0 <= k < |Listing(db)| ==> Listing(db)[k].id != id)
  {
    ListingExact(db, l);
    if id in db.rows {
      ListingExact(db, Entry(db, id));
      var k :| 0 <= k < |Listing(db)| && Listing(db)[k] == Entry(db, id);
    }
  }

  /** `add_language`: 400 unless the body has `name` and `color`; then insert and answer 201. */
  function Add(db: Db, body: Body): (o: Outcome)
    requires WellFormed(db) && db.dbExists
    ensures WellFormed(o.db) && o.db.dbExists
    ensures o.db.lastId >= db.lastId
    ensures forall id :: id in o.db.rows && id !in db.rows ==> id > db.lastId
  {
    if !HasNameAndColor(body) then Outcome(db, BadRequest(RequiredMessage))
    else
      var row := Row(body.value["name"], body.value["color"]);
      var d := InsertRow(db, row);
      Outcome(d, LanguageCreated(Language(d.lastId, row.name, row.color)))
  }

  /** A body without both fields is refused and the table stays as it was. */
  lemma AddRejects(db: Db, body: Body)
    requires WellFormed(db) && db.dbExists && !HasNameAndColor(body)
    ensures Add(db, body) == Outcome(db, BadRequest(RequiredMessage))
    ensures Status(Add(db, body).response) == 400
  {
  }

  /**
   * A valid body creates exactly one row, under an id larger than any issued before;
   * the answer carries the submitted fields, a later get returns the same object, and
   * the listing gains that one object at its end.
   */
  lemma AddCreates(db: Db, body: Body)
    requires WellFormed(db) && db.dbExists && HasNameAndColor(body)
    ensures var o := Add(db, body);
      && o.response.LanguageCreated?
      && Status(o.response) == 201
      && o.response.language.name == body.value["name"]
      && o.response.language.color == body.value["color"]
      && o.response.language.id > db.lastId
      && (forall id :: id in db.rows ==> id < o.response.language.id)
      && Get(o.db, o.response.language.id) == LanguageFound(o.response.language)
      && Listing(o.db) == Listing(db) + [o.response.language]
  {
  }

  /** A column of the `languages` table that `update_language` can set. */
  datatype Column = NameColumn | ColorColumn

  /** The row after `UPDATE ... SET` with the given columns and values. */
  function Assign(row: Row, columns: seq<Column>, values: seq<string>): Row
    requires |columns| == |values|
    decreases |columns|
  {
    if columns == [] then row
    else
      var r := if columns[0] == NameColumn then row.(name := values[0]) else row.(color := values[0]);
      Assign(r, columns[1..], values[1..])
  }

  /** The partial merge the update handler promises: fields present in the body win. */
  function Merge(row: Row, fields: map<string, string>): Row {
    Row(if "name" in fields then fields["name"] else row.name,
        if "color" in fields then fields["color"] else row.color)
  }

  /**
   * How a fetched row is handed back: the row factory the connection had when the
   * cursor was opened. `dict()` of a named row is the record; of a plain
   * (id, name, color) tuple it raises TypeError, since an int is not a key/value pair.
   */
  datatype RowShape = PlainTuple | NamedColumns

  function DictOf(shape: RowShape, l: Language): Option<Language> {
    if shape == NamedColumns then Some(l) else None
  }

  /**
   * `update_language`, parameterised by the shape of the re-read row: 400 on a falsy
   * body, before anything else; 404 on an unknown id; otherwise the SET of whichever of
   * `name` and `color` the body holds, if any, and the re-read row.
   */
  function UpdateWith(shape: RowShape, db: Db, id: int, body: Body): (o: Outcome)
    requires WellFormed(db) && db.dbExists
    ensures WellFormed(o.db) && o.db.dbExists
    ensures o.db.lastId == db.lastId && o.db.rows.Keys == db.rows.Keys
  {
    if !Truthy(body) then Outcome(db, BadRequest(NoDataMessage))
    else if id !in db.rows then Outcome(db, NotFound(NotFoundMessage))
    else
      var data := body.value;
      var d := if "name" in data || "color" in data
        then db.(rows := db.rows[id := Merge(db.rows[id], data)])
        else db;
      match DictOf(shape, Entry(d, id))
      case Some(l) => Outcome(d, LanguageFound(l))
      case None => Outcome(d, ServerError)
  }

  /** The update handler as intended: the re-read row is returned as a JSON object. */
  function Update(db: Db, id: int, body: Body): (o: Outcome)
    requires WellFormed(db) && db.dbExists
    ensures WellFormed(o.db) && o.db.dbExists
    ensures o.db.lastId == db.lastId && o.db.rows.Keys == db.rows.Keys
  {
    UpdateWith(NamedColumns, db, id, body)
  }

  /**
   * The update handler as written: its cursor is opened before `row_factory` is set,
   * so the re-read row is a plain tuple.
   */
  function UpdateAsWritten(db: Db, id: int, body: Body): (o: Outcome)
    requires WellFormed(db) && db.dbExists
    ensures WellFormed(o.db) && o.db.dbExists
    ensures o.db.lastId == db.lastId && o.db.rows.Keys == db.rows.Keys
  {
    UpdateWith(PlainTuple, db, id, body)
  }

  /** An empty or missing body is refused with 400 whether or not the id exists. */
  lemma UpdateNeedsData(db: Db, id: int, body: Body)
    requires WellFormed(db) && db.dbExists && !Truthy(body)
    ensures Update(db, id, body) == Outcome(db, BadRequest(NoDataMessage))
    ensures Status(Update(db, id, body).response) == 400
  {
  }

  /** A non-empty body for an unknown id is answered 404 and changes nothing. */
  lemma UpdateUnknownId(db: Db, id: int, body: Body)
    requires WellFormed(db) && db.dbExists && Truthy(body) && id !in db.rows
    ensures Update(db, id, body) == Outcome(db, NotFound(NotFoundMessage))
  {
  }

  /**
   * On an existing id, exactly the `name` and `color` fields the body holds are
   * overwritten; every other row, the scan order and the counter are unchanged, and
   * the answer is what a get of that id now returns.
   */
  lemma UpdateMerges(db: Db, id: int, body: Body)
    requires WellFormed(db) && db.dbExists && Truthy(body) && id in db.rows
    ensures var o := Update(db, id, body);
      && o.db.order == db.order && o.db.lastId == db.lastId
      && o.db.rows.Keys == db.rows.Keys
      && (forall other :: other in db.rows && other != id ==> o.db.rows[other] == db.rows[other])
      && o.db.rows[id].name == (if "name" in body.value then body.value["name"] else db.rows[id].name)
      && o.db.rows[id].color == (if "color" in body.value then body.value["color"] else db.rows[id].color)
      && o.response == Get(o.db, id)
  {
  }

  /** A body with neither `name` nor `color` changes nothing, yet answers with the current row. */
  lemma UpdateOtherKeysOnly(db: Db, id: int, body: Body)
    requires WellFormed(db) && db.dbExists && Truthy(body) && id in db.rows
    requires "name" !in body.value && "color" !in body.value
    ensures Update(db, id, body) == Outcome(db, Get(db, id))
  {
  }

  /** The SET clause built from the body's `name` and `color` keys performs the merge. */
  lemma AssignMerges(row: Row, fields: map<string, string>, columns: seq<Column>, values: seq<string>)
    requires columns == (if "name" in fields then [NameColumn] else []) + (if "color" in fields then [ColorColumn] else [])
    requires values == (if "name" in fields then [fields["name"]] else []) + (if "color" in fields then [fields["color"]] else [])
    ensures Assign(row, columns, values) == Merge(row, fields)
  {
    var named := if "name" in fields then row.(name := fields["name"]) else row;
    if "name" in fields {
      assert columns[1..] == if "color" in fields then [ColorColumn] else [];
      assert values[1..] == if "color" in fields then [fields["color"]] else [];
      assert Assign(row, columns, values) == Assign(named, columns[1..], values[1..]);
    }
    var cols := if "color" in fields then [ColorColumn] else [];
    var vals := if "color" in fields then [fields["color"]] else [];
    if "color" in fields {
      assert Assign(named, cols, vals) == Assign(named.(color := fields["color"]), [], []);
    }
    assert Assign(named, cols, vals) == Merge(row, fields);
  }

  /**
   * The update as written never returns the record: it answers 500, although the new
   * field values are already stored.
   */
  lemma UpdateAsWrittenFails(db: Db, id: int, body: Body)
    requires WellFormed(db) && db.dbExists && Truthy(body) && id in db.rows
    ensures UpdateAsWritten(db, id, body).response == ServerError
    ensures UpdateAsWritten(db, id, body).db == Update(db, id, body).db
    ensures Update(db, id, body).response.LanguageFound?
  {
  }

  /**
   * Only the answer differs: on every request the update as written leaves the same
   * table as the corrected one, so what holds of the table after any request sequence
   * holds of the program as written too.
   */
  lemma UpdateAsWrittenSameTable(db: Db, id: int, body: Body)
    requires WellFormed(db) && db.dbExists
    ensures UpdateAsWritten(db, id, body).db == Update(db, id, body).db
  {
  }

  /** The smallest input showing it: on the seeded table, `{"color": "000000"}` for id 1. */
  lemma UpdateAsWrittenCounterexample()
    ensures var db := Init(Missing);
      var o := UpdateAsWritten(db, 1, Some(map["color" := "000000"]));
      && Status(o.response) == 500
      && Get(o.db, 1) == LanguageFound(Language(1, "Python", "000000"))
  {
    InitSeeds(Missing);
    var db := Init(Missing);
    var body: Body := Some(map["color" := "000000"]);
    assert Listing(db)[0] == Language(1, "Python", "4F75A1");
    ListingExact(db, Language(1, "Python", "4F75A1"));
    assert 1 in db.rows && db.rows[1] == Row("Python", "4F75A1");
    assert Truthy(body) by { assert "color" in body.value; }
    assert Merge(db.rows[1], body.value) == Row("Python", "000000");
  }

  /** Drops `x` from a sequence of ids, keeping the order of the rest. */
  function Without(s: seq<int>, x: int): (r: seq<int>)
    ensures forall y :: y in r <==> y in s && y != x
  {
    if s == [] then []
    else if s[0] == x then Without(s[1..], x)
    else [s[0]] + Without(s[1..], x)
  }

  lemma {:induction false} WithoutIncreasing(s: seq<int>, x: int)
    requires Increasing(s)
    ensures Increasing(Without(s, x))
  {
    if s != [] {
      var tail := s[1..];
      assert Increasing(tail) by {
        forall i, j | 0 <= i < j < |tail| ensures tail[i] < tail[j] {
          assert tail[i] == s[i + 1] && tail[j] == s[j + 1];
        }
      }
      WithoutIncreasing(tail, x);
      if s[0] != x {
        var r := Without(s, x);
        var w := Without(tail, x);
        assert r == [s[0]] + w;
        forall i, j | 0 <= i < j < |r| ensures r[i] < r[j] {
          if i == 0 {
            assert r[j] == w[j - 1];
            assert w[j - 1] in w;
            var k :| 0 <= k < |tail| && tail[k] == w[j - 1];
            assert s[k + 1] == r[j];
          } else {
            assert r[i] == w[i - 1] && r[j] == w[j - 1];
          }
        }
      }
    }
  }

  lemma {:induction false} WithoutLength(s: seq<int>, x: int)
    requires Increasing(s) && x in s
    ensures |Without(s, x)| == |s| - 1
  {
    var tail := s[1..];
    assert Increasing(tail) by {
      forall i, j | 0 <= i < j < |tail| ensures tail[i] < tail[j] {
        assert tail[i] == s[i + 1] && tail[j] == s[j + 1];
      }
    }
    if s[0] == x {
      forall k | 0 <= k < |tail| ensures tail[k] != x {
        assert tail[k] == s[k + 1];
      }
      WithoutAbsent(tail, x);
    } else {
      assert x in tail;
      WithoutLength(tail, x);
    }
  }

  lemma {:induction false} WithoutAbsent(s: seq<int>, x: int)
    requires x !in s
    ensures Without(s, x) == s
  {
    if s != [] {
      assert s[0] != x;
      assert x !in s[1..];
      WithoutAbsent(s[1..], x);
      assert s == [s[0]] + s[1..];
    }
  }

  /** `delete_language`: 404 on an unknown id; otherwise remove that one row. */
  function Delete(db: Db, id: int): (o: Outcome)
    requires WellFormed(db) && db.dbExists
    ensures WellFormed(o.db) && o.db.dbExists
    ensures o.db.lastId == db.lastId && o.db.rows.Keys == db.rows.Keys - {id}
  {
    if id !in db.rows then Outcome(db, NotFound(NotFoundMessage))
    else
      WithoutIncreasing(db.order, id);
      Outcome(Db(true, db.rows - {id}, Without(db.order, id), db.lastId), LanguageDeleted(DeletedMessage))
  }

  /**
   * Deleting an existing id removes that row and no other: a get of it is now 404,
   * a get of any other id answers as before, and the listing loses exactly that entry.
   */
  lemma DeleteRemovesOne(db: Db, id: int)
    requires WellFormed(db) && db.dbExists && id in db.rows
    ensures var o := Delete(db, id);
      && o.response == LanguageDeleted(DeletedMessage)
      && Get(o.db, id) == NotFound(NotFoundMessage)
      && (forall other :: other != id ==> Get(o.db, other) == Get(db, other))
      && |Listing(o.db)| == |Listing(db)| - 1
      && (forall l :: l in Listing(o.db) <==> l in Listing(db) && l.id != id)
  {
    var o := Delete(db, id);
    WithoutLength(db.order, id);
    forall l ensures l in Listing(o.db) <==> l in Listing(db) && l.id != id {
      ListingExact(o.db, l);
      ListingExact(db, l);
    }
  }

  /** A second delete of the same id is answered 404. */
  lemma DeleteTwice(db: Db, id: int)
    requires WellFormed(db) && db.dbExists && id in db.rows
    ensures Delete(Delete(db, id).db, id) == Outcome(Delete(db, id).db, NotFound(NotFoundMessage))
  {
  }

  /** A create issues an id above the counter, so never one at or below it. */
  lemma CreateNeverReissues(db: Db, id: int, body: Body)
    requires WellFormed(db) && db.dbExists && id <= db.lastId && HasNameAndColor(body)
    ensures Add(db, body).response.LanguageCreated? && Add(db, body).response.language.id > id
  {
  }

  /** Deleting a row leaves its id at or below the counter, and out of the table. */
  lemma DeleteKeepsCounter(db: Db, id: int)
    requires WellFormed(db) && db.dbExists && id in db.rows
    ensures id <= Delete(db, id).db.lastId && id !in Delete(db, id).db.rows
  {
  }

  /** A request to one of the five handlers. */
  datatype Request =
    | ListRequest
    | GetRequest(id: int)
    | AddRequest(body: Body)
    | UpdateRequest(id: int, body: Body)
    | DeleteRequest(id: int)

  /** Routing: the handler that serves a request. */
  function Handle(db: Db, r: Request): (o: Outcome)
    requires WellFormed(db) && db.dbExists
    ensures WellFormed(o.db) && o.db.dbExists
    ensures o.db.lastId >= db.lastId
    ensures forall id :: id in o.db.rows && id !in db.rows ==> id > db.lastId
  {
    match r
    case ListRequest => Outcome(db, LanguageList(Listing(db)))
    case GetRequest(id) => Outcome(db, Get(db, id))
    case AddRequest(body) => Add(db, body)
    case UpdateRequest(id, body) => Update(db, id, body)
    case DeleteRequest(id) => Delete(db, id)
  }

  /** Requests served one after another: the final table and the answers, in order. */
  function Serve(db: Db, rs: seq<Request>): (o: (Db, seq<Response>))
    requires WellFormed(db) && db.dbExists
    ensures WellFormed(o.0) && o.0.dbExists
    ensures o.0.lastId >= db.lastId && |o.1| == |rs|
    decreases |rs|
  {
    if rs == [] then (db, [])
    else
      var first := Handle(db, rs[0]);
      var rest := Serve(first.db, rs[1..]);
      (rest.0, [first.response] + rest.1)
  }

  /**
   * An id at or below the counter that is not in the table is never created again:
   * across any sequence of later requests no create answers with it, and it never
   * reappears in the table.
   */
  lemma {:induction false} RetiredIdStaysRetired(db: Db, rs: seq<Request>, id: int)
    requires WellFormed(db) && db.dbExists && id <= db.lastId && id !in db.rows
    ensures id !in Serve(db, rs).0.rows
    ensures forall k :: 0 <= k < |rs| && Serve(db, rs).1[k].LanguageCreated? ==> Serve(db, rs).1[k].language.id != id
    decreases |rs|
  {
    if rs != [] {
      var first := Handle(db, rs[0]);
      RetiredIdStaysRetired(first.db, rs[1..], id);
      var served := Serve(db, rs);
      var rest := Serve(first.db, rs[1..]);
      assert served.1 == [first.response] + rest.1;
      if rs[0].AddRequest? && HasNameAndColor(rs[0].body) {
        CreateNeverReissues(db, id, rs[0].body);
      }
      forall k | 0 <= k < |rs| && served.1[k].LanguageCreated?
        ensures served.1[k].language.id != id
      {
        if k > 0 {
          assert served.1[k] == rest.1[k - 1];
        }
      }
    }
  }

  /** Once deleted, an id is never handed out again, whatever requests follow. */
  lemma DeletedIdNotReissued(db: Db, id: int, rs: seq<Request>)
    requires WellFormed(db) && db.dbExists && id in db.rows
    ensures var served := Serve(Delete(db, id).db, rs);
      && id !in served.0.rows
      && forall k :: 0 <= k < |rs| && served.1[k].LanguageCreated? ==> served.1[k].language.id != id
  {
    DeleteKeepsCounter(db, id);
    RetiredIdStaysRetired(Delete(db, id).db, rs, id);
  }

  /** Get, update and delete all answer an unknown id with the same 404 and change nothing. */
  lemma UnknownIdNotFound(db: Db, id: int, body: Body)
    requires WellFormed(db) && db.dbExists && id !in db.rows && Truthy(body)
    ensures Get(db, id) == NotFound(NotFoundMessage)
    ensures Update(db, id, body) == Outcome(db, NotFound(NotFoundMessage))
    ensures Delete(db, id) == Outcome(db, NotFound(NotFoundMessage))
    ensures Status(Get(db, id)) == 404
  {
  }
}
