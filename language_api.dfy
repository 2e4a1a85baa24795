/**
 * The Flask service's store and its five request handlers, as an object whose fields
 * the handlers update in place. Every handler is proved to leave the store, and to
 * answer, exactly as the matching transition of `LanguageTable` says.
 */
module LanguageApi {
  import opened Optional
  import opened LanguageTable

  class LanguageStore {
    var dbExists: bool
    var rows: map<int, Row>
    var order: seq<int>
    var lastId: nat

    /** The store's contents as a value. */
    function State(): Db
      reads this
    {
      Db(dbExists, rows, order, lastId)
    }

    ghost predicate Valid()
      reads this
    {
      WellFormed(State())
    }

    /** A process started in a directory without `languages.db`. */
    constructor ()
      ensures Valid() && State() == Missing
    {
      dbExists, rows, order, lastId := false, map[], [], 0;
    }

    /** `init_db`: create and seed the table only when there is no database file. */
    method InitDb()
      requires Valid()
      modifies this
      ensures Valid() && State() == Init(old(State()))
    {
      if !dbExists {
        dbExists, rows, order, lastId := true, map[], [], 0;
        var i := 0;
        while i < |SeedData|
          invariant 0 <= i <= |SeedData|
          invariant Valid() && dbExists
          invariant State() == InsertAll(EmptyTable, SeedData[..i])
        {
          assert SeedData[..i + 1][..i] == SeedData[..i];
          var _ := Insert(SeedData[i]);
          i := i + 1;
        }
        assert SeedData[..i] == SeedData;
      }
    }

    /** One INSERT: the row goes under the next AUTOINCREMENT id, which is returned. */
    method Insert(row: Row) returns (id: int)
      requires Valid() && dbExists
      modifies this
      ensures Valid() && State() == InsertRow(old(State()), row)
      ensures id == lastId
    {
      ghost var before := State();
      lastId := lastId + 1;
      id := lastId;
      rows := rows[id := row];
      order := order + [id];
      assert State() == InsertRow(before, row);
    }

    /** `get_languages`: every row, in scan order. */
    method GetLanguages() returns (resp: Response)
      requires Valid() && dbExists
      ensures resp == LanguageList(Listing(State()))
    {
      var languages: seq<Language> := [];
      var i := 0;
      while i < |order|
        invariant 0 <= i <= |order|
        invariant languages == Listing(State())[..i]
      {
        assert order[i] in order;
        languages := languages + [Entry(State(), order[i])];
        i := i + 1;
      }
      resp := LanguageList(languages);
    }

    /** `get_language`: the row with that id, or 404. */
    method GetLanguage(id: int) returns (resp: Response)
      requires Valid() && dbExists
      ensures resp == Get(State(), id)
    {
      if id in rows {
        resp := LanguageFound(Entry(State(), id));
      } else {
        resp := NotFound(NotFoundMessage);
      }
    }

    /** `add_language`: 400 unless the body has `name` and `color`; else insert and answer 201. */
    method AddLanguage(body: Body) returns (resp: Response)
      requires Valid() && dbExists
      modifies this
      ensures Valid() && Outcome(State(), resp) == Add(old(State()), body)
    {
      if body.None? || body.value == map[] || "name" !in body.value || "color" !in body.value {
        return BadRequest(RequiredMessage);
      }
      var data := body.value;
      var id := Insert(Row(data["name"], data["color"]));
      resp := LanguageCreated(Language(id, data["name"], data["color"]));
    }

    /**
     * `update_language`: 400 on a falsy body before the existence check, then 404 on an
     * unknown id; otherwise it collects the `name` and `color` assignments the body
     * asks for, runs the UPDATE when there is at least one, and answers with the row.
     */
    method UpdateLanguage(id: int, body: Body) returns (resp: Response)
      requires Valid() && dbExists
      modifies this
      ensures Valid() && Outcome(State(), resp) == Update(old(State()), id, body)
    {
      if body.None? || body.value == map[] {
        return BadRequest(NoDataMessage);
      }
      if id !in rows {
        return NotFound(NotFoundMessage);
      }
      var data := body.value;
      var updates: seq<Column> := [];
      var values: seq<string> := [];
      if "name" in data {
        updates := updates + [NameColumn];
        values := values + [data["name"]];
      }
      if "color" in data {
        updates := updates + [ColorColumn];
        values := values + [data["color"]];
      }
      if updates != [] {
        AssignMerges(rows[id], data, updates, values);
        rows := rows[id := Assign(rows[id], updates, values)];
      }
      resp := LanguageFound(Entry(State(), id));
    }

    /** `delete_language`: 404 on an unknown id; otherwise remove that row. */
    method DeleteLanguage(id: int) returns (resp: Response)
      requires Valid() && dbExists
      modifies this
      ensures Valid() && Outcome(State(), resp) == Delete(old(State()), id)
    {
      if id !in rows {
        return NotFound(NotFoundMessage);
      }
      WithoutIncreasing(order, id);
      rows := rows - {id};
      order := Without(order, id);
      resp := LanguageDeleted(DeletedMessage);
    }
  }

  /**
   * A client of the store: start without a database file, seed it, create a row, read
   * it back, update its colour, delete it twice. Every answer follows from the contracts
   * above and the lemmas of `LanguageTable`.
   */
  method Session() returns (created: Response, fetched: Response, updated: Response, deleted: Response, again: Response)
    ensures created.LanguageCreated? && created.language == Language(8, "Zig", "F7A41D")
    ensures fetched == LanguageFound(Language(8, "Zig", "F7A41D"))
    ensures updated == LanguageFound(Language(8, "Zig", "000000"))
    ensures deleted == LanguageDeleted(DeletedMessage)
    ensures again == NotFound(NotFoundMessage)
  {
    var store := new LanguageStore();
    store.InitDb();
    InitSeeds(Missing);
    var zig: Body := Some(map["name" := "Zig", "color" := "F7A41D"]);
    assert HasNameAndColor(zig) by { assert "name" in zig.value; }
    created := store.AddLanguage(zig);
    fetched := store.GetLanguage(8);
    var black: Body := Some(map["color" := "000000"]);
    assert Truthy(black) && "color" in black.value && "name" !in black.value;
    updated := store.UpdateLanguage(8, black);
    deleted := store.DeleteLanguage(8);
    again := store.DeleteLanguage(8);
  }
}
