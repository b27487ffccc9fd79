/**
 * The `ThingResource` handler: one method per route over an in-memory Thing
 * table, each returning the response the route sends (code, structured body,
 * optional `Location` header). The helpers `json_status` and
 * `accept_params` come first.
 */
module Resource {
  import opened Wrappers
  import opened Numerals
  import opened Validations
  import opened Things

  /** What the error envelope's `reason` holds: a message, or the fields that failed validation. */
  datatype Reason = Message(text: string) | FieldErrors(fields: set<string>)

  /** The `{status, reason}` error envelope. */
  datatype Envelope = Envelope(status: int, reason: Reason)

  datatype Body =
    | NoBody
    | One(thing: Thing)
    | Many(things: seq<Thing>)
    | Error(envelope: Envelope)

  datatype Response = Response(code: int, body: Body, location: Option<string>)

  /** Request parameters: a present key always has a (string) value. */
  type Params = map<string, string>

  /** `json_status(code, reason)`: sets the response code and builds an envelope carrying that same code. */
  function JsonStatus(code: int, reason: Reason): (r: Response)
    ensures r.code == code && r.location == None
    ensures r.body.Error? && r.body.envelope.status == r.code && r.body.envelope.reason == reason
  {
    Response(code, Error(Envelope(code, reason)), None)
  }

  const NOT_FOUND := JsonStatus(404, Message("Not found"))

  /** `accept_params(params, *fields)`: keeps exactly the requested fields that have a value, unchanged. */
  method AcceptParams(params: Params, fields: seq<string>) returns (h: map<string, string>)
    ensures forall k :: k in h <==> k in fields && k in params
    ensures forall k :: k in h ==> h[k] == params[k]
  {
    h := map[];
    for i := 0 to |fields|
      invariant forall k :: k in h <==> k in fields[..i] && k in params
      invariant forall k :: k in h ==> h[k] == params[k]
    {
      var name := fields[i];
      if name in params {
        h := h[name := params[name]];
      }
    }
    assert fields[..|fields|] == fields;
  }

  lemma {:induction false} HasLeast(keys: set<int>)
    requires |keys| > 0
    ensures exists m :: m in keys && forall k :: k in keys ==> m <= k
    decreases keys
  {
    var x :| x in keys;
    if keys == {x} {
      assert forall k :: k in keys ==> x <= k;
    } else {
      var rest := keys - {x};
      assert rest != {} by {
        var y :| y in keys && y != x;
        assert y in rest;
      }
      HasLeast(rest);
      var m :| m in rest && forall k :: k in rest ==> m <= k;
      var least := if x < m then x else m;
      forall k | k in keys
        ensures least <= k
      {
        if k != x {
          assert k in rest;
        }
      }
      assert least in keys;
    }
  }

  function LeastKey(keys: set<int>): (m: int)
    requires keys != {}
    ensures m in keys && forall k :: k in keys ==> m <= k
  {
    HasLeast(keys);
    var m :| m in keys && forall k :: k in keys ==> m <= k;
    m
  }

  /** The rows of `table` are sorted by id, each listed under its own id. */
  ghost predicate ListsInOrder(table: map<int, Thing>, things: seq<Thing>) {
    && (forall i :: 0 <= i < |things| ==> things[i].id in table && table[things[i].id] == things[i])
    && (forall i, j :: 0 <= i < j < |things| ==> things[i].id < things[j].id)
  }

  /** The row with the least id, put in front of the other rows in order, lists the whole table in order. */
  lemma PrependLeast(table: map<int, Thing>, m: int, rest: seq<Thing>)
    requires WellFormed(table) && m in table && forall k :: k in table ==> m <= k
    requires ListsInOrder(table - {m}, rest)
    ensures ListsInOrder(table, [table[m]] + rest)
  {
  }

  /** Every row of the table once, in ascending id order: the order in which the store lists rows by default. */
  function RowsInOrder(table: map<int, Thing>): (things: seq<Thing>)
    requires WellFormed(table)
    ensures |things| == |table|
    ensures ListsInOrder(table, things)
    ensures forall id :: id in table ==> table[id] in things
    decreases |table|
  {
    if table == map[] then []
    else
      var m := LeastKey(table.Keys);
      var others := table - {m};
      assert others.Keys == table.Keys - {m};
      var rest := RowsInOrder(others);
      PrependLeast(table, m, rest);
      assert forall id :: id in table && id != m ==> id in others && others[id] == table[id];
      [table[m]] + rest
  }

  /** However large the table, some positive id is unused, so the store can always allocate one. */
  lemma FreshIdExists(table: map<int, Thing>)
    requires WellFormed(table)
    ensures exists id :: id > 0 && id !in table
  {
    var rows := RowsInOrder(table);
    var id := if rows == [] then 1 else rows[|rows| - 1].id + 1;
    forall k | k in table
      ensures k < id
    {
      var i :| 0 <= i < |rows| && rows[i] == table[k];
      assert i < |rows| - 1 ==> rows[i].id < rows[|rows| - 1].id;
    }
    assert id > 0 && id !in table;
  }

  const THING_PATH := "/thing/"

  /** The `Location` of a Thing: "/thing/" followed by its id in decimal. */
  function ThingPath(id: nat): (path: string)
    ensures |path| > |THING_PATH| && path[..|THING_PATH|] == THING_PATH
  {
    THING_PATH + NatToDecimal(id)
  }

  /** The id segment of a `Location` passes `valid_id?` and reads back, with `to_i`, as the same id. */
  lemma ThingPathIdentifies(id: int)
    requires id > 0
    ensures var segment := ThingPath(id)[|THING_PATH|..];
      segment == NatToDecimal(id) && ValidId(Some(segment)) && ToI(segment) == id
  {
    var segment := NatToDecimal(id);
    assert ThingPath(id)[|THING_PATH|..] == segment;
    ValidIdSingleLine(segment);
    ToIOfDigits(segment);
    DecimalOfNatToDecimal(id);
  }

  /** A plain digit string is a valid id and names the row its decimal value keys. */
  lemma DigitIdNamesRow(id: string)
    requires id != [] && AllDigits(id)
    ensures ValidId(Some(id)) && ToI(id) == DecimalValue(id)
  {
    ValidIdSingleLine(id);
    ToIOfDigits(id);
  }

  class ThingResource {
    var table: map<int, Thing>

    ghost predicate Valid()
      reads this
    {
      WellFormed(table)
    }

    /** A fresh, empty store. */
    constructor ()
      ensures Valid() && table == map[]
    {
      table := map[];
    }

    /** GET /thing: every row exactly once, in ascending id order; nothing changes. */
    method List() returns (resp: Response)
      requires Valid()
      ensures resp.code == 200 && resp.location == None && resp.body.Many?
      ensures var things := resp.body.things;
        && |things| == |table|
        && ListsInOrder(table, things)
        && (forall id :: id in table ==> table[id] in things)
    {
      resp := Response(200, Many(RowsInOrder(table)), None);
    }

    /** GET /thing/:id: the row `to_i(id)` when `id` passes `valid_id?`, otherwise 404; nothing changes. */
    method Get(id: string) returns (resp: Response)
      requires Valid()
      ensures ValidId(Some(id)) && ToI(id) in table ==> resp == Response(200, One(table[ToI(id)]), None)
      ensures !ValidId(Some(id)) || ToI(id) !in table ==> resp == NOT_FOUND
      ensures id != [] && AllDigits(id) ==>
        if DecimalValue(id) in table then resp == Response(200, One(table[DecimalValue(id)]), None)
        else resp == NOT_FOUND
    {
      if ValidId(Some(id)) {
        var n := ToI(id);
        if n in table {
          resp := Response(200, One(table[n]), None);
        } else {
          resp := NOT_FOUND;
        }
      } else {
        resp := NOT_FOUND;
      }
      if id != [] && AllDigits(id) {
        DigitIdNamesRow(id);
      }
    }

    /**
     * POST /thing: with a `name`, 201, a new row under an unused id holding
     * the accepted `name` and `status`, and `Location` naming it; without
     * one, 400 and no change.
     */
    method Create(params: Params) returns (resp: Response)
      requires Valid()
      modifies this
      ensures Valid()
      ensures NAME in params ==>
        && resp.code == 201 && resp.body.One?
        && var t := resp.body.thing;
        && t.id > 0 && t.id !in old(table)
        && t.name == Some(params[NAME])
        && t.status == (if STATUS in params then Some(params[STATUS]) else None)
        && table == old(table)[t.id := t]
        && resp.location == Some(ThingPath(t.id))
      ensures NAME !in params ==> resp == JsonStatus(400, FieldErrors({NAME})) && table == old(table)
    {
      var fields := AcceptParams(params, [NAME, STATUS]);
      // the id the store's Serial key would give the row
      FreshIdExists(table);
      var id :| id > 0 && id !in table;
      var thing := Merge(Thing(id, None, None), fields);
      if Errors(thing) == {} {
        table := table[id := thing];
        resp := Response(201, One(thing), Some(ThingPath(id)));
      } else {
        resp := JsonStatus(400, FieldErrors(Errors(thing)));
      }
    }

    /**
     * PUT or POST /thing/:id/status/:status: an existing row gets the new
     * `status` and keeps its `name`; every other row is untouched. An
     * invalid or unknown id gives 404 and creates nothing.
     */
    method SetStatus(id: string, status: string) returns (resp: Response)
      requires Valid()
      modifies this
      ensures Valid()
      ensures ValidId(Some(id)) && ToI(id) in old(table) ==>
        var n := ToI(id);
        var t := old(table)[n].(status := Some(status));
        resp == Response(200, One(t), None) && table == old(table)[n := t]
      ensures !(ValidId(Some(id)) && ToI(id) in old(table)) ==> resp == NOT_FOUND && table == old(table)
    {
      if ValidId(Some(id)) {
        var n := ToI(id);
        if n in table {
          var thing := table[n].(status := Some(status));
          if Errors(thing) == {} {
            table := table[n := thing];
            resp := Response(200, One(thing), None);
          } else {
            resp := JsonStatus(400, FieldErrors(Errors(thing)));
          }
        } else {
          resp := NOT_FOUND;
        }
      } else {
        resp := NOT_FOUND;
      }
    }

    /**
     * PUT /thing/:id: for a valid id, the row there (or a new one at that
     * id) takes the supplied `name`/`status` over its old values and is
     * saved when it then has a name; 400 otherwise. An invalid id gives 404.
     */
    method Put(id: string, params: Params) returns (resp: Response)
      requires Valid()
      modifies this
      ensures Valid()
      ensures !ValidId(Some(id)) ==> resp == NOT_FOUND && table == old(table)
      ensures ValidId(Some(id)) ==>
        var n := ToI(id);
        var before := if n in old(table) then old(table)[n] else Thing(n, None, None);
        var after := Thing(n, if NAME in params then Some(params[NAME]) else before.name,
                              if STATUS in params then Some(params[STATUS]) else before.status);
        if n > 0 && after.name.Some? then
          resp == Response(200, One(after), None) && table == old(table)[n := after]
        else
          resp == JsonStatus(400, FieldErrors(Errors(after))) && table == old(table)
      ensures ValidId(Some(id)) && ToI(id) in old(table) ==> resp.code == 200
      ensures ValidId(Some(id)) && ToI(id) !in old(table) && NAME !in params ==>
        resp.code == 400 && table == old(table)
    {
      var fields := AcceptParams(params, [NAME, STATUS]);
      if ValidId(Some(id)) {
        var n := ToI(id);
        // `first_or_create`: the stored row, or a new one at that id whose
        // own save fails for want of a name and so stores nothing
        var thing := if n in table then table[n] else Thing(n, None, None);
        thing := Merge(thing, fields);
        if Errors(thing) == {} {
          table := table[n := thing];
          resp := Response(200, One(thing), None);
        } else {
          resp := JsonStatus(400, FieldErrors(Errors(thing)));
        }
      } else {
        resp := NOT_FOUND;
      }
    }

    /**
     * DELETE /thing/:id: the id is read with `to_i` alone (no `valid_id?`).
     * A present row is removed, with 204 and no body; otherwise 404.
     */
    method Delete(id: string) returns (resp: Response)
      requires Valid()
      modifies this
      ensures Valid()
      ensures ToI(id) in old(table) ==>
        resp == Response(204, NoBody, None) && table == old(table) - {ToI(id)}
      ensures ToI(id) !in old(table) ==> resp == NOT_FOUND && table == old(table)
    {
      var n := ToI(id);
      if n in table {
        table := table - {n};
        resp := Response(204, NoBody, None);
      } else {
        resp := NOT_FOUND;
      }
    }
  }

  /**
   * The same DELETE twice: the table ends as after a single DELETE (the side
   * effect is idempotent) but the second response is 404.
   */
  method DeleteTwice(r: ThingResource, id: string) returns (first: Response, second: Response)
    requires r.Valid()
    modifies r
    ensures r.Valid() && r.table == old(r.table) - {ToI(id)}
    ensures first.code == (if ToI(id) in old(r.table) then 204 else 404)
    ensures second == NOT_FOUND
  {
    first := r.Delete(id);
    second := r.Delete(id);
  }

  /** GET on the id segment of a created Thing's `Location` returns that Thing. */
  method CreateThenGet(r: ThingResource, params: Params) returns (created: Response, fetched: Response)
    requires r.Valid() && NAME in params
    modifies r
    ensures r.Valid() && created.code == 201 && created.body.One? && created.location.Some?
    ensures var location := created.location.value;
      && |THING_PATH| <= |location| && location[..|THING_PATH|] == THING_PATH
      && fetched == Response(200, One(created.body.thing), None)
  {
    created := r.Create(params);
    var t := created.body.thing;
    var segment := created.location.value[|THING_PATH|..];
    ThingPathIdentifies(t.id);
    fetched := r.Get(segment);
  }

  /** Create "widget", read it back, mark it done, delete it, and find it gone. */
  method WidgetScenario() {
    var r := new ThingResource();
    var created := r.Create(map[NAME := "widget"]);
    var t := created.body.thing;
    assert created.code == 201 && t.name == Some("widget") && t.status == None;
    var segment := NatToDecimal(t.id);
    ThingPathIdentifies(t.id);
    assert created.location == Some(THING_PATH + segment);
    var got := r.Get(segment);
    assert got == Response(200, One(t), None);
    var updated := r.SetStatus(segment, "done");
    assert updated == Response(200, One(t.(status := Some("done"))), None);
    var deleted := r.Delete(segment);
    assert deleted == Response(204, NoBody, None) && r.table == map[];
    var gone := r.Get(segment);
    assert gone.code == 404 && gone.body.envelope == Envelope(404, Message("Not found"));
  }
}
