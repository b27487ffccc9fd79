/**
 * The Thing entity: a Serial `id`, a required `name` and an optional `status`,
 * stored in a table keyed by id.
 */
module Things {
  import opened Wrappers

  datatype Thing = Thing(id: int, name: Option<string>, status: Option<string>)

  /** The two request fields a client may set. */
  const NAME := "name"
  const STATUS := "status"

  /** The key field, named in validation errors. */
  const ID := "id"

  /** A table in a state the store can reach: positive ids, each row under its own id, every row named. */
  predicate WellFormed(table: map<int, Thing>) {
    forall id :: id in table ==> id > 0 && table[id].id == id && table[id].name.Some?
  }

  /** The fields whose validation fails when `t` is saved: a missing `name`, or a key below 1. */
  function Errors(t: Thing): (e: set<string>)
    ensures e <= {NAME, ID}
  {
    (if t.name.None? then {NAME} else {}) + (if t.id < 1 then {ID} else {})
  }

  /** `thing.attributes.merge(fields)`: a supplied `name` or `status` replaces the old value. */
  function Merge(t: Thing, fields: map<string, string>): (r: Thing)
    ensures r.id == t.id
    ensures NAME in fields ==> r.name == Some(fields[NAME])
    ensures NAME !in fields ==> r.name == t.name
    ensures STATUS in fields ==> r.status == Some(fields[STATUS])
    ensures STATUS !in fields ==> r.status == t.status
  {
    t.(name := if NAME in fields then Some(fields[NAME]) else t.name,
       status := if STATUS in fields then Some(fields[STATUS]) else t.status)
  }

  /** A Thing passes validation exactly when it can be a row of a well-formed table. */
  lemma ValidRowIsStorable(table: map<int, Thing>, t: Thing)
    requires WellFormed(table)
    ensures Errors(t) == {} <==> WellFormed(table[t.id := t])
  {
    if WellFormed(table[t.id := t]) {
      assert t.id in table[t.id := t];
    }
  }
}
