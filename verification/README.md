# Thing resource handler — a Dafny model

This project models the core of a small REST API that manages one resource,
the *Thing*. A Thing has a Serial `id`, a required `name` and an optional
`status`. The model covers the `ThingResource` route handlers in `app.rb`
and the three helpers they use:

- `valid_id?`, the id guard;
- `json_status`, which builds the `{status, reason}` error envelope;
- `accept_params`, the field whitelist.

The relational store is replaced by an in-memory table: a `map<int, Thing>`
held in the field `table` of the class `Resource.ThingResource`. Each route
is a method of that class. It updates the table and returns a structured
response: an HTTP code, an optional body and an optional `Location` header.
The body is one Thing, a list of Things, or the error envelope.

Modules, one concept each:

- `Wrappers` (`wrappers.dfy`): `Option`, standing for Ruby's `nil` versus a present value.
- `Numerals` (`numerals.dfy`): Ruby's `String#to_i` and `Integer#to_s`. These decide which row an id path segment names and what the `Location` header holds.
- `Validations` (`validations.dfy`): `valid_id?`. The pattern `/^\d+$/` uses Ruby's *line* anchors, so the model splits the string into lines. A string passes when any one of its lines is a non-empty run of ASCII digits.
- `Things` (`things.dfy`): the Thing record, the invariant of a stored table, save-time validation, and the attribute merge done by `PUT`.
- `Resource` (`resource.dfy`): the response types, `json_status`, `accept_params`, the `ThingResource` class with one method per route, and three client methods. `DeleteTwice` and `CreateThenGet` chain routes. `WidgetScenario` walks through create, read, set status, delete and read again.

Behaviour a reader of the routes might not expect:

- `DELETE /thing/:id` never calls `valid_id?` (app.rb:189). It reads the id with `to_i`, which takes the leading digits, so `DELETE /thing/12a` targets thing 12, while GET and PUT answer 404 for the same id. `Numerals.ToIOfDigitsThen` states what `to_i` does with such an id. In the same way `DELETE /thing/1_000` targets thing 1000 (`Numerals.ToIOfGroupedNumeral`).
- `valid_id?` reads like "non-empty and only decimal digits". That holds exactly for an id without a newline (`Validations.ValidIdSingleLine`). A multi-line id such as `"abc\n12"` also passes (`Validations.ValidIdAcceptsLaterLine`).
- `GET /thing` has a 404 branch for "no collection" (app.rb:105-106). `Thing.all` always returns a collection, even an empty one, so `List` always answers 200.
- `PUT /thing/:id` has a 404 branch for when `first_or_create` yields nothing (app.rb:177-178). `first_or_create` always yields a resource, so it cannot be taken. For an id not in the table, the create attempt inside `first_or_create` fails validation because the record has no name. It stores nothing, and the merge and save that follow decide the outcome.

## Model

| member | source | states |
|---|---|---|
| `Validations.ValidId` | app.rb:33-35 | nil never passes; a string that passes is non-empty |
| `Validations.HasDigitLineMatches` | app.rb:34 | scanning line by line finds a digit line exactly when some anchored position pair matches `^\d+$` |
| `Validations.ValidIdIsAnchoredMatch` | app.rb:33-35 | `valid_id?` holds of a string exactly when `/^\d+$/` with line anchors matches somewhere in it |
| `Validations.ValidIdSingleLine` | app.rb:33-35 | for a string without '\n', `valid_id?` holds exactly when it is non-empty and all decimal digits |
| `Validations.ValidIdRejects` | app.rb:33-35 | nil, "", "abc" and "12a" are all rejected |
| `Validations.ValidIdAcceptsLaterLine` | app.rb:34 | "abc\n12" passes because its second line is all digits |
| `Numerals.NatToDecimal` | app.rb:134 | `"#{thing.id}"` is a non-empty digit string, with no leading zero unless the id is 0 |
| `Numerals.DecimalOfNatToDecimal` | app.rb:134 | reading the written id back as a decimal gives the id |
| `Numerals.NatToDecimalOfDecimal` | app.rb:134 | a digit string with no leading zero is exactly how its value is written (the other direction of the round trip) |
| `Numerals.ToI` | app.rb:116 | Ruby's `String#to_i`: skips leading white space, takes an optional sign, then digits with single underscores between them, and gives 0 when there are no digits. It has no contract of its own. `ToIOfNumeral` states the white space and sign rule, `ToIIgnoresUnderscore` the underscore rule, and `ToINeedsDigits` with `ToIWithoutDigits` the rule for no digits |
| `Numerals.SkipSpaceOf` | app.rb:189 | `to_i` skips exactly the leading run of white space: after white space `w`, scanning resumes at the first other character |
| `Numerals.LeadingDigitsAppend` | app.rb:189 | a run of digits followed by more digits is read as one run |
| `Numerals.LeadingDigitsUnderscore` | app.rb:189 | one '_' between two digits is dropped and the run goes on: the digits of `a_y…` are `a` followed by the digits of `y…` |
| `Numerals.ToIAfterSpace` | app.rb:189 | leading white space does not change what `to_i` reads |
| `Numerals.ToIOfSigned` | app.rb:189 | after no sign or '+', `to_i` is the value of the leading digits; after '-', its negation |
| `Numerals.ToIOfSignedDigits` | app.rb:189 | `to_i` of an optional sign and digits followed by neither a digit nor '_' is the signed value of the digits |
| `Numerals.ToIOfNumeral` | app.rb:189 | `to_i` of white space, an optional sign and digits followed by neither a digit nor '_' is the value of the digits, negated after '-' |
| `Numerals.ToIIgnoresUnderscore` | app.rb:189 | one '_' between two digits, after any white space and sign, does not change the value `to_i` gives |
| `Numerals.ToIOfSpacedNumeral` | app.rb:189 | " 12" reads as 12 |
| `Numerals.ToIOfNegativeNumeral` | app.rb:189 | "-12" reads as -12 |
| `Numerals.ToIOfThousand` | app.rb:189 | "1000" reads as 1000 |
| `Numerals.ToIOfGroupedNumeral` | app.rb:189 | "1_000" reads as 1000, so `DELETE /thing/1_000` targets thing 1000 |
| `Numerals.ToIStopsAtDoubleUnderscore` | app.rb:189 | "1__2" reads as 1: a second '_' ends the numeral |
| `Numerals.ToINeedsDigits` | app.rb:189 | `to_i` is non-zero only when a digit follows the leading white space, directly or after one sign, and negative only after a '-' |
| `Numerals.ToIOfDigitsThen` | app.rb:189 | `to_i` of digits followed by neither a digit nor '_' (e.g. "12abc") is the value of the digits |
| `Numerals.ToIOfDigits` | app.rb:116 | `to_i` of a digit string is its decimal value |
| `Numerals.ToIWithoutDigits` | app.rb:189 | `to_i` is 0 when no sign or digit follows the leading white space, e.g. "abc" |
| `Things.Errors` | app.rb:44 | save-time validation can only fail on `name` or on the key |
| `Things.Merge` | app.rb:171 | `thing.attributes.merge(new_params)`: the id is kept, a supplied `name` or `status` replaces the old value, and a field not supplied keeps its old value |
| `Things.ValidRowIsStorable` | app.rb:44 | a record passes validation exactly when storing it keeps the table well formed (positive id, row under its own id, named) |
| `Resource.JsonStatus` | app.rb:82-88 | the response code is `code`, there is no Location, and the envelope's `status` equals the response code and its `reason` is `reason` |
| `Resource.AcceptParams` | app.rb:90-96 | a key is kept exactly when it is requested and present in the params, and every kept key has its param value |
| `Resource.RowsInOrder` | app.rb:103-104 | every row of the table appears exactly once (same count), each under its own id, in strictly ascending id order |
| `Resource.FreshIdExists` | app.rb:24 | whatever the table holds, there is an unused positive id for the Serial key to allocate |
| `Resource.ThingPath` | app.rb:134 | the `Location` value is "/thing/" followed by a non-empty id segment |
| `Resource.ThingPathIdentifies` | app.rb:134 | the id segment of `Location` passes `valid_id?` and reads back, with `to_i`, as the new row's id |
| `Resource.DigitIdNamesRow` | app.rb:115-116 | a plain digit string passes `valid_id?` and `to_i` gives its decimal value |
| `Resource.ThingResource.List` | app.rb:100-108 | 200 with every row of the table once, in ascending id order; the table is not modified |
| `Resource.ThingResource.Get` | app.rb:111-125 | 404 "Not found" when the id fails `valid_id?` or `to_i(id)` is absent; otherwise 200 with the row at `to_i(id)`; for a digit id, the row at its decimal value; the table is not modified |
| `Resource.ThingResource.Create` | app.rb:128-141 | with a `name` param: 201, a positive id not previously in the table, the table gains exactly that row (name and status from the params), `Location` is "/thing/" + id; without one: 400 with a `name` field error and the table unchanged |
| `Resource.ThingResource.SetStatus` | app.rb:144-161 | for a valid id present in the table, 200 and only that row's `status` changes (its name and all other rows unchanged); otherwise 404 and nothing created |
| `Resource.ThingResource.Put` | app.rb:164-183 | invalid id: 404, table unchanged; valid id: the row at `to_i(id)` (or a new one there) takes supplied `name`/`status` over its old values, unsupplied fields keep their values; saved with 200 when named, else 400 with the table unchanged; an existing row always succeeds, an absent id without `name` always gives 400 |
| `Resource.ThingResource.Delete` | app.rb:186-204 | if `to_i(id)` is a row, exactly that row is removed and the answer is 204 with no body; otherwise 404 and no change |
| `Resource.DeleteTwice` | app.rb:194-203 | two identical DELETEs leave the table as one does, and the second answers 404: idempotent side effects, non-idempotent responses (section 9.1.2 of RFC 2616) |
| `Resource.CreateThenGet` | app.rb:134-137 | a GET on the id segment of a created Thing's `Location` returns that Thing with 200 |

## Left out

- Persistence: the relational store, DataMapper and SQLite are replaced by the map field `table`. Database setup, the `RACK_ENV` check and `abort`, and `auto_upgrade!` (app.rb:49-63) are process configuration and I/O.
- Resource.ThingResource.Create: Serial id allocation is modelled as *some* unused positive id. The contract does not pin which one the store picks.
- Things.Errors: validation covers only a missing `name` (`:required => true`, app.rb:44) and a key below 1 (the Serial key's minimum, enforced by the store layer, which is not part of this model). Blank-string and length rules of the validation library are not modelled, so `""` counts as a name here. Because of this, the 400 branch of the status route (app.rb:152-153) cannot be taken in the model.
- Resource.ThingResource.Put: an id whose `to_i` is not positive passes `valid_id?` only as "0", "00"… or in a multi-line id. Such an id is answered 400 with an `id` field error, following the key minimum above. Ids beyond the store's integer range (a signed 64-bit key) are not modelled: ids are unbounded, so a PUT to a very large id with a `name` stores a row and answers 200, where the store would refuse the save (400 or 500).
- Numerals.ToI: the optional `0d` radix prefix that Ruby's `String#to_i` accepts is not modelled.
- Validation messages: `thing.errors.to_hash` maps each failing field to messages. The model keeps the set of failing fields; the message texts come from the validation library.
- JSON text (`to_json`, `content_type :json`): bodies are structured values, not serialised strings.
- Sinatra mechanics are left out: content negotiation (`:provides => :json`), `methodoverride`, route-pattern matching, the `put_or_post` helper (one method serves both verbs), the bare-404 catch-all routes and the `not_found` hook (app.rb:208-222). The methods take the already-extracted `:id`, `:status` and params.
- The generic `error` handler (app.rb:224-226): it turns arbitrary Ruby exceptions into 500, and none arise in the model.
- The logger (app.rb:66-68) and concurrent requests sharing one database connection are left out.
- The report generator `run-curl-tests.rb` is left out: it runs shell commands and renders templates, with no logic of the handler's own.
