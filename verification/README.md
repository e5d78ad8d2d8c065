# Flat-file JSON record store: the record engine

This project models the record-level CRUD engine of a small document store.
In that store a database is a directory and a table is one file holding a
JSON array of records. A record is a JSON object identified by its `id`
property. Each of `createRecord`, `readRecord`, `updateRecord` and
`deleteRecord` does the same steps in order:

1. read the whole table file;
2. parse it;
3. normalise the parsed value into an array;
4. change that array in memory;
5. for every operation except the read, hand the whole array back to `fs.writeFile`.

The model takes the file I/O and the text-level `JSON.parse`/`JSON.stringify` out of the operations. Each
operation becomes a pure function. Its inputs are a `Disk`, meaning what reading the file
gives and whether the write succeeds, and the call's arguments. Its result is an
`Outcome`, meaning the array handed to `fs.writeFile` (if any) and how the
returned promise settles.

Modules, leaves first:

- `JsValues` (values.dfy): JavaScript values (`undefined`, `null`, booleans,
  numbers, strings, arrays, plain objects as ordered field lists),
  truthiness and property lookup.
- `JsNumbers` (numbers.dfy): integer-to-text and text-to-number conversion
  as loose equality uses them.
- `JsEquality` (equality.dfy): `===` and the abstract equality comparison
  `==`, including the boolean, string/number and object-to-primitive
  conversions.
- `Records` (records.dfy): reading `item.id` (a TypeError on `null` and
  `undefined`) and the shallow merge `{...old, ...patch}` built from
  JavaScript's define-property steps.
- `Tables` (tables.dfy): normalisation, the first-match scan behind `find`
  and `findIndex`, and the `filter` of delete.
- `CrudEngine` (crud.dfy): the four operations.
- `EngineProperties` (properties.dfy) and `Scenarios` (scenarios.dfy):
  properties that relate several calls, and concrete runs.

Points where the code's behaviour is easy to misread:

- `readRecord` compares ids with `===`, so a record stored with id `5` is not found by
  reading `"5"`. `updateRecord` and `deleteRecord` do match it, because they use `==`.
- Only `createRecord` treats an unparseable file (the empty file included) as
  an empty table. The other three log the error, write nothing and resolve
  `undefined`.
- In `updateRecord` and `deleteRecord` the `fs.writeFile` call sits inside
  the inner `try`. A failed write there is caught like a parse error, so the call
  resolves `undefined` rather than rejecting. In `createRecord` a failed
  write rejects with `{success: false, ...}`.
- `readRecord` returns the found element only if it is truthy. Otherwise it returns
  `null`.
- Reading `.id` of a `null` element throws inside the inner `try`. A scan
  that reaches such an element before any match therefore writes nothing and
  resolves `undefined`. `deleteRecord` visits every element, so any `null` element has that effect there.
- `==` and `!=` throw a TypeError when they must convert an object whose
  conversion to a primitive fails. For a parsed object, that is one with an
  own `toString` property, such as `{"toString": 1}`, or an array holding such
  an object. The TypeError is caught in the same place, with the same effect
  as a `null` element: `findIndex` throws on such an id before any match, and
  `filter` throws on it anywhere.
- The log lines after the lookup write the target through `${targetId}`, which
  throws for such an object target. `readRecord` then resolves `undefined`
  instead of the record or `null`. `deleteRecord` writes first and then
  resolves `undefined` instead of `true`. `updateRecord` cannot reach that
  line with such a target after a match, because `==` never holds for it.

## Model

| member | source | states |
|---|---|---|
| `Tables.Normalize` | project/JSONimplementation.js:196-199 | an array parsed from the file is the table itself; any other parsed value becomes a one-record table |
| `CrudEngine.LoadForCreate` | project/JSONimplementation.js:145-157 | createRecord starts from the empty table when the content does not parse, otherwise from the normalised parsed value |
| `CrudEngine.CreateRecord` | project/JSONimplementation.js:136-175 | a failed file read rejects with the failure object and writes nothing; otherwise the written table is the old table with `record` appended (length +1, the old records unchanged and in order, `record` last), resolving `{success: true}` if the write succeeds and rejecting if it fails |
| `CrudEngine.ReadRecord` | project/JSONimplementation.js:183-225 | never writes; rejects on a failed file read; resolves `undefined` on unparseable content, when an element whose `id` read throws comes before any strict match, and when logging a target whose text conversion throws; otherwise, when the first strict match is at index i it resolves that record (or `null` if the record is falsy), and with no strict match it resolves `null`; a non-null, non-undefined result is always the first strict match |
| `CrudEngine.UpdateRecord` | project/JSONimplementation.js:234-278 | with the first loose match at index i (every earlier id read and compared without throwing), writes the table with only index i replaced by the shallow merge, resolving `true` exactly when the write succeeds; with no match, or when reading or `==`-comparing an id throws before any match, it writes nothing and resolves `undefined`; any write implies a loose match exists; `true` implies a write that succeeded |
| `CrudEngine.DeleteRecord` | project/JSONimplementation.js:287-325 | writes exactly when reading and `!=`-comparing every element's id does not throw; the written table is the order- and repetition-preserving filter `Tables.Without` of the old table, so it holds exactly the old records whose id is not `==` the target; resolves `true` when the write succeeds and logging the target does not throw, whether or not anything matched, and `undefined` otherwise; rejects on a failed file read |
| `Records.GetId` | project/JSONimplementation.js:202 | reading `item.id` throws exactly for `null` and `undefined`; an object with an `id` field yields that field's value; everything else yields `undefined` |
| `Records.Merge` | project/JSONimplementation.js:257 | `{...old, ...patch}` of any two values is a plain object whose keys are exactly the spread keys of `old` and of `patch` |
| `Records.MergeSpec` | project/JSONimplementation.js:257 | `{...old, ...patch}` on plain objects: every patch key takes the patch value, every other old key keeps its old value, the keys are exactly the union, no key is duplicated, and the old keys keep their positions at the front |
| `Records.SingleFieldPatch` | project/JSONimplementation.js:257 | updating with `{k: v}` sets `k` to `v` and leaves every other property unchanged |
| `Records.AssignLookup` | project/JSONimplementation.js:257 | each spread copy of a duplicate-free object overrides exactly the keys it carries |
| `Tables.ScanFrom` | project/JSONimplementation.js:202 | the `find`/`findIndex` callback run from an index on: a hit is a matching index, a fault is an element on which reading `id` or comparing it throws, and every element before the stopping point (all of them on a miss) is passed over |
| `Tables.FindFirst` | project/JSONimplementation.js:253 | the scan's hit is the first matching index with every earlier record passed over; a miss means every record was passed over; a fault is an element reached before any match on which the callback throws: a `null`/`undefined` element, or, for `==`, an id whose conversion throws |
| `Tables.FindFirstExact` | project/JSONimplementation.js:202 | the scan hits exactly at the first match, faults exactly at the first throwing element reached before any match, and misses exactly when no record matches |
| `Tables.Filter` | project/JSONimplementation.js:306 | `Array.prototype.filter` with a callback on `item.id`: the result, when reading no id throws, is never longer than the input |
| `Tables.Without` | project/JSONimplementation.js:306 | the delete filter `item => item.id != targetId`: never longer than the table; its throwing, members and order are stated by the `Tables.Without*` lemmas below |
| `Tables.FilterFaults` | project/JSONimplementation.js:306 | `filter` with a callback on `item.id` throws exactly when the callback throws on some element: its id cannot be read, or the callback itself throws on it |
| `Tables.FilterMembers` | project/JSONimplementation.js:306 | when `filter` does not throw, its result holds exactly the elements whose id the callback accepts |
| `Tables.FilterConcat` | project/JSONimplementation.js:306 | filtering distributes over concatenation, so the kept elements stay in their original order |
| `Tables.FilterKeepsAll` | project/JSONimplementation.js:306 | a sequence whose every element the callback accepts is returned unchanged |
| `Tables.FilterFull` | project/JSONimplementation.js:306 | a filter result as long as its input is the input itself |
| `Tables.WithoutFaults` | project/JSONimplementation.js:306 | delete's filter throws exactly when some element is `null`/`undefined` or has an id whose `!=` with the target throws |
| `Tables.WithoutMembers` | project/JSONimplementation.js:306 | delete's filter keeps exactly the records whose id can be read and is not `==` the target |
| `Tables.WithoutConcat` | project/JSONimplementation.js:306 | deleting from a concatenation deletes from each part, keeping the order of the survivors |
| `Tables.WithoutNoMatch` | project/JSONimplementation.js:306 | a table with no matching record is returned unchanged |
| `Tables.WithoutIdempotent` | project/JSONimplementation.js:306 | filtering twice equals filtering once |
| `Tables.WithoutShrinksIffFound` | project/JSONimplementation.js:253 | the delete filter removes something exactly when the update's `findIndex` with the same `==` finds a record |
| `JsEquality.StrictEq` | project/JSONimplementation.js:202 | `===` on the value domain: it holds only between equal values |
| `JsEquality.LooseEq` | project/JSONimplementation.js:253 | `==` as used at lines 253 and 306: same-type operands compare with `===`, `null` and `undefined` equal only each other, and other operands compare after conversion to a number or string; a `true` result never pairs a nullish operand with a non-nullish one, and a TypeError arises only from converting an object operand |
| `JsEquality.ToPrimitive` | project/JSONimplementation.js:253 | converting an object gives a string; a plain object throws exactly when it has an own `toString` property |
| `JsEquality.LooseNe` | project/JSONimplementation.js:306 | `!=` is the negation of `==` and throws exactly when `==` does |
| `JsEquality.AbstractEquality` | project/JSONimplementation.js:253 | the Abstract Equality Comparison of section 7.2.12 of ECMAScript 2015, one conversion per step, with ToPrimitive completing abruptly for an object with an own `toString`; a `true` result never pairs a nullish operand with a non-nullish one |
| `JsEquality.LooseEqIsAbstractEquality` | project/JSONimplementation.js:253 | the converted comparison used for `==` agrees on every pair of values with the step-by-step Abstract Equality Comparison of section 7.2.12 of ECMAScript 2015, in its result and in when it throws |
| `JsEquality.LooseEqThrows` | project/JSONimplementation.js:253 | `==` throws exactly when the operands differ in type, neither is nullish, and one is an object whose conversion throws |
| `JsEquality.OwnToStringThrows` | project/JSONimplementation.js:253 | a plain object id, or an array holding it, makes `==` against a number throw exactly when the object has an own `toString` property |
| `JsEquality.StrictEqIsPrimitiveEquality` | project/JSONimplementation.js:202 | `===` holds exactly between equal primitives (objects never share a reference with the target) |
| `JsEquality.StrictImpliesLoose` | project/JSONimplementation.js:202 | whatever `===` matches, `==` matches too, without throwing |
| `JsEquality.LooseEqSymmetric` | project/JSONimplementation.js:306 | `==` is symmetric, including all its conversions |
| `JsEquality.LooseNullish` | project/JSONimplementation.js:253 | a `null`/`undefined` target loosely matches exactly the `null`/`undefined` ids, which includes records with no `id` property, and comparing with it never throws |
| `JsEquality.LooseMatchTargetPrints` | project/JSONimplementation.js:262 | a target that some id is `==` to converts to text without throwing, so the log line after an update's match cannot throw |
| `JsEquality.NumberMatchesItsText` | project/JSONimplementation.js:253 | a number id is `==` its decimal text but not `===` to it |
| `JsEquality.ConversionExamples` | project/JSONimplementation.js:253 | on concrete operands, `==` joins an array's elements with ",", reads a plain object as "[object Object]", takes `true` as 1 (not 2), trims surrounding whitespace from text, and reads blank text as 0 |
| `JsNumbers.IntToStringToNumber` | project/JSONimplementation.js:253 | converting an integer's decimal text back to a number gives the integer |
| `JsNumbers.NatToStringValue` | project/JSONimplementation.js:253 | the digits written for a natural number have that number as their value |
| `EngineProperties.UpdateChangesOnlyFirstMatch` | project/JSONimplementation.js:253-264 | at the first loose match i, the written table keeps its length, every index other than i is unchanged, index i holds the merge with the patch's values and the old values elsewhere, and the call resolves `true` exactly when the write succeeds |
| `EngineProperties.UpdateWithoutMatch` | project/JSONimplementation.js:265-269 | when no record loosely matches, updateRecord writes nothing and does not resolve `true` |
| `EngineProperties.CreateThenRead` | project/JSONimplementation.js:159-210 | a record appended by createRecord is what readRecord returns for its id when no earlier record has that id or is `null` |
| `EngineProperties.DeleteIdempotent` | project/JSONimplementation.js:305-316 | a second deleteRecord with the same id writes back the same table as the first |
| `EngineProperties.DeleteThenRead` | project/JSONimplementation.js:305-316 | after deleteRecord has written, readRecord with the same id resolves `null`, or `undefined` when logging the target throws |
| `EngineProperties.ReadIsStrictUpdateIsLoose` | project/JSONimplementation.js:202-257 | reading by the decimal text of a stored number id finds nothing, while updating by it rewrites that record |
| `EngineProperties.UnparseableContent` | project/JSONimplementation.js:154-157 | on unparseable content createRecord writes a one-record table, and readRecord, updateRecord and deleteRecord write nothing and resolve `undefined` |
| `Scenarios.Lifecycle` | project/JSONimplementation.js:136-325 | starting from an empty file, create, update, read, delete and read give `[{id:1,name:"a"}]`, `[{id:1,name:"b"}]`, that record, `[]` and `null` |
| `Scenarios.BareObject` | project/JSONimplementation.js:196-202 | a file holding one bare object `{id:5}` is read as a one-record table, and reading id 5 returns it |
| `Scenarios.UnprintableId` | project/JSONimplementation.js:253-273 | with an id `{"toString": 1}` ahead of id 5, updateRecord and deleteRecord write nothing and resolve `undefined`, while readRecord still finds id 5 |
| `Scenarios.UnprintableTarget` | project/JSONimplementation.js:306-320 | with the target `{"toString": 1}` and a record without an `id`, deleteRecord writes the table back and resolves `undefined`, and readRecord resolves `undefined` |

## Left out

- File I/O is a parameter (`Disk`): the result of `fs.readFile` and whether `fs.writeFile` succeeds. What a failed write leaves in the file is not modelled.
- Text-level `JSON.parse` and `JSON.stringify(…, null, 2)` are library calls. Stored content is the parsed value, or `Unparseable` when parsing throws, which includes the empty file. The cross-call properties take the file written by one call to parse back into the written array. That holds for JSON values, but `JSON.stringify` would drop `undefined` properties.
- Numbers are mathematical integers. Fractional values, `-0`, `NaN`, infinities and the rounding of IEEE doubles are not modelled.
- JsNumbers.NatToString writes every integer in plain decimal digits. JavaScript writes numbers of magnitude 10^21 and above in exponent form (`"1e+21"`), so in JavaScript `[1e21] == "1000000000000000000000"` is false, while in the model it is true. Integers this large are far above 2^53, a range where the model already ignores IEEE rounding (see the line on numbers).
- String-to-number conversion recognises optional surrounding whitespace, an optional sign and decimal digits with an optional fraction. Exponent and hexadecimal forms (`"1e2"`, `"0x10"`) are treated as NaN, so `==` between such a text and a number is false in the model.
- Strings are sequences of Unicode scalar values, while JavaScript strings are sequences of UTF-16 code units. Spreading a string with a character outside the Basic Multilingual Plane (`{..."😀"}`) gives one index key in the model and two in JavaScript. Lone surrogates, which `JSON.parse` can return from `\ud800` escapes, cannot be represented.
- String-to-number conversion does not recognise the binary and octal forms `"0b101"` and `"0o7"`, nor `"Infinity"`. The model treats them as NaN, whereas JavaScript converts them to 5, 7 and infinity.
- Objects keep their properties in insertion order. JavaScript lists integer-like keys first in ascending order; that reordering is not modelled.
- Comparisons between two objects are always false, because a target never shares a reference with a freshly parsed element.
- The directory and table wrappers (`createDB`, `readDatabase`, `updateDB`, `deleteDatabase`, `createTable`, `readTable`, `deleteTable`) are thin `fs` calls with no logic of their own.
- The Express routes in project/index.js are the HTTP layer. They are out of scope.
- Console logging and promise timing are not modelled.
- The code has no locking, so concurrent read-modify-write cycles on one table can lose updates. Concurrency is not part of this model.
- `Records.MergeSpec`, `Records.SingleFieldPatch` and `Records.AssignLookup` assume that objects have distinct keys. Every JavaScript object does.
