# Telegram Bot SDK objects: a verified model of `BaseObject`

`BaseObject` is the abstract base of every Telegram Bot API object in the SDK.
An object is a collection built from a decoded API response:

- construction takes the value under `result` when the payload holds that key
  (the envelope `{"ok": …, "result": …}`), and the payload itself otherwise;
- the relation pass `mapRelatives()` then looks at every top-level entry that
  is not an object, and replaces each sub-field its class declares in
  `relations()` (field name → class), when that sub-field is set, by a new
  object of the declared class built from the sub-field's raw value;
- `get($key, $default)` returns a stored array as a new object of the same
  class, any other stored value as it is, and the default for a missing key;
- `getStatus()` returns the items' `ok` (or false) and `getRawResponse()` the
  items themselves;
- the magic `__call` turns `getFirstName()` into a read of `first_name`:
  a missing field, or one holding a falsy value other than an array, raises
  the undefined-property exception (a stored array, even an empty one, comes
  back from `get` as an object, which is truthy), a
  declared relation is wrapped in its class, and a name that does not start
  with `get` returns false.

## Layout

- `php_values.dfy` — module `PhpValues`: PHP values (`Null`, `Bool`, `Int`,
  `Str`, ordered `Arr`, and `Obj`, a built object as its class and items),
  PHP truthiness, and the size measure on which construction terminates.
- `php_arrays.dfy` — module `PhpArrays`: key order, `array_key_exists`,
  element read and `isset` on ordered arrays.
- `support.dfy` — module `Support`: the Laravel helpers the class calls,
  reduced to what it uses: the collection constructor's coercion,
  `array_get` with a dot-free key, and an ASCII `snake_case`.
- `base_object.dfy` — module `Objects`: the relations tables (`Schema`, one
  `relations()` result per class name), the specification of construction
  (`Construct`, `MappedRelatives`, …) and the class `BaseObject` with its
  `items` field. The constructor and `MapRelatives` are methods that change
  `items`; `MapRelatives` keeps the source's outer loop over the entries and
  runs the inner loop over the relations in `MapEntryRelatives`, which calls
  the constructor for each related field, so construction recurses exactly
  as `new $class(...)` does. The readers are functions.
- `object_properties.dfy` — module `ObjectProperties`: lemmas about the model.

Termination of the recursive construction is proved by the `decreases`
clauses of `Construct`, of the constructor, of `MapRelatives` and of
`MapEntryRelatives`: each child
object is built from a value strictly smaller (by `PhpValues.Size`) than the
payload of its parent.

Beyond what the source states, two consequences are proved. `getStatus()`
reads `ok` from the unwrapped items, so an object built from an envelope
`{"ok": true, "result": {…}}` reports false unless the result itself holds
`ok` (`EnvelopeStatusNotVisible`). Building an object again from
`getRawResponse()` (or from the object) reproduces its items when no `result`
key occurs anywhere in the payload (`ConstructSettled`), and it does not in
general: a nested `result` is unwrapped a second time
(`RebuildUnwrapsNestedResult`).

A sub-field is replaced only when it is set (`isset`, so a null value is left
alone). `getStatus()` returns the stored `ok` value as it is, which need not
be a boolean.

## Model

| member | source | states |
|---|---|---|
| `Objects.BaseObject.constructor` | src/Objects/BaseObject.php:20-25 | the new object's items are the collection built from `getRawResult(data)` after the relation pass of its class (`Construct`) |
| `Objects.BaseObject.GetRawResult` | src/Objects/BaseObject.php:93-96 | the value under `result` when an array or object holds that key (even a null one), the payload itself otherwise; never larger than the payload |
| `Objects.BaseObject.MapRelatives` | src/Objects/BaseObject.php:56-74 | with empty or non-array relations it returns false and leaves the items alone; otherwise the nested loops leave the items equal to `MappedRelatives` of the old items and it returns them as an array |
| `Objects.BaseObject.MapEntryRelatives` | src/Objects/BaseObject.php:66-70 | the inner loop over the relations, for one top-level entry: its result is the entry after the relation pass (`MapEntry`) |
| `Objects.MapEntryStep` | src/Objects/BaseObject.php:67-68 | one pass of the inner loop: when the declared field is set in the entry it still holds its raw value, which is smaller than the entry, and it is replaced by an object of its class built from that value; otherwise the entry is unchanged |
| `Objects.WrapFieldsStep` | src/Objects/BaseObject.php:66-69 | one pass of the inner loop on a sub-array: the declared field, when set, is replaced by an object of its class built from its raw value; every other field is unchanged |
| `Objects.Construct` | src/Objects/BaseObject.php:20-25 | the items of a new object of class c: the relation pass over the collection built from `getRawResult(data)`; it keeps that collection's keys in order |
| `Objects.MappedRelatives` | src/Objects/BaseObject.php:56-74 | the items after `mapRelatives()` with the given relations; it keeps the keys of the items in order |
| `Objects.BaseObject.DeclaredRelations` | src/Objects/BaseObject.php:58 | `$this->relations()`: the relations table of this object's class, as the schema fixes it |
| `Objects.HasGetPrefix` | src/Objects/BaseObject.php:120-122 | `substr($name, 0, 3) === 'get'` holds exactly when `get` is a prefix of the name |
| `PhpValues.Truthy` | src/Objects/BaseObject.php:126 | PHP's boolean conversion in `if ($response)`: a value is falsy exactly when it is null, false, 0, `""`, `"0"` or the empty array |
| `PhpArrays.IsSetFirstEntry` | src/Objects/BaseObject.php:67 | `isset($results[$key][$property])` holds exactly when the entry is an array whose first entry with that key holds a value other than null |
| `Objects.BaseObject.Get` | src/Objects/BaseObject.php:42-49 | a missing key gives the default, null when none is passed; a stored non-array value is returned as it is; a stored array becomes an object of this object's class built from it; so a raw array is returned only as the default |
| `Objects.BaseObject.GetRawResponse` | src/Objects/BaseObject.php:81-84 | the items, as an array that the collection constructor takes back unchanged |
| `Objects.BaseObject.GetStatus` | src/Objects/BaseObject.php:103-106 | the value stored under `ok` when the key exists, false otherwise |
| `Objects.BaseObject.Call` | src/Objects/BaseObject.php:118-140 | a name not starting with `get` returns false; a `get` name raises exactly when `get(snake_case(rest), false)` is falsy |
| `ObjectProperties.ConstructUnwrapsEnvelope` | src/Objects/BaseObject.php:22 | a payload holding `result` is built from the value under `result`, then relation-mapped |
| `ObjectProperties.ConstructKeepsBareEntity` | src/Objects/BaseObject.php:93-96 | a payload without `result` is used as the items unchanged, then relation-mapped |
| `ObjectProperties.NoRelationsNoChange` | src/Objects/BaseObject.php:58-62 | empty or non-array relations leave the items as they are |
| `ObjectProperties.MappedRelativesKeys` | src/Objects/BaseObject.php:64-73 | the relation pass keeps the top-level keys and their order, and the sub-keys and their order of every array entry |
| `ObjectProperties.MappedRelativesSkipsNonArrays` | src/Objects/BaseObject.php:65-67 | a top-level entry that is an object (already built) or a scalar is left unchanged, so an object stored as a top-level entry is not wrapped again; an object in a declared sub-field is rebuilt from its items by a second pass, which leaves it equal when no `result` key occurs in the items (`MappedRelativesIdempotent`); a nested `result` can change it (`RebuildUnwrapsNestedResult`) |
| `ObjectProperties.MappedRelativesWrapsField` | src/Objects/BaseObject.php:66-69 | in an array entry, a declared field that is set becomes an object of the declared class built from the field's raw value |
| `ObjectProperties.MappedRelativesKeepsOtherFields` | src/Objects/BaseObject.php:66-69 | in an array entry, a field that is not declared, or declared but missing or null, reads exactly as before |
| `ObjectProperties.MappedRelativesIdempotent` | src/Objects/BaseObject.php:56-74 | running the relation pass twice equals running it once when no `result` key occurs in the items |
| `ObjectProperties.ConstructSettled` | src/Objects/BaseObject.php:20-25 | building class c again from an object's raw response, or from the object, reproduces its items when the payload holds no `result` key anywhere |
| `ObjectProperties.RebuildUnwrapsNestedResult` | src/Objects/BaseObject.php:93-96 | with a nested `result` key the rebuild differs: the nested result is unwrapped a second time |
| `ObjectProperties.EnvelopeStatusNotVisible` | src/Objects/BaseObject.php:103-106 | an object built from an envelope whose result holds no `ok` reports status false, whatever the envelope's `ok` |
| `ObjectProperties.StatusTruthy` | src/Objects/BaseObject.php:103-106 | the status is truthy exactly when `ok` is present and truthy |
| `ObjectProperties.CallRaisesIff` | src/Objects/BaseObject.php:124-136 | the accessor raises exactly for a `get` name whose field is missing or holds a falsy non-array value; a present array, even an empty one, never raises |
| `ObjectProperties.CallPlainField` | src/Objects/BaseObject.php:126-133 | a truthy field without a declared relation is returned as `get` returns it |
| `ObjectProperties.CallRelationField` | src/Objects/BaseObject.php:127-131 | a truthy field with a declared relation is returned as a new object of the declared class built from `get`'s result |
| `ObjectProperties.CallRelationArrayField` | src/Objects/BaseObject.php:123-131 | for a related field holding an array with no top-level `result` key, `get` first builds this object's own class and the accessor then applies the declared class's relations on top of those items |
| `ObjectProperties.GetWrapsArrays` | src/Objects/BaseObject.php:44-45 | a stored array comes back as an object of this object's class, keyed like the collection built from the unwrapped value |
| `ObjectProperties.TextAccessorExample` | src/Objects/BaseObject.php:118-140 | `getText()` on `{"text": "hello"}` returns `"hello"` |
| `ObjectProperties.MissingFieldExample` | src/Objects/BaseObject.php:42-49 | `getFoo()` without `foo` raises; `get("foo", "fallback")` returns the fallback and `get("foo")` returns null |
| `ObjectProperties.UpdatesListExample` | src/Objects/BaseObject.php:64-69 | an envelope holding a list of updates gets each update's `message` field built as a Message object |
| `Support.FromValue` | src/Objects/BaseObject.php:22 | the collection constructor keeps an array, copies another collection's items, maps null to no items and a scalar to a one-element array; never larger than its argument |
| `Support.ArrayGet` | src/Objects/BaseObject.php:95 | `array_get` with a dot-free key: the stored value when an array or object holds the key, the default otherwise |
| `Support.SnakeCase` | src/Objects/BaseObject.php:123 | the result holds no upper-case letter and is no shorter than the name |
| `Support.SnakeCaseKeepsLower` | src/Objects/BaseObject.php:123 | a name with no upper-case letter is returned unchanged |
| `Support.SnakeCaseIdempotent` | src/Objects/BaseObject.php:123 | snake-casing twice equals snake-casing once |
| `Support.SnakeCaseLength` | src/Objects/BaseObject.php:123 | the result is longer than the name by one character per upper-case letter after the first character |
| `Support.SnakeCaseTwoWords` | src/Objects/BaseObject.php:123 | two capitalised words `FirstName` become `first_name` |
| `PhpArrays.IndexOf` | src/Objects/BaseObject.php:44 | the first position holding the key, or the length when the key is absent |
| `PhpArrays.Lookup` | src/Objects/BaseObject.php:44-45 | `offsetExists` and `$items[$key]`: nothing exactly when no entry has the key, otherwise the value of the first entry with it |
| `PhpValues.EntrySize` | src/Objects/BaseObject.php:68 | every value held by an array is smaller than the array, which bounds each child construction |

## Left out

- The rest of `Illuminate\Support\Collection` (iteration, filtering, mapping, serialisation) is not part of this model; only its items, `offsetExists`, `all()` and its constructor's coercion are modelled.
- `Support.SnakeCase`: ASCII letters only; Laravel's `snake_case` works on Unicode letters through a regular expression, is not part of this model, and is not claimed to agree beyond ASCII method names.
- `Objects.BaseObject.Get`: the default is a value; `value($default)` calling a closure default is not modelled.
- `Support.ArrayGet`: only dot-free keys (`result`, `ok`); the dotted-path traversal of `array_get` is not modelled.
- `PhpArrays.IsSet`: a string entry is never set; PHP's `isset` on a string offset (`"abc"[0]`) and the write into it are not modelled.
- Integer-like string keys (`"1"`) are not normalised to integer keys as PHP does, so a `get1()` accessor does not find an integer key 1.
- Floating-point values are not modelled.
- `new static` and `new $class` become class-name tags with a fixed table of `relations()` results per class (`Objects.Schema`); the concrete subclasses and their tables are not part of this model, nor relations whose values are not classes of this kind.
- A built object held inside another value is an `Obj` snapshot of its class and items. BaseObject's own code assigns `items` only in `mapRelatives()`. In PHP a nested object is a shared handle, so changing it through the inherited Collection mutators (`offsetSet`, `put`, `forget`, `push`, `transform`, …) or a later `mapRelatives()` shows in its parent; the `Obj` snapshot here does not. The inherited mutators themselves are not part of this model.
- Arrays are sequences of key/value pairs. PHP arrays have unique keys; on a sequence that repeats a key the model reads the first occurrence and walks top-level entries by position.
- The exception's class, message and construction: `__call` failing is the `UndefinedProperty` result. `__call`'s arguments are unused by the source and not modelled, nor PHP's rule that real methods (`getStatus`, `get`, …) are called before `__call` is consulted.
