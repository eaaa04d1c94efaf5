# HTTP request inspector: request building and response export

`http-inspector.js` is a command-line HTTP client. It has `get`, `post`,
`put` and `delete` subcommands. Each subcommand builds its request from
options given as JSON text:

- `--queryParams` is appended to the URL as a form-urlencoded query string.
- `--token` is merged into the `--headers` object as
  `Authorization: Bearer <token>`.

After the response arrives, the tool can save the body to a file. `--output`
names the file and `--format` picks `json` (the default) or `csv`.

- JSON export writes `JSON.stringify(data, null, 2)`.
- CSV export needs an array body. Each element is flattened by
  `flattenObject`: nested objects become dot-joined keys, arrays become
  their JSON text, and null members disappear. The header row holds the
  keys of the first flattened record. After it, each record writes its own
  values joined by commas, with no quoting.

This project models those transformations and proves what they guarantee:

- JSON values with insertion-ordered objects (`Json`).
- JavaScript objects used as dictionaries, where assigning to an existing
  key keeps its position (`OrderedMap`).
- `JSON.stringify` in compact and indented form. A `JSON.parse` reader acts
  as the partner that the writer is proved against (`Json`, `JsonParse`).
- `flattenObject` (`Flattening`). It appears both as a function and as the
  in-place walk over a mutable accumulator object, `FlatRecord`.
- The content `exportToFile` writes for each format, and its error paths
  (`Export`).
- The form-urlencoded serializer of section 5.2 of the WHATWG URL Standard,
  which `URLSearchParams.toString` runs. The parser of section 5.1 acts as
  its partner (`FormUrlEncoded`).
- URL building, the bearer-token header merge, and the output/format gate
  of `makeRequest` (`Request`).

JavaScript behaviour that the model reproduces:

- `typeof null === 'object'`, so `flattenObject` walks into a null member
  and writes nothing for it.
- An empty `parent` is falsy, so a key directly below it gets no leading dot.
- `for..in` over a top-level row that is not an object behaves as follows:
  - an array visits its indices;
  - a string visits one single-character string per character (JavaScript
    visits UTF-16 code units, so the two agree only for characters below
    U+10000);
  - any other value visits nothing.
- Object spread keeps the position of a key that is already present, so an
  `Authorization` header given with `--headers` stays where it was.
- `format || 'json'` treats an empty `--format` as absent.
- `res[propName] = value` on the plain object `res` reaches the `__proto__`
  setter of `Object.prototype` when `propName` is `__proto__`. Every leaf
  value is a primitive, since an array is stored as its JSON text, and the
  setter ignores primitives, so that write stores nothing. Other keys,
  including nested paths such as `a.__proto__`, are stored as usual.
- CSV export of an empty array throws in the original, because
  `flattenedData[0]` is undefined. Here it is the `NoRecords` error.

Only the first record supplies the header (line 54). Line 55 writes each
record's `Object.values` in that record's own key order. A column therefore
lines up with its header only when the records share the first record's key
order; `Export.CsvColumnsAligned` states this. `Export.CsvRowsKeepOwnOrder`
shows two records whose orders differ, so a value lands under another key's
header.

## Model

| member | source | states |
|---|---|---|
| Flattening.ForIn | http-inspector.js:26 | the pairs `for (const key in obj)` visits: an object's members in order, an array's indices with their elements, a string's indices with one-character strings, and nothing for any other value. Every descendable value it yields is smaller than `obj` |
| Flattening.PropName | http-inspector.js:27 | the property name ends with `key`. With a non-empty `parent` it is `parent`, a dot, then `key`. With an empty `parent` it is `key` alone, with no leading dot, since the empty string is falsy |
| Flattening.Descends | http-inspector.js:28 | `typeof v === 'object' && !Array.isArray(v)`, which holds for objects and for null |
| Flattening.LeafCell | http-inspector.js:30-33 | the stored value of a leaf: an array as its compact JSON text, a scalar as itself |
| Flattening.Assign | http-inspector.js:31-33 | `res[path] = c` for a primitive `c`: no effect when `path` is `__proto__`, otherwise the ordered-map assignment. Existing keys keep their positions |
| Flattening.AssignLookup | http-inspector.js:31-33 | after the write, `path` reads `c` unless it is `__proto__`, and every other key reads its old value |
| Flattening.FlattenEntries | http-inspector.js:26-35 | the loop over the visited pairs, threading the accumulator. It recurses into an object or null under its path and assigns any other value. The accumulator's existing keys keep their positions |
| Flattening.FlattenValue | http-inspector.js:25-37 | `flattenObject(obj, parent, res)`: the loop over `ForIn(obj)`. Existing keys keep their positions |
| Flattening.Flatten | http-inspector.js:25-37 | `flattenObject(row)` with `parent = ''` and `res = {}`. The result never repeats a key |
| Flattening.FlattenEntriesIsPutAll | http-inspector.js:25-37 | the walk performs the depth-first leaf assignments `Leaves` on the accumulator, in order |
| Flattening.FlattenKeysAndValues | http-inspector.js:25-37 | the record's keys are the old keys followed by the newly visited leaf paths. A path written twice keeps its first position and its last value, and an unvisited key keeps its old value |
| Flattening.FlattenDistinct | http-inspector.js:25-37 | the flattened record never holds a key twice |
| Flattening.NullFieldDropped | http-inspector.js:28-29 | a member holding null adds no entry |
| Flattening.ArrayFieldAsText | http-inspector.js:30-31 | a member holding an array adds one entry under its own path whose value is the array's JSON text, or none when the path is `__proto__` |
| Flattening.NestedFieldBelow | http-inspector.js:27-29 | a member holding an object contributes only keys of the form `path.` followed by more |
| Flattening.LeavesUnderPath | http-inspector.js:27 | below a non-empty parent every written key starts with the parent and a dot |
| Flattening.FlatObjectUnchanged | http-inspector.js:32-33 | an object of non-null scalars, none named `__proto__`, flattens to the same pairs in the same order |
| Flattening.NestedExample | http-inspector.js:27-29 | `{"a":{"b":{"c":1}}}` flattens to `a.b.c = 1` |
| Flattening.ArrayExample | http-inspector.js:30-31 | `{"a":[1,2]}` flattens to `a = "[1,2]"` |
| Flattening.FlatRecord.Set | http-inspector.js:31-33 | assigning `res[key]` a primitive changes the record as `Assign` does: nothing for `__proto__`, otherwise it replaces an existing key in place or appends a new one. The record stays valid |
| Flattening.FlattenObject | http-inspector.js:25-37 | the in-place walk leaves the accumulator equal to the functional flattening of the old accumulator |
| Flattening.FlattenRow | http-inspector.js:53 | `flattenObject(row)` with a fresh accumulator gives `Flatten(row)` |
| OrderedMap.Put | http-inspector.js:114 | defining an own property, as object spread and `JSON.parse` do, keeps the keys when the key is present and appends it otherwise |
| OrderedMap.PutLookup | http-inspector.js:114 | after the definition, the key reads the new value and every other key reads its old value |
| OrderedMap.PutExisting | http-inspector.js:114 | assigning a present key replaces its pair where it stands |
| OrderedMap.PutNew | http-inspector.js:114 | assigning an absent key appends it at the end |
| Text.Join | http-inspector.js:54-56 | `Array.prototype.join`: the pieces with the separator between neighbours. `Text.SplitJoin` proves that splitting at a one-character separator that no piece holds gives the pieces back |
| Text.IntToString | http-inspector.js:55 | the decimal text of an integer, as `join` and `JSON.stringify` write it: never empty, starting with `-` exactly when the integer is negative, and otherwise all digits. `JsonParse.NumberRead` proves it parses back to the same integer |
| Export.CellText | http-inspector.js:55 | how `join` writes a cell: `true`/`false`, the decimal integer, or the string as it is, with no quoting |
| Export.HeaderLine | http-inspector.js:54 | the first record's keys joined by commas |
| Export.RowLine | http-inspector.js:55 | one record's cell texts, in its own key order, joined by commas |
| Export.CsvText | http-inspector.js:54-56 | the header line, a newline, then the row lines joined by newlines |
| Export.CsvContent | http-inspector.js:45-56 | CSV content exists exactly for a non-empty array. A non-array body is `NotAnArray` and an empty array is `NoRecords` |
| Export.ExportContent | http-inspector.js:39-61 | `json` gives the indented JSON text. `csv` gives the CSV content. Any other format gives `UnsupportedFormat` |
| Export.ResolveFormat | http-inspector.js:87 | an absent or empty format is `json`, and any other format is kept as given |
| Export.CsvReadBack | http-inspector.js:53-56 | without commas or newlines in keys and cells, the file splits at newlines into the header and one line per record, empty records included. A non-empty first record's header splits at commas into its keys, and a non-empty record's line splits into its cell texts |
| Export.CsvColumnsAligned | http-inspector.js:54-55 | when a record has the first record's keys in the same order, each column holds the value of the header key above it |
| Export.CsvExample | http-inspector.js:53-56 | `[{"a":1,"b":2},{"a":3,"b":4}]` exports as `a,b\n1,2\n3,4` |
| Export.CsvRowsKeepOwnOrder | http-inspector.js:55 | `[{"a":1,"b":2},{"b":3,"a":4}]` also exports as `a,b\n1,2\n3,4`, because each row is written in its own key order |
| Export.JsonExportReadsBack | http-inspector.js:42-43 | the JSON file content exists for every body and `JSON.parse` reads it back as the body |
| Export.ProtoExample | http-inspector.js:31-33 | `[{"__proto__":1}]` flattens to an empty record and exports as a lone newline |
| Export.RowTexts | http-inspector.js:55 | one cell text per field of the record, in the record's order |
| Export.FlattenAll | http-inspector.js:53 | one flattened record per array element, in order |
| Json.EscapeChar | http-inspector.js:31 | the escape `JSON.stringify` writes for one character: the short escapes, `\u00XX` for other control characters, and the character itself otherwise |
| Json.Serialize | http-inspector.js:31 | `JSON.stringify(v, null, gap)` at a given indentation: scalars as literals, and arrays and objects in brackets with a line break and indentation per part when `gap` is not empty |
| Json.Stringify | http-inspector.js:31 | `JSON.stringify(v)`, the compact form |
| Json.Pretty | http-inspector.js:43 | `JSON.stringify(v, null, 2)` |
| JsonParse.SerializeParse | http-inspector.js:31 | `JSON.parse` reads back the compact or space-indented text `JSON.stringify` writes |
| JsonParse.PrettyParse | http-inspector.js:43 | `JSON.parse` reads back the two-space-indented text |
| FormUrlEncoded.ParseSerialize | http-inspector.js:20 | the query string parses back to exactly the parameters, in order |
| FormUrlEncoded.DecodeEncode | http-inspector.js:20 | decoding the encoded name or value gives it back |
| FormUrlEncoded.Utf8RoundTrip | http-inspector.js:20 | UTF-8 decoding inverts UTF-8 encoding |
| FormUrlEncoded.PercentRoundTrip | http-inspector.js:20 | percent-decoding inverts the serializer's byte encoding |
| FormUrlEncoded.EncodeByte | http-inspector.js:20 | one byte as the serializer writes it: an unreserved byte as itself, a space as `+`, anything else as `%` and two upper-case hex digits. The result never contains `&` or `=` |
| FormUrlEncoded.Serialize | http-inspector.js:20 | `URLSearchParams.toString()`: each pair as `name=value`, encoded, and the pairs joined by `&` in order |
| FormUrlEncoded.Encode | http-inspector.js:20 | an encoded name or value never contains `&` or `=` |
| Request.BuildUrlWithParams | http-inspector.js:18-22 | without parameters the URL is unchanged. With parameters the result is the URL, `?`, then more |
| Request.QueryReadsBack | http-inspector.js:18-22 | the text after the URL and `?` parses back to the given parameters |
| Request.QueryExample | http-inspector.js:18-22 | `http://h/p` with `{"a":"1","b":"2"}` becomes `http://h/p?a=1&b=2` |
| Request.EncodeUnreservedChar | http-inspector.js:20 | an unreserved ASCII character is written as itself |
| Request.HeadersWithToken | http-inspector.js:114 | without a token the headers pass through. With one, the keys are the old keys plus `Authorization` at the end, unless it was already present |
| Request.TokenHeaderLookup | http-inspector.js:114 | with a token, `Authorization` reads `Bearer <token>` and every other header keeps its value |
| Request.TokenHeadersDistinct | http-inspector.js:114 | the merged headers never repeat a name |
| Request.TokenReplacesAuthorization | http-inspector.js:114 | an `Authorization` header already given stays in its place with the token's value |
| Request.TokenOnlyExample | http-inspector.js:114 | `--token T` alone gives `{"Authorization":"Bearer T"}` |
| Request.TokenWithHeadersExample | http-inspector.js:114 | `--token T --headers '{"X":"1"}'` gives `X` then `Authorization` |
| Request.SaveResponse | http-inspector.js:86-88 | an export happens exactly when `--output` is non-empty. An absent, empty or `json` format exports the indented JSON, `csv` exports the CSV text, and any other format is `UnsupportedFormat` |

The token merge on line 114 is the same expression on lines 130, 146
and 162 for the `post`, `put` and `delete` subcommands.

## Left out

- The HTTP call through axios and its error reporting (lines 63-97): this is network I/O.
- Console output, colours and `prettyPrintJSON` (lines 14-16): these are I/O. The JSON text itself is modelled as `Json.Pretty`.
- `measureTime` (lines 9-12): it reads the clock and uses floating point.
- `path.resolve` and `fs.writeFileSync`: these are file I/O. The model gives the content that would be written, or the error that prevents writing.
- The commander setup (lines 99-165): this is argument parsing. Options enter the model as already-parsed values.
- `JSON.parse` of the `--headers`, `--queryParams`, `--data` and `--auth` strings, and the `JSON.stringify` and `JSON.parse` round trip of the merged headers. The model takes the parsed values. A malformed option, which throws in the original, is not represented.
- `--data` and `--auth`: they are passed to the client without being transformed.
- Request.BuildUrlWithParams: takes parameters as string pairs. It does not model the string conversion `URLSearchParams` applies to non-string values.
- Request.HeadersWithToken: takes headers as string pairs. It does not model non-string header values.
- Json: numbers are integers. It does not model fractions, exponents or JavaScript's number-to-string formatting.
- OrderedMap: keeps pure insertion order. It does not model JavaScript's rule that lists integer-like keys first, in ascending order.
- Flattening.ForIn: visits one index per Unicode scalar value of a string, where JavaScript's `for..in` visits one per UTF-16 code unit. For a character at or above U+10000 JavaScript visits two indices, each holding a lone surrogate, which Dafny's `char` cannot hold. The model visits one index holding the whole character.
- Json.EscapeChar: does not model lone UTF-16 surrogates, which Dafny's `char` cannot hold.
- JsonParse.NextChar: does not model `\u` escapes that denote surrogates, including surrogate pairs. It rejects them, while `JSON.parse` combines a pair. The writer never produces such escapes.
- FormUrlEncoded.Utf8Decode: returns None on malformed bytes, where the standard substitutes U+FFFD. The serializer never produces malformed bytes.
- JSON export of `undefined` and of values `JSON.stringify` omits or converts: a parsed response body never holds these.
