# SAJ inverter client: a verified model

This project models how the SAJ inverter integration for Home Assistant reads
an inverter's embedded web server, and proves properties of that model in
Dafny.

The custom integration's `SAJApi` does three things:

- It reads `/param.js` to learn the order of the realtime values. The order
  is the quoted identifiers inside `new Array(...)`. `fetch()` requests
  param.js again on every call until an order (possibly empty) is stored, so
  a transport failure on it is retried on the next poll.
- On every poll it reads `/real_time_data.xml?t=0` and builds a dict. In tag
  mode each child of the root names its own value. In array mode the
  `<value>` elements are zipped with the identifiers.
- It decodes every body itself: a UTF-16 byte-order mark selects UTF-16,
  otherwise UTF-8 is tried, and Latin-1 is the fallback.

The older client in the repository's top-level `api.py` reads the XML only.
It walks the whole tree and keeps every element that carries text and whose
tag differs from the root's tag, so nested elements that share the root's tag
are dropped too. Each kept text is converted by its own `_auto`. The sensor platform makes one sensor per key. Each sensor's name,
unit, state class and ids are derived from the key, and its value is looked
up on each coordinator update.

Modules, one per file:

- `Outcomes` (outcomes.dfy): `Option` and `Result`.
- `Sequences` (sequences.dfy): regrouping and re-joining concatenations,
  cited by the proofs.
- `PyText` (pytext.dfy): Python's `str.isspace` character set, `strip()`,
  `startswith`, and ASCII case mapping.
- `Codecs` (codecs.dfy):
  - UTF-8 as section 4 of RFC 3629 defines it;
  - UTF-16 with a byte-order mark, as in section 3.2 of RFC 2781;
  - Latin-1 (ISO/IEC 8859-1);
  - `DecodeBytes`, the decode branch of `_get_text`.
- `ElementTree` (element_tree.dfy): the element tree the XML parser yields,
  and `iter()` in pre-order.
- `Dicts` (dicts.dfy): a Python dict with insertion order and last-write-wins
  (`d[k] = v`, `dict(pairs)`).
- `Comprehensions` (comprehensions.dfy): `[f(x) for x in xs if keep(x)]`.
- `PyNumbers` (py_numbers.dfy): `int()` and `str()` on integers, and the
  value union `int | float | str`.
- `ParamScript` (param_script.dfy): the two fixed regular expressions of
  `_load_order`, written as scanners. Each scanner is proved to return
  Python's leftmost, non-overlapping result.
- `SajApi` (sajapi.dfy): the custom client. `SajClient` is a class whose
  field `order` is `_order`. Pure functions specify each method, and
  `FetchStep` specifies one `fetch()`.
- `LegacySajApi` (legacy_api.dfy): the top-level `api.py`.
- `Sensor` (sensor.dfy): `_friendly`, `_unit`, the state class, the ids, the
  class `SajSensor`, and `async_setup_entry`.

The environment is passed in as parameters:

- The HTTP GET is `get`, a function from a URL to the response: the body's
  bytes, or a transport failure.
- `ET.fromstring` is `parse`, where None stands for `ET.ParseError`.
- `float()` is `parseFloat`.
- `DOMAIN` is `domain`.

Points of the code's behaviour that the model keeps as written:

- The custom `fetch()` returns the raw value strings. `_load_realtime` never
  calls `_auto`, so no value is converted to a number. `SajApi.Auto` is
  modelled and proved on its own.
- Two errors leave `fetch()` unwrapped, as something other than
  `SAJApiError`:
  - the `UnicodeDecodeError` of a UTF-16 body that is not valid UTF-16
    (`Undecodable`);
  - the `ET.ParseError` of a body that is not well-formed XML (`XmlError`).

  `fetch()` catches only `SAJApiError`, so an undecodable param.js ends the
  whole call.
- The Latin-1 fallback never loses anything. Latin-1 maps every byte to a
  character, so `errors="replace"` never takes effect.
- The pattern `"([^"]+)"` skips empty strings and matches leftmost, so
  `"","a"` yields the single identifier `,` (`ParamScript.CapturesEmptyFirst`).

## Model

| member | source | states |
|---|---|---|
| Codecs.DecodeBytes | custom_components/saj_inverter/api.py:97-102 | a body without a UTF-16 byte-order mark always decodes to some text |
| Codecs.DecodeBytesOrder | custom_components/saj_inverter/api.py:97-102 | decoder precedence: BOM selects UTF-16; otherwise well-formed UTF-8 is UTF-8; otherwise Latin-1, one character per byte |
| Codecs.Utf8Decode | custom_components/saj_inverter/api.py:100 | a decoded UTF-8 text has at most one character per byte |
| Codecs.Utf16Decode | custom_components/saj_inverter/api.py:98 | a BOM-led body of odd length is refused; otherwise the text has at most one character per two bytes after the BOM |
| Codecs.Latin1Decode | custom_components/saj_inverter/api.py:102 | Latin-1 decoding never fails and gives one character per byte |
| Codecs.DecodeUtf8Text | custom_components/saj_inverter/api.py:99-100 | any text sent as UTF-8 is read back unchanged, since its encoding never begins with a BOM |
| Codecs.DecodeUtf16Text | custom_components/saj_inverter/api.py:97-98 | any text sent as UTF-16 (either byte order, with a BOM) is read back unchanged |
| Codecs.DecodeLatin1Fallback | custom_components/saj_inverter/api.py:101-102 | bytes that are neither BOM-led nor UTF-8 give text of the same length whose i-th code point is the i-th byte |
| Codecs.Utf8RoundTrip | custom_components/saj_inverter/api.py:100 | the UTF-8 decoder inverts the RFC 3629 encoder on every string |
| Codecs.Utf8DecodeIsEncoding | custom_components/saj_inverter/api.py:100 | whatever the UTF-8 decoder accepts is the encoding of what it returns (no overlong forms, surrogates or values above U+10FFFF) |
| Codecs.Utf8FirstIsEncoding | custom_components/saj_inverter/api.py:100 | each decoded character comes from exactly its own RFC 3629 byte sequence |
| Codecs.Utf8EncodeBelowF8 | custom_components/saj_inverter/api.py:97-100 | a UTF-8 encoding never starts with FF or FE, so it never looks like a BOM |
| Codecs.UnitsRoundTrip | custom_components/saj_inverter/api.py:98 | surrogate-pair decoding of UTF-16 code units inverts their encoding |
| Codecs.DecodeUnitsIsEncoding | custom_components/saj_inverter/api.py:98 | accepted code units (no lone surrogates) are the encoding of the decoded text |
| Codecs.BytesToUnitsRoundTrip | custom_components/saj_inverter/api.py:98 | code units written in either byte order are read back |
| Codecs.Utf16RoundTrip | custom_components/saj_inverter/api.py:98 | the BOM picks the byte order and is dropped, so encoding with a BOM and decoding is the identity |
| Codecs.Latin1Shape | custom_components/saj_inverter/api.py:102 | Latin-1 keeps the length and maps byte n to code point n |
| Codecs.Latin1RoundTrip | custom_components/saj_inverter/api.py:102 | Latin-1 decoding loses nothing: re-encoding gives the bytes back |
| PyText.Strip | custom_components/saj_inverter/api.py:107 | `strip()` returns text that neither starts nor ends with whitespace and is no longer than its input |
| PyText.StripSplit | custom_components/saj_inverter/api.py:107 | the input is whitespace, then the stripped text, then whitespace |
| PyText.StripIdempotent | custom_components/saj_inverter/api.py:107 | stripping twice is stripping once |
| PyText.StripPadding | custom_components/saj_inverter/api.py:107 | whitespace added on either side does not change the result of `strip()` |
| PyText.StripInside | custom_components/saj_inverter/api.py:107 | `strip()` introduces no character |
| PyNumbers.ParseShowInt | custom_components/saj_inverter/api.py:111 | `int(str(n)) == n` for every integer |
| PyNumbers.ParseInt | custom_components/saj_inverter/api.py:111 | an accepted literal is surrounded only by whitespace `int()` skips (not FS..US), ends in a digit once stripped, and is negative only when it starts with `-` |
| PyNumbers.ParseIntPadded | custom_components/saj_inverter/api.py:111 | `int()` ignores whitespace other than FS..US (U+001C-U+001F) around the literal |
| PyNumbers.ParseIntSeparator | custom_components/saj_inverter/api.py:111 | `int()` refuses a literal preceded by FS, although `strip()` removes it |
| PyNumbers.ParseIntLeadingZeros | custom_components/saj_inverter/api.py:111 | `int("007") == 7` |
| PyNumbers.ParseIntSigned | custom_components/saj_inverter/api.py:111 | `int("-12") == -12` |
| PyNumbers.ParseIntUnderscore | custom_components/saj_inverter/api.py:111 | `int("1_000") == 1000` |
| PyNumbers.ParseIntDoubleUnderscore | custom_components/saj_inverter/api.py:111 | `int("1__0")` fails |
| PyNumbers.ParseIntSpaceAfterSign | custom_components/saj_inverter/api.py:111 | `int("- 5")` fails |
| PyNumbers.ShowIntNoDot | custom_components/saj_inverter/api.py:109-111 | `str(n)` holds no `.`, so it takes the int path |
| ParamScript.ArrayAtComplete | custom_components/saj_inverter/api.py:54 | wherever `new\s+Array\s*\((.*?)\)` can match at a position, the scanner finds it there, with greedy whitespace runs and the first `)` |
| ParamScript.SearchArray | custom_components/saj_inverter/api.py:54 | a match the scanner returns is a match of `new\s+Array\s*\((.*?)\)` at its start, with its `(` and first `)` |
| ParamScript.Captures | custom_components/saj_inverter/api.py:59 | each capture takes at least three characters of the text (two quotes and one character) |
| ParamScript.OrderFromScript | custom_components/saj_inverter/api.py:54-59 | no `new Array(` match gives the empty order; every identifier is non-empty and holds no `"` |
| ParamScript.SearchArrayCorrect | custom_components/saj_inverter/api.py:54 | the scanner returns `re.search`'s match (leftmost start, greedy `\s`, lazy group), and finds none exactly when the pattern matches nowhere |
| ParamScript.CapturesIsFindAll | custom_components/saj_inverter/api.py:59 | the quote scanner returns `re.findall(r'"([^"]+)"', …)`: leftmost match, then the matches in the rest after it |
| ParamScript.FindAllUnique | custom_components/saj_inverter/api.py:59 | that description of `findall` has exactly one answer |
| ParamScript.CapturesWellFormed | custom_components/saj_inverter/api.py:59 | every identifier found is non-empty and holds no `"` |
| ParamScript.OrderFromScriptCorrect | custom_components/saj_inverter/api.py:54-59 | no match gives the empty order (tag mode); a match gives the `findall` captures of its group, each non-empty and without `"` |
| ParamScript.OrderRoundTrip | custom_components/saj_inverter/api.py:54-59 | identifiers written as `new Array("a","b",…)` are read back in order with duplicates kept |
| ParamScript.CapturesEmptyFirst | custom_components/saj_inverter/api.py:59 | `"","a"` yields the one capture `,`, not `a` |
| SajApi.GetTextOf | custom_components/saj_inverter/api.py:84-102 | `_get_text` fails only by the transport (`SAJApiError` for the URL) or by an undecodable UTF-16 body; on success it returns the decoded body |
| SajApi.GetTextNoBom | custom_components/saj_inverter/api.py:97-102 | a body without a BOM always yields text: UTF-8 when well-formed, Latin-1 otherwise |
| SajApi.GetTextUtf8 | custom_components/saj_inverter/api.py:99-100 | whatever text the inverter sends as UTF-8 is what `_get_text` returns |
| SajApi.ValueTextsMember | custom_components/saj_inverter/api.py:75 | the array-mode values are the texts (or `""`) of the elements anywhere in the tree, root included, whose lowercased tag is `value` |
| SajApi.ValueTextsPreOrder | custom_components/saj_inverter/api.py:75 | those values come in pre-order: the root's first, then each child's subtree in turn |
| SajApi.ValueTexts | custom_components/saj_inverter/api.py:75 | there are at most as many values as elements in the tree |
| SajApi.TagModeSnapshot | custom_components/saj_inverter/api.py:72 | the tag-mode dict is a well-formed dict with at most one key per child of the root |
| SajApi.TagModeKeys | custom_components/saj_inverter/api.py:71-72 | in tag mode the keys are exactly the tags of the root's direct children, listed in the order of their first occurrence |
| SajApi.TagModeLastWins | custom_components/saj_inverter/api.py:72 | in tag mode a later child with the same tag overwrites an earlier one |
| SajApi.ArrayModeSnapshot | custom_components/saj_inverter/api.py:75-81 | array mode fails exactly when the value count differs from the identifier count, with an `SAJApiError` naming both counts |
| SajApi.ArrayModeKeys | custom_components/saj_inverter/api.py:81 | in array mode the keys are exactly the identifiers, in order of first occurrence |
| SajApi.ArrayModeLastWins | custom_components/saj_inverter/api.py:81 | identifier i takes the i-th value unless it recurs later, in which case the later value wins |
| SajApi.Snapshot | custom_components/saj_inverter/api.py:71-81 | an order that is None or empty selects tag mode, anything else array mode; the only error is the length mismatch |
| SajApi.RealtimeOf | custom_components/saj_inverter/api.py:63-81 | `_load_realtime` passes on a `_get_text` failure, reports unparsable XML, and otherwise builds the snapshot from the parsed tree |
| SajApi.FetchKeepsOrder | custom_components/saj_inverter/api.py:40-46 | once an order (empty or not) is stored, `fetch` keeps it and requests only the XML |
| SajApi.FetchRetriesAfterTransportFailure | custom_components/saj_inverter/api.py:40-46 | a transport failure on param.js is swallowed: the order stays None (retried next call) and this poll runs in tag mode |
| SajApi.FetchStoresOrder | custom_components/saj_inverter/api.py:49-60 | a readable param.js stores what the two regular expressions find |
| SajApi.FetchUndecodableScript | custom_components/saj_inverter/api.py:40-44 | an undecodable param.js is not an `SAJApiError`: the call ends with it and the XML is not requested |
| SajApi.FetchStep | custom_components/saj_inverter/api.py:38-46 | a stored order is never changed, and a missing one can only become known; a transport failure that surfaces is always that of the XML, and an undecodable body is param.js or the XML |
| SajApi.FetchRequests | custom_components/saj_inverter/api.py:38-46 | one call makes one or two requests: the XML alone exactly when an order is stored, otherwise param.js first |
| SajApi.OrderSetOnce | custom_components/saj_inverter/api.py:38-60 | over any series of calls the order is set at most once: a stored order never changes |
| SajApi.SajClient.constructor | custom_components/saj_inverter/api.py:26-30 | the base URL is `http://<host>` and no order is known |
| SajApi.SajClient.GetText | custom_components/saj_inverter/api.py:84-102 | requests `base + path` and returns its decoded body or the error |
| SajApi.SajClient.LoadOrder | custom_components/saj_inverter/api.py:49-60 | requests param.js; on success `_order` becomes the scanned identifiers, and on failure it is untouched |
| SajApi.SajClient.LoadRealtime | custom_components/saj_inverter/api.py:63-81 | requests the XML with `?t=0` and returns `RealtimeOf` for the current order |
| SajApi.SajClient.Fetch | custom_components/saj_inverter/api.py:38-46 | the new order, the result and the requests made are those of `FetchStep` and `FetchRequests` |
| SajApi.PollTwice | custom_components/saj_inverter/api.py:38-46 | with a readable param.js, two polls of a fresh client both use the order read on the first, and the request log is param.js, then the XML twice |
| SajApi.Auto | custom_components/saj_inverter/api.py:104-113 | `_auto` gives the stripped text, an int only for a `.`-free int literal; a stripped text holding `.` becomes a float exactly when `float()` accepts it, and one without `.` an int exactly when `int()` accepts it |
| SajApi.AutoInt | custom_components/saj_inverter/api.py:107-111 | a `.`-free text whose stripped form is an int literal becomes that int |
| SajApi.AutoText | custom_components/saj_inverter/api.py:111-113 | a `.`-free text whose stripped form is no int literal is returned stripped |
| SajApi.AutoShowInt | custom_components/saj_inverter/api.py:111 | `_auto(str(n)) == n` |
| SajApi.AutoLeadingZeros | custom_components/saj_inverter/api.py:111 | `_auto("007") == 7` |
| SajApi.AutoTextStable | custom_components/saj_inverter/api.py:107-113 | text that `_auto` returns is returned unchanged when fed back |
| Dicts.Put | custom_components/saj_inverter/api.py:72 | `d[k] = v`: k maps to v, other keys are unchanged, a new key is appended and an existing key keeps its place |
| Dicts.Get | custom_components/saj_inverter/sensor.py:62 | `d.get(k)` is None exactly when k is missing, and otherwise the value of k |
| Dicts.FromPairs | custom_components/saj_inverter/api.py:81 | `dict(pairs)` is a well-formed dict with at most one key per pair |
| Dicts.FromPairsKeys | custom_components/saj_inverter/api.py:81 | the keys of `dict(pairs)` are exactly the first components of the pairs |
| Dicts.FromPairsLastWins | custom_components/saj_inverter/api.py:81 | a key maps to the value of its last pair |
| Dicts.FromPairsOrder | custom_components/saj_inverter/api.py:81 | keys are listed in the order of their first occurrence |
| ElementTree.IterVisitsSubtree | custom_components/saj_inverter/api.py:75 | `iter()` visits exactly the element and everything below it |
| ElementTree.Iter | custom_components/saj_inverter/api.py:75 | `iter()` starts with the element itself |
| Comprehensions.FilterMapAppend | api.py:36-40 | a comprehension over a concatenation is the concatenation of the comprehensions |
| Comprehensions.FilterMapMember | api.py:36-40 | an item comes out exactly when some kept input produces it |
| Comprehensions.FilterMap | api.py:36-40 | a comprehension yields at most one item per input, and exactly one when every input is kept |
| LegacySajApi.NewClient | api.py:17-18 | the URL is `http://`, then the host, then `/real_time_data.xml` |
| LegacySajApi.NewClientInjective | api.py:18 | different hosts give different URLs |
| LegacySajApi.LegacyAuto | api.py:42-50 | `_auto` strips only on failure: the text result is the stripped value; a `.`-free text becomes an int exactly when `int()` accepts it unstripped (so FS..US padding leaves text); a `.`-holding text that `float()` accepts unstripped becomes that float, and floats come only that way |
| LegacySajApi.LegacyAutoBlank | api.py:49-50 | whitespace-only text becomes `""` |
| LegacySajApi.LegacyAutoPaddedInt | api.py:46-48 | an int literal surrounded by whitespace other than FS..US becomes that int |
| LegacySajApi.LegacyAutoAgrees | api.py:42-50 | without a `.`, and when what `strip()` removes holds no FS..US, the older `_auto` agrees with the custom one |
| LegacySajApi.LegacyAutoSeparator | api.py:42-50 | the two helpers differ on `"\x1c5"`: the older one returns the text `"5"`, the custom one the int 5 |
| LegacySajApi.LegacyFetch | api.py:21-40 | a dict is produced exactly when the GET gives text and it parses; a parse failure is an `SAJApiError`, and no partial dict is produced |
| LegacySajApi.LegacySnapshot | api.py:36-40 | a well-formed dict with fewer keys than the tree has elements, since the root never gives one |
| LegacySajApi.LegacyKeys | api.py:36-40 | the keys are exactly the tags of elements at any depth whose text is non-empty and whose tag differs from the root's |
| LegacySajApi.LegacyRootTagExcluded | api.py:39 | the root's tag is never a key, even when a nested element carries it |
| LegacySajApi.LegacyLastWins | api.py:36-40 | with repeated tags the element last in document order gives the value |
| Sensor.ReplaceAll | custom_components/saj_inverter/sensor.py:18-23 | `replace` introduces only characters of the text or the replacement |
| Sensor.ReplaceAllAbsent | custom_components/saj_inverter/sensor.py:18-23 | where the pattern does not occur, `replace` changes nothing |
| Sensor.ReplaceAllRemoves | custom_components/saj_inverter/sensor.py:23 | replacing `-` by a space leaves no `-` |
| Sensor.ReplaceAllFirst | custom_components/saj_inverter/sensor.py:19-23 | the leftmost occurrence is replaced: the text before it is kept, and the scan resumes after it, so occurrences never overlap |
| Sensor.TitleFromShape | custom_components/saj_inverter/sensor.py:24 | `title()` per character: letters keep identity, a letter is upper case exactly when it does not follow a letter, other characters are kept |
| Sensor.TitleFromAppend | custom_components/saj_inverter/sensor.py:24 | title case of a concatenation depends on the first part only through its last character |
| Sensor.TitleFromAt | custom_components/saj_inverter/sensor.py:24 | character `i` of the title case is the lowered character when the one before it is a letter, and the raised one otherwise |
| Sensor.TitleShape | custom_components/saj_inverter/sensor.py:24 | the same shape stated on the result: a letter is upper case exactly when the preceding output character is not a letter |
| Sensor.Title | custom_components/saj_inverter/sensor.py:24 | title case keeps the length |
| Sensor.TitleKeepsAbsent | custom_components/saj_inverter/sensor.py:24 | title case adds no character that is not a letter |
| Sensor.Friendly | custom_components/saj_inverter/sensor.py:17-25 | a display name contains no `-` and is title-cased: a letter is upper case exactly when the character before it is not a letter |
| Sensor.FriendlyVoltage | custom_components/saj_inverter/sensor.py:17-25 | `_friendly("v-pv1") == "Voltage Pv1"` |
| Sensor.Unit | custom_components/saj_inverter/sensor.py:28-37 | a key has a unit exactly when it starts with one of the eight known prefixes, and the unit is V, A, W or kWh |
| Sensor.UnitByPrefix | custom_components/saj_inverter/sensor.py:28-37 | V exactly for `v-`/`vbus`/`vac`, A for `i-`/`iac`, W for `p-`/`pac`, kWh for `e-`, None for any other key |
| Sensor.StateClassOf | custom_components/saj_inverter/sensor.py:49-53 | total-increasing exactly for kWh, measurement exactly for V, A and W, and none for any other unit or no unit |
| Sensor.StateClassByPrefix | custom_components/saj_inverter/sensor.py:49-53 | measurement exactly for the V/A/W prefixes, total-increasing exactly for `e-`, none exactly when there is no unit |
| Sensor.UniqueId | custom_components/saj_inverter/sensor.py:55 | the unique id is the domain, then `_`, then the key |
| Sensor.EntityId | custom_components/saj_inverter/sensor.py:58 | the entity id is `sensor.sajinv_` followed by the key |
| Sensor.IdsInjective | custom_components/saj_inverter/sensor.py:55-58 | different keys give different unique ids and different entity ids |
| Sensor.SajSensor.constructor | custom_components/saj_inverter/sensor.py:43-58 | name, unit, state class, `DOMAIN_key` unique id and `sensor.sajinv_key` entity id, no value yet |
| Sensor.SajSensor.HandleCoordinatorUpdate | custom_components/saj_inverter/sensor.py:60-63 | the value becomes `data.get(key)`: the entry, or None when the key is missing |
| Sensor.SetupEntry | custom_components/saj_inverter/sensor.py:70-76 | one new sensor per key of the data, in key order, all distinct; sensor i has key i, its display name, unit, state class and both ids, and no value yet |
| Sensor.SetupIdsDistinct | custom_components/saj_inverter/sensor.py:76 | the sensors of one dict have pairwise distinct entity ids and unique ids |

## Left out

- aiohttp sessions, `async_timeout`, `async_close` and the async scheduling. These are I/O: each GET is the `get` parameter, and a timeout is one more transport failure.
- `resp.raise_for_status()` and `resp.text()` in `api.py`. These are library calls: their outcomes are the three cases of `LegacySajApi.Page`.
- `ET.fromstring`. It is a library parser: its outcome is the `parse` parameter. Attributes, tail text, comments and namespaces are not modelled.
- `float()`. It is floating-point parsing: `parseFloat` stands for it, so the `.` branches of both `_auto` helpers are stated up to that parameter.
- Python's general regular-expression engine. Only the two fixed patterns of `_load_order` are modelled.
- `PyNumbers.ParseInt`: Python refuses integer literals of more than 4300 digits with a `ValueError`; the model has no such limit.
- `PyNumbers.ParseShowInt`: `str(n)` of an integer above 4300 digits raises in Python; the model proves the round trip for every integer.
- `SajApi.Auto`, `SajApi.AutoInt`: a `.`-free literal of more than 4300 digits would be returned as text by Python's `_auto`; the model returns the int. `parseFloat` yields a real, so `inf`, `nan` and `-0.0` are not modelled.
- `SajApi.AutoShowInt`: holds only below Python's 4300-digit limit on `int`/`str` conversion, which the model does not have.
- `LegacySajApi.LegacyAuto`: the same 4300-digit limit and the same real-valued `float()` (no `inf`, `nan` or `-0.0`) as `SajApi.Auto`.
- `SajApi.Auto`, `PyNumbers.ParseInt`: non-ASCII decimal digits, which Python's `int()` also accepts, are treated as non-digits.
- `Sensor.Title`, `PyText.ToLower`: case mapping is ASCII only. Non-ASCII letters are treated as uncased. The `lower() == "value"` test is exact as stated, since only ASCII letters lower to `v a l u e`.
- Logging (`_LOGGER.debug`). It has no effect on results.
- `async_added_to_hass`, the coordinator listener, and `async_write_ha_state`. These are Home Assistant plumbing; only the value lookup of `_handle_coordinator_update` is modelled.
- `config_flow.py`, `__initi__.py` (so named in the repository) and `coordinator.py`. These are setup and UI wiring outside the client.
- The `DOMAIN` constant of `const.py`. const.py is not part of this model, so `DOMAIN` is the parameter `domain`.
