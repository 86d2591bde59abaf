# pyjector in Dafny

A model of the core of pyjector, a driver that controls a projector over a
serial port. The model covers two parts.

**Configuration resolution.** A device profile is looked up by id in a
catalog. The caller's overrides are merged into it one level deep. The
profile must have a `serial` section and a non-empty `command_list`. The
`serial` block is checked against the serial-port library's eleven setting
names, and `bytesize`, `parity` and `stopbits` are translated in place
through fixed tables into the library's constants.

**Command dispatch.** The wire string is
`left_surround + command + seperator + action + right_surround`, with each
missing field read as `''`. A response is read by draining the port's inbound
buffer one byte at a time.

Modules:

- `Values` (values.dfy): configuration values as parsed from JSON. Python
  dicts are modelled as association lists with Python's lookup, item
  assignment and `dict.update`.
- `Config` (config.dfy): the error taxonomy, device lookup, validation, the
  allow-list and the translation tables. It also holds `TranslateBlock` and
  `TranslateInPlace`, two pure functions that specify the translation loop,
  and the whole resolution `Resolve` with the lemmas about it.
- `Commands` (commands.dfy): the command table, the rendering of the template
  fields, the command string and its inverse.
- `Device` (device.dfy): two classes.
  - `SerialPort` holds the inbound buffer.
  - `Pyjector` holds the catalog, the resolved profile and the translated
    serial settings. Its methods update that state as the source does.

Modelling decisions:

- A dict is a list of (key, value) pairs. The list stands for the dict's
  iteration order, which the model takes as given. Order matters in two
  places:
  - the first offending setting in iteration order decides which error the
    translation raises, and which settings are already translated when it
    does;
  - in the model, `dict.update` keeps existing keys in place and appends new
    ones in override order.
- Python compares table keys by value.
  - `8.0` equals `8`, and `true` equals `1`. So a `stopbits` of `true` is
    accepted as one stop bit, and a `bytesize` of `8.0` as eight bits.
  - A JSON float is modelled as the exact rational it denotes (`Num`).
  - A list or object value for a translated key cannot be hashed. Python then
    raises `TypeError`, which `except KeyError` does not catch. The model
    gives it its own error, `Unhashable`.
- The serial-port library's constants are opaque (`SerialConst`).
- Aliasing:
  - The profile object is the catalog's entry. `Pyjector.Valid()` keeps that
    invariant (`availableConfigs[deviceId] == config`), and every in-place
    update writes both.
  - The settings returned by the translation are the profile's own `serial`
    block (`PyserialConfigInPlace`).
- On a failed translation, the entries before the failing one stay
  translated inside the profile (`TranslateInPlace`).
- The catalog, which the source reads from JSON files, and the bytes pending
  on the port are parameters of the model.
- Code and docstring disagree on overrides, and the model follows the code.
  - The docstrings (pyjector/pyjector.py:65-67, 123-126) say overrides reach
    the serial settings.
  - The code merges them into the top level of the profile (line 131).
  - So only an override of the whole `serial` key changes the serial
    settings (`OverridesReachSerialOnlyWhole`, `SerialOverrideReplacesBlock`).
- `get_config` receives the same device id that `__init__` stores on the
  object, so the model looks the profile up by the object's `deviceId`.

## Model

| member | source | states |
|---|---|---|
| `Values.Keys` | pyjector/pyjector.py:165 | the keys of a dict, in iteration order, one per entry |
| `Values.Find` | pyjector/pyjector.py:91-98 | the position of a key is the first entry carrying it; absent exactly when the key is not among the keys |
| `Values.Get` | pyjector/pyjector.py:242-246 | `dict.get` finds a value exactly when the key is present, and the value found is the one stored at the key's first (in a Python dict, only) position |
| `Values.GetStored` | pyjector/pyjector.py:164 | in a dict with distinct keys, looking up the key of any stored pair gives that pair's value |
| `Values.Put` | pyjector/pyjector.py:176-177 | item assignment: the key then maps to the new value, every other key keeps its value, a present key keeps its position, a new key is appended, keys stay distinct |
| `Values.Update` | pyjector/pyjector.py:131 | `dict.update` never removes an entry and keeps the keys distinct |
| `Values.UpdateGet` | pyjector/pyjector.py:120-131 | after `dict.update`, each override key maps to the override's value (a nested object is replaced whole), every other key keeps its value |
| `Values.UpdateKeys` | pyjector/pyjector.py:131 | `dict.update` keeps existing keys at their positions and keeps keys distinct; the new key set is the union of both |
| `Config.LookupDevice` | pyjector/pyjector.py:133-150 | a present id yields exactly the catalog entry; an absent id fails with an error naming the id and the catalog directory |
| `Config.PyLen` | pyjector/pyjector.py:98 | `len()` is defined exactly for strings, lists and objects |
| `Config.Validate` | pyjector/pyjector.py:89-103 | passes exactly when `serial` is present and `command_list` is present with non-zero length; no `serial` fails first, an absent or empty `command_list` fails next, a `command_list` without a length fails with TypeError |
| `Config.ValidateIgnoresSerialContents` | pyjector/pyjector.py:91 | validation depends only on the presence of `serial`, not on its value (an empty block passes) |
| `Config.TranslateEntry` | pyjector/pyjector.py:166-186 | one setting succeeds only if its key is allow-listed; a translated key then holds a library constant, any other keeps its value; an error names this key (and value) as one of unknown setting, unhashable value, unsupported value |
| `Config.TranslateEntryCases` | pyjector/pyjector.py:165-186 | a key outside the allow-list fails naming the key; an allow-listed key without a table passes unchanged; a list or object value of a translated key fails as unhashable; a translated key that succeeds holds a library constant |
| `Config.ByteSizeDomain` | pyjector/pyjector.py:23-28 | `bytesize` translates exactly when it equals 5, 6, 7 or 8 as a number; otherwise it fails naming key and value |
| `Config.ParityDomain` | pyjector/pyjector.py:29-35 | `parity` translates exactly when it is one of none, even, odd, mark, space; otherwise it fails naming key and value |
| `Config.StopBitsDomain` | pyjector/pyjector.py:36-40 | `stopbits` translates exactly when it equals 1, 1.5 or 2 as a number; otherwise it fails naming key and value |
| `Config.ConvertInjective` | pyjector/pyjector.py:22-42 | the tables are one-to-one: inputs mapped to the same constant are equal as Python compares them |
| `Config.TranslateBlock` | pyjector/pyjector.py:165-187 | a successful translation of a `serial` block keeps its keys in order |
| `Config.TranslateInPlace` | pyjector/pyjector.py:174-177 | the block as the loop leaves it has the input's keys in the input's order |
| `Config.TranslateBlockOk` | pyjector/pyjector.py:164-187 | translating a block succeeds exactly when every entry translates; the result then has the input's keys in order, each entry's translation, and equals the in-place updated block |
| `Config.TranslateBlockFirstError` | pyjector/pyjector.py:165-186 | when every entry before position i translates and entry i fails, the whole translation fails with entry i's error |
| `Config.TranslateInPlaceFirstError` | pyjector/pyjector.py:174-186 | when entry i is the first failing one, the block is left with the entries before i translated and the rest untouched |
| `Config.TranslateAllowListed` | pyjector/pyjector.py:18-21 | on success every key of the result is one of the eleven allow-listed names; any key outside the list makes translation fail |
| `Config.TranslateValues` | pyjector/pyjector.py:174-177 | on success the key sequence is unchanged, each of bytesize/parity/stopbits holds its table image and every other setting is unchanged |
| `Config.PyserialConfig` | pyjector/pyjector.py:152-187 | no `serial` key fails with KeyError and a `serial` that is not an object fails; success means `serial` is an object, the settings have its keys in order, and every key is allow-listed |
| `Config.PyserialConfigInPlace` | pyjector/pyjector.py:164-187 | the returned settings are the profile's own `serial` block after the update; nothing else in the profile changes |
| `Config.Resolve` | pyjector/pyjector.py:76-87 | an unknown id fails with the not-found error whatever the overrides; a merged profile that fails validation fails with that error; once the profile is found and the merge validates, resolution succeeds exactly when its `serial` block translates, and otherwise fails with the translation's error; a resolved profile passes validation |
| `Config.ConfigAfterResolved` | pyjector/pyjector.py:76-87 | after a successful resolution the profile left behind is the resolved profile |
| `Config.ResolvedIsValid` | pyjector/pyjector.py:76-87 | a resolved profile holds the returned settings as its `serial` block, has a non-empty command table, and every setting key is allow-listed |
| `Config.OverridesReachSerialOnlyWhole` | pyjector/pyjector.py:131 | overrides that do not name `serial` leave the serial settings those of the catalog profile |
| `Config.SerialOverrideReplacesBlock` | pyjector/pyjector.py:120-131 | an override of `serial` replaces the block whole: the settings are the override's block, translated |
| `Config.SerialOverrideExample` | pyjector/pyjector.py:131 | profile `serial: {port: "A", baudrate: 9600}` overridden with `serial: {port: "B"}` gives exactly `{port: "B"}` |
| `Commands.CommandSpec` | pyjector/pyjector.py:251-265 | `command_spec` is the `command_list` section; an absent one fails with KeyError |
| `Commands.ValidatedCommandSpec` | pyjector/pyjector.py:97-103 | after validation passes, the command table exists and has non-zero length |
| `Commands.CreateCommandString` | pyjector/pyjector.py:237-249 | for every input, the wire string is left surround, command, separator, action, right surround, each at its own place (absent fields as `''`), and exactly as long as those five together; when the separator is non-empty and no occurrence of it starts inside the command alias, the string parses back to exactly the command and action |
| `Commands.CommandStringExample` | pyjector/pyjector.py:237-249 | with `(`, `:`, `)` as fields, power/on gives `(power:on)` |
| `Commands.CommandStringDefaults` | pyjector/pyjector.py:242-246 | absent template fields read as `''`: the string is command followed by action |
| `Commands.CommandStringIgnoresOtherKeys` | pyjector/pyjector.py:239-247 | the wire string depends only on the three template fields; the tokens in `command_list` play no part, and the aliases are used verbatim |
| `Commands.ParseCommandStringSound` | pyjector/pyjector.py:239-248 | every string the parser accepts is the command string of the pair it returns |
| `Device.SerialPort.InWaiting` | pyjector/pyjector.py:233 | the count of pending bytes |
| `Device.SerialPort.Read1` | pyjector/pyjector.py:234 | removes and returns the oldest pending byte |
| `Device.Pyjector.constructor` | pyjector/pyjector.py:70-71 | stores port, device id and serial port; nothing resolved yet |
| `Device.Pyjector.New` | pyjector/pyjector.py:44-72 | construction up to the opening of the port succeeds exactly when resolution does, with resolution's error otherwise; the new object stores the port, device id and serial port, holds the resolved profile and settings, and its catalog is the given one with the device's entry being the resolved profile |
| `Device.Pyjector.GetConfig` | pyjector/pyjector.py:76-87 | outcome, profile, settings and catalog afterwards are those of the resolution, including the partial state a failure leaves |
| `Device.Pyjector.ApplyOverrides` | pyjector/pyjector.py:120-131 | the profile becomes `dict.update` of the old one with the overrides; the catalog entry, the same object, changes with it |
| `Device.Pyjector.GetPyserialConfig` | pyjector/pyjector.py:152-187 | returns the translation of the profile's `serial` block and leaves the profile (and its catalog entry) with that block updated in place |
| `Device.TranslateSerialBlock` | pyjector/pyjector.py:165-186 | the loop's outcome is `TranslateBlock` of the block and the block it leaves is `TranslateInPlace` of it |
| `Device.Pyjector.GetResponse` | pyjector/pyjector.py:230-235 | returns exactly the pending bytes in order and leaves the buffer empty; an empty buffer gives `''` |

## Left out

- `_populate_configs` (pyjector/pyjector.py:105-118): listing the directory and parsing JSON is file I/O. The catalog is a parameter (`map<string, Dict>`) whose entries are JSON objects.
- `_initialize_pyserial` (pyjector/pyjector.py:189-203) and the real `serial.Serial` object: a foreign library. The port is the abstract `SerialPort`, handed to the constructor. The model also leaves out a Python-level failure of line 203: a `port` key inside the `serial` block would repeat the explicit `port` keyword argument.
- `_command_handler` (pyjector/pyjector.py:205-218): the `print` is output, the write goes to the foreign port and the `sleep` is a timing effect. Line 217 passes two arguments to `sleep`, so as written the send/wait/receive cycle cannot complete normally. No successful cycle is modelled.
- `_create_commands` (pyjector/pyjector.py:220-228): attributes are created dynamically with `setattr`, one handler per entry of `command_spec`. Only `CommandSpec` is modelled. This step can fail after a successful resolution: a `command_list` such as `[1]` passes validation, but `setattr` then raises TypeError on the non-string name. So `Device.Pyjector.New` covers `__init__` only up to line 72.
- The `__main__` block (pyjector/pyjector.py:269-271).
- The concrete values of the serial-port library's constants. Because they are opaque, translating an already-translated block a second time fails in the model. The real outcome would depend on the library's values.
- Commands.CreateCommandString: it requires every template field that is present to be a string, integer, boolean or null. Python would also insert the `str()` form of a float, a list or an object, which the model does not define.
- Values.Update: Python 2 iterates a dict parsed from JSON in hash order, and adding a key can reorder the others. The model neither computes that order nor reorders: a dict's list is its iteration order taken as given, and `Update` appends new keys in override order.
- Aliasing of overrides: a `serial` object passed as a keyword override goes into the profile by reference (line 131) and is then translated in place (lines 176-177), so the caller's own object changes too. The model takes overrides as values and does not capture that change.
- Device.Pyjector.New: the defaults `port=None` and `device_id='benq'` (lines 46-47) are not modelled; the caller passes both.
- Device.Pyjector.GetResponse: the port's buffer is fixed when the drain starts. Bytes that arrive while `_get_response` loops (line 233) are read too in the source, and a device that never pauses keeps that loop running; the model does not capture either.
- Commands.CreateCommandString: strings are sequences of characters. Python 2's ASCII encoding of a unicode field inserted into a byte-string template is not modelled. Non-ASCII characters there would raise `UnicodeEncodeError`.
- Device.SerialPort.Read1: on an empty buffer it returns `''`, as a read with an expired timeout does. `GetResponse` reads only while bytes are pending.
- Floating point: JSON floats are exact rationals in the model. Rounding of decimal literals to binary floats is not modelled.
- Duplicate keys in a JSON object (Python keeps the last one) are not modelled: parsed objects are taken to have distinct keys.
- Error messages: the message text is not modelled. The errors pyjector raises itself carry the data their messages name: `DeviceNotFound`, `MissingSerial`, `NoCommands`, `UnsupportedSetting` and `UnsupportedValue`. `MissingKey` stands for Python's KeyError on a missing key, whose message is the key it carries. `NoLength`, `Unhashable` and `NotAMapping` stand for Python's own TypeError and AttributeError, whose messages name only the value's type. These three carry the key, only to tell the cases apart.
