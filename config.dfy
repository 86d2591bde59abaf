/** Configuration resolution: finding a device profile in the catalog,
    checking that it has the sections the driver needs, and translating its
    `serial` block into the settings the serial-port library accepts. */
module Config {
  import opened Values

  /** Directory the catalog is read from; the not-found error names it. */
  const ConfigDir: string := "pyjector/projector_configs/"

  /** The exceptions the resolution step raises. */
  datatype Error =
    | DeviceNotFound(deviceId: string, location: string)   // KeyError: no profile for the id
    | MissingSerial(deviceId: string)                      // KeyError: no `serial` section
    | NoCommands(deviceId: string)                         // KeyError: no or empty `command_list`
    | NoLength(key: string)                                // TypeError: len() of a number, bool or null
    | MissingKey(key: string)                              // KeyError: plain subscript of an absent key
    | NotAMapping(key: string)                             // AttributeError: `.items()` of a non-object
    | UnsupportedSetting(deviceId: string, key: string)    // KeyError: serial key outside the allow-list
    | UnsupportedValue(deviceId: string, key: string, value: Value) // KeyError: value outside its table
    | Unhashable(key: string, value: Value)                // TypeError: a list or object used as a table key

  datatype Result<T> = Ok(value: T) | Err(error: Error)

  datatype Outcome = Pass | Fail(error: Error)

  // ---------------------------------------------------------------------
  // Device lookup

  /** The profile stored in the catalog under `deviceId`. */
  function LookupDevice(catalog: map<string, Dict>, deviceId: string): (r: Result<Dict>)
    ensures r.Ok? <==> deviceId in catalog
    ensures r.Ok? ==> r.value == catalog[deviceId]
    ensures r.Err? ==> r.error == DeviceNotFound(deviceId, ConfigDir)
  {
    if deviceId in catalog then Ok(catalog[deviceId]) else Err(DeviceNotFound(deviceId, ConfigDir))
  }

  // ---------------------------------------------------------------------
  // Validation

  /** Python's `len(v)`: defined for strings, lists and objects only. */
  function PyLen(v: Value): (n: Option<nat>)
    ensures n.Some? <==> v.Str? || v.List? || v.Obj?
  {
    match v
    case Str(s) => Some(|s|)
    case List(items) => Some(|items|)
    case Obj(fields) => Some(|fields|)
    case _ => None
  }

  /** The profile defines at least one command. */
  predicate HasCommands(config: Dict) {
    match Get(config, "command_list")
    case None => false
    case Some(cl) => PyLen(cl).Some? && PyLen(cl).value > 0
  }

  /** The sanity check run on the merged profile. It looks only at whether a
      `serial` key exists, not at what it holds. */
  function Validate(deviceId: string, config: Dict): (r: Outcome)
    ensures r == Pass <==> "serial" in Keys(config) && HasCommands(config)
    ensures "serial" !in Keys(config) ==> r == Fail(MissingSerial(deviceId))
    ensures "serial" in Keys(config) && "command_list" !in Keys(config) ==> r == Fail(NoCommands(deviceId))
    ensures ("serial" in Keys(config) && Get(config, "command_list").Some? &&
             PyLen(Get(config, "command_list").value) == Some(0)) ==> r == Fail(NoCommands(deviceId))
    ensures ("serial" in Keys(config) && Get(config, "command_list").Some? &&
             PyLen(Get(config, "command_list").value).None?) ==> r == Fail(NoLength("command_list"))
    ensures r.Fail? ==> r.error in {MissingSerial(deviceId), NoCommands(deviceId), NoLength("command_list")}
  {
    if "serial" !in Keys(config) then Fail(MissingSerial(deviceId))
    else match Get(config, "command_list")
      case None => Fail(NoCommands(deviceId))
      case Some(cl) =>
        match PyLen(cl)
        case None => Fail(NoLength("command_list"))
        case Some(n) => if n == 0 then Fail(NoCommands(deviceId)) else Pass
  }

  /** Validation accepts a `serial` section that is present but empty, or
      that is not an object at all. */
  lemma ValidateIgnoresSerialContents(deviceId: string, config: Dict, v: Value)
    requires "serial" in Keys(config)
    ensures Validate(deviceId, Put(config, "serial", v)) == Validate(deviceId, config)
  {
  }

  // ---------------------------------------------------------------------
  // Serial settings: the allow-list and the translation tables

  /** The settings the serial-port library accepts. */
  const PossibleSettings: seq<string> := [
    "port", "baudrate", "bytesize", "parity", "stopbits", "timeout",
    "xonxoff", "rtscts", "dsrdtr", "writeTimeout", "InterCharTimeout"
  ]

  /** The settings whose values go through a translation table. */
  const ConvertedSettings: seq<string> := ["bytesize", "parity", "stopbits"]

  /** The numeric value Python's equality gives a value: an int, a float, or a
      bool (True == 1, False == 0). */
  function NumericValue(v: Value): Option<real> {
    match v
    case Int(i) => Some(i as real)
    case Num(r) => Some(r)
    case Bool(b) => Some(if b then 1.0 else 0.0)
    case _ => None
  }

  /** Lists and objects cannot be dictionary keys. */
  predicate Hashable(v: Value) {
    !v.List? && !v.Obj?
  }

  /** The `bytesize` table, keyed by 5, 6, 7, 8. */
  function ConvertByteSize(v: Value): Option<SerialConst> {
    match NumericValue(v)
    case Some(x) =>
      if x == 5.0 then Some(FiveBits)
      else if x == 6.0 then Some(SixBits)
      else if x == 7.0 then Some(SevenBits)
      else if x == 8.0 then Some(EightBits)
      else None
    case None => None
  }

  /** The `parity` table, keyed by the five parity names. */
  function ConvertParity(v: Value): Option<SerialConst> {
    match v
    case Str(s) =>
      if s == "none" then Some(ParityNone)
      else if s == "even" then Some(ParityEven)
      else if s == "odd" then Some(ParityOdd)
      else if s == "mark" then Some(ParityMark)
      else if s == "space" then Some(ParitySpace)
      else None
    case _ => None
  }

  /** The `stopbits` table, keyed by 1, 1.5 and 2. */
  function ConvertStopBits(v: Value): Option<SerialConst> {
    match NumericValue(v)
    case Some(x) =>
      if x == 1.0 then Some(StopBitsOne)
      else if x == 1.5 then Some(StopBitsOnePointFive)
      else if x == 2.0 then Some(StopBitsTwo)
      else None
    case None => None
  }

  /** The table for `key`, applied to `v`. */
  function Convert(key: string, v: Value): Option<SerialConst>
    requires key in ConvertedSettings
  {
    if key == "bytesize" then ConvertByteSize(v)
    else if key == "parity" then ConvertParity(v)
    else ConvertStopBits(v)
  }

  /** One step of the translation loop: the value stored back for `key`. */
  function TranslateEntry(deviceId: string, key: string, v: Value): (r: Result<Value>)
    ensures r.Ok? ==> key in PossibleSettings
    ensures r.Ok? ==> if key in ConvertedSettings then r.value.Const? else r.value == v
    ensures r.Err? ==> r.error in {UnsupportedSetting(deviceId, key), Unhashable(key, v), UnsupportedValue(deviceId, key, v)}
  {
    if key !in PossibleSettings then Err(UnsupportedSetting(deviceId, key))
    else if key !in ConvertedSettings then Ok(v)
    else if !Hashable(v) then Err(Unhashable(key, v))
    else match Convert(key, v)
      case Some(c) => Ok(Const(c))
      case None => Err(UnsupportedValue(deviceId, key, v))
  }

  /** A key outside the allow-list is rejected, naming the key; an
      allow-listed key without a table is passed through unchanged; a list
      or object value of a translated key fails as unhashable. */
  lemma TranslateEntryCases(deviceId: string, key: string, v: Value)
    ensures key !in PossibleSettings <==> TranslateEntry(deviceId, key, v) == Err(UnsupportedSetting(deviceId, key))
    ensures key in PossibleSettings && key !in ConvertedSettings ==> TranslateEntry(deviceId, key, v) == Ok(v)
    ensures key in ConvertedSettings && !Hashable(v) ==> TranslateEntry(deviceId, key, v) == Err(Unhashable(key, v))
    ensures key in ConvertedSettings && TranslateEntry(deviceId, key, v).Ok? ==>
              TranslateEntry(deviceId, key, v).value.Const?
  {
  }

  /** A `bytesize` is accepted exactly when it equals 5, 6, 7 or 8 as a
      number; nothing else, strings included, is. */
  lemma ByteSizeDomain(deviceId: string, v: Value)
    ensures TranslateEntry(deviceId, "bytesize", v).Ok? <==>
              NumericValue(v).Some? && NumericValue(v).value in {5.0, 6.0, 7.0, 8.0}
    ensures TranslateEntry(deviceId, "bytesize", v).Err? && Hashable(v) ==>
              TranslateEntry(deviceId, "bytesize", v).error == UnsupportedValue(deviceId, "bytesize", v)
  {
  }

  /** A `parity` is accepted exactly when it is one of the five names. */
  lemma ParityDomain(deviceId: string, v: Value)
    ensures TranslateEntry(deviceId, "parity", v).Ok? <==>
              v.Str? && v.s in {"none", "even", "odd", "mark", "space"}
    ensures TranslateEntry(deviceId, "parity", v).Err? && Hashable(v) ==>
              TranslateEntry(deviceId, "parity", v).error == UnsupportedValue(deviceId, "parity", v)
  {
  }

  /** A `stopbits` is accepted exactly when it equals 1, 1.5 or 2 as a
      number (so `true`, which Python takes as 1, is accepted too). */
  lemma StopBitsDomain(deviceId: string, v: Value)
    ensures TranslateEntry(deviceId, "stopbits", v).Ok? <==>
              NumericValue(v).Some? && NumericValue(v).value in {1.0, 1.5, 2.0}
    ensures TranslateEntry(deviceId, "stopbits", v).Err? && Hashable(v) ==>
              TranslateEntry(deviceId, "stopbits", v).error == UnsupportedValue(deviceId, "stopbits", v)
  {
  }

  /** The tables are one-to-one: distinct accepted inputs (as Python compares
      them) give distinct constants. */
  lemma ConvertInjective(key: string, v1: Value, v2: Value)
    requires key in ConvertedSettings
    requires Convert(key, v1).Some? && Convert(key, v1) == Convert(key, v2)
    ensures key == "parity" ==> v1 == v2
    ensures key != "parity" ==> NumericValue(v1) == NumericValue(v2)
  {
  }

  /** The translation of a whole `serial` block, in iteration order; the
      first entry that fails decides the error. */
  function TranslateBlock(deviceId: string, block: Dict): (r: Result<Dict>)
    ensures r.Ok? ==> Keys(r.value) == Keys(block)
    decreases |block|
  {
    if block == [] then Ok([])
    else match TranslateEntry(deviceId, block[0].0, block[0].1)
      case Err(e) => Err(e)
      case Ok(v) =>
        match TranslateBlock(deviceId, block[1..])
        case Err(e) => Err(e)
        case Ok(rest) => Ok([(block[0].0, v)] + rest)
  }

  /** The block as the translation loop leaves it, updated in place: every
      entry before the first failing one holds its translation, the rest is
      untouched. */
  function TranslateInPlace(deviceId: string, block: Dict): (b: Dict)
    ensures Keys(b) == Keys(block)
    decreases |block|
  {
    if block == [] then []
    else match TranslateEntry(deviceId, block[0].0, block[0].1)
      case Err(_) => block
      case Ok(v) => [(block[0].0, v)] + TranslateInPlace(deviceId, block[1..])
  }

  predicate EntriesOk(deviceId: string, block: Dict) {
    forall i :: 0 <= i < |block| ==> TranslateEntry(deviceId, block[i].0, block[i].1).Ok?
  }

  /** `t` is `block` with every entry translated. */
  predicate TranslatedFrom(deviceId: string, block: Dict, t: Dict) {
    && |t| == |block|
    && forall i :: 0 <= i < |block| ==>
         t[i].0 == block[i].0 && TranslateEntry(deviceId, block[i].0, block[i].1) == Ok(t[i].1)
  }

  /** Translation succeeds exactly when every entry translates, and then the
      result keeps the key order and holds each entry's translation. */
  lemma {:induction false} TranslateBlockOk(deviceId: string, block: Dict)
    ensures TranslateBlock(deviceId, block).Ok? <==> EntriesOk(deviceId, block)
    ensures TranslateBlock(deviceId, block).Ok? ==>
              TranslatedFrom(deviceId, block, TranslateBlock(deviceId, block).value)
    ensures TranslateBlock(deviceId, block).Ok? ==>
              TranslateBlock(deviceId, block).value == TranslateInPlace(deviceId, block)
    decreases |block|
  {
    if block != [] {
      var tail := block[1..];
      TranslateBlockOk(deviceId, tail);
      EntriesOkCons(deviceId, block);
      var e0 := TranslateEntry(deviceId, block[0].0, block[0].1);
      if e0.Ok? && TranslateBlock(deviceId, tail).Ok? {
        TranslatedFromCons(deviceId, block, e0.value, TranslateBlock(deviceId, tail).value);
      }
    }
  }

  lemma EntriesOkCons(deviceId: string, block: Dict)
    requires block != []
    ensures EntriesOk(deviceId, block) <==>
              TranslateEntry(deviceId, block[0].0, block[0].1).Ok? && EntriesOk(deviceId, block[1..])
  {
    if TranslateEntry(deviceId, block[0].0, block[0].1).Ok? && EntriesOk(deviceId, block[1..]) {
      forall i | 1 <= i < |block| ensures TranslateEntry(deviceId, block[i].0, block[i].1).Ok? {
        assert block[1..][i - 1] == block[i];
      }
    }
    if EntriesOk(deviceId, block) {
      forall i | 0 <= i < |block[1..]| ensures TranslateEntry(deviceId, block[1..][i].0, block[1..][i].1).Ok? {
        assert block[1..][i] == block[i + 1];
      }
    }
  }

  lemma TranslatedFromCons(deviceId: string, block: Dict, v: Value, rest: Dict)
    requires block != []
    requires TranslateEntry(deviceId, block[0].0, block[0].1) == Ok(v)
    requires TranslatedFrom(deviceId, block[1..], rest)
    ensures TranslatedFrom(deviceId, block, [(block[0].0, v)] + rest)
  {
    var t := [(block[0].0, v)] + rest;
    forall i | 1 <= i < |block|
      ensures t[i].0 == block[i].0 && TranslateEntry(deviceId, block[i].0, block[i].1) == Ok(t[i].1)
    {
      assert t[i] == rest[i - 1] && block[1..][i - 1] == block[i];
    }
  }

  /** Every entry before position `i` translates. */
  predicate OkBefore(deviceId: string, block: Dict, i: nat) {
    forall j :: 0 <= j < i && j < |block| ==> TranslateEntry(deviceId, block[j].0, block[j].1).Ok?
  }

  /** The first failing entry, at position `i`, decides the error. */
  lemma {:induction false} TranslateBlockFirstError(deviceId: string, block: Dict, i: nat)
    requires i < |block|
    requires TranslateEntry(deviceId, block[i].0, block[i].1).Err?
    requires OkBefore(deviceId, block, i)
    ensures TranslateBlock(deviceId, block) == Err(TranslateEntry(deviceId, block[i].0, block[i].1).error)
    decreases i
  {
    if i > 0 {
      assert block[1..][i - 1] == block[i];
      assert OkBefore(deviceId, block[1..], i - 1) by {
        forall j | 0 <= j < i - 1
          ensures TranslateEntry(deviceId, block[1..][j].0, block[1..][j].1).Ok?
        {
          assert block[1..][j] == block[j + 1];
        }
      }
      TranslateBlockFirstError(deviceId, block[1..], i - 1);
    }
  }

  /** When the entry at position `i` fails, the loop leaves the entries before
      it translated and the entries from it on as they were. */
  lemma {:induction false} TranslateInPlaceFirstError(deviceId: string, block: Dict, i: nat)
    requires i < |block|
    requires TranslateEntry(deviceId, block[i].0, block[i].1).Err?
    requires OkBefore(deviceId, block, i)
    ensures |TranslateInPlace(deviceId, block)| == |block|
    ensures forall j :: 0 <= j < i ==>
              TranslateInPlace(deviceId, block)[j] ==
              (block[j].0, TranslateEntry(deviceId, block[j].0, block[j].1).value)
    ensures forall j :: i <= j < |block| ==> TranslateInPlace(deviceId, block)[j] == block[j]
    decreases i
  {
    if i > 0 {
      OkBeforeTail(deviceId, block, i);
      TranslateInPlaceFirstError(deviceId, block[1..], i - 1);
      InPlaceShift(deviceId, block, i);
    }
  }

  lemma OkBeforeTail(deviceId: string, block: Dict, i: nat)
    requires 0 < i < |block|
    requires TranslateEntry(deviceId, block[i].0, block[i].1).Err?
    requires OkBefore(deviceId, block, i)
    ensures TranslateEntry(deviceId, block[1..][i - 1].0, block[1..][i - 1].1).Err?
    ensures OkBefore(deviceId, block[1..], i - 1)
  {
    var tail := block[1..];
    assert tail[i - 1] == block[i];
    forall j | 0 <= j < i - 1
      ensures TranslateEntry(deviceId, tail[j].0, tail[j].1).Ok?
    {
      assert tail[j] == block[j + 1];
    }
  }

  /** The in-place facts about the tail of a block, moved one position up. */
  lemma InPlaceShift(deviceId: string, block: Dict, i: nat)
    requires 0 < i < |block|
    requires OkBefore(deviceId, block, i) && OkBefore(deviceId, block[1..], i - 1)
    requires var rt := TranslateInPlace(deviceId, block[1..]);
             && |rt| == |block| - 1
             && (forall j :: 0 <= j < i - 1 ==>
                   rt[j] == (block[1..][j].0, TranslateEntry(deviceId, block[1..][j].0, block[1..][j].1).value))
             && (forall j :: i - 1 <= j < |block| - 1 ==> rt[j] == block[1..][j])
    ensures |TranslateInPlace(deviceId, block)| == |block|
    ensures forall j :: 0 <= j < i ==>
              TranslateInPlace(deviceId, block)[j] ==
              (block[j].0, TranslateEntry(deviceId, block[j].0, block[j].1).value)
    ensures forall j :: i <= j < |block| ==> TranslateInPlace(deviceId, block)[j] == block[j]
  {
    var tail := block[1..];
    var e0 := TranslateEntry(deviceId, block[0].0, block[0].1);
    var r, rt := TranslateInPlace(deviceId, block), TranslateInPlace(deviceId, tail);
    assert r == [(block[0].0, e0.value)] + rt;
    forall j | 0 < j < i
      ensures r[j] == (block[j].0, TranslateEntry(deviceId, block[j].0, block[j].1).value)
    {
      assert r[j] == rt[j - 1] && tail[j - 1] == block[j];
    }
    forall j | i <= j < |block| ensures r[j] == block[j] {
      assert r[j] == rt[j - 1] && tail[j - 1] == block[j];
    }
  }

  /** On success every key of the translated block is on the allow-list; a key
      outside it always makes translation fail. */
  lemma TranslateAllowListed(deviceId: string, block: Dict)
    ensures TranslateBlock(deviceId, block).Ok? ==>
              forall k :: k in Keys(TranslateBlock(deviceId, block).value) ==> k in PossibleSettings
    ensures (exists i :: 0 <= i < |block| && block[i].0 !in PossibleSettings) ==>
              TranslateBlock(deviceId, block).Err?
  {
    TranslateBlockOk(deviceId, block);
    if TranslateBlock(deviceId, block).Ok? {
      var t := TranslateBlock(deviceId, block).value;
      forall k | k in Keys(t) ensures k in PossibleSettings {
        var i :| 0 <= i < |t| && Keys(t)[i] == k;
        assert TranslateEntry(deviceId, block[i].0, block[i].1).Ok?;
      }
    }
  }

  /** On success the result has the input's keys in the input's order; the
      three translated settings hold their table image and every other
      setting is passed through unchanged. */
  lemma TranslateValues(deviceId: string, block: Dict, i: nat)
    requires TranslateBlock(deviceId, block).Ok?
    requires i < |block|
    ensures Keys(TranslateBlock(deviceId, block).value) == Keys(block)
    ensures block[i].0 !in ConvertedSettings ==> TranslateBlock(deviceId, block).value[i] == block[i]
    ensures block[i].0 in ConvertedSettings ==>
              Convert(block[i].0, block[i].1).Some? &&
              TranslateBlock(deviceId, block).value[i] == (block[i].0, Const(Convert(block[i].0, block[i].1).value))
  {
    TranslateBlockOk(deviceId, block);
    var t := TranslateBlock(deviceId, block).value;
    assert Keys(t) == Keys(block) by {
      assert forall j :: 0 <= j < |t| ==> Keys(t)[j] == Keys(block)[j];
    }
  }

  /** `get_pyserial_config` on a profile: its translated `serial` block. */
  function PyserialConfig(deviceId: string, config: Dict): (r: Result<Dict>)
    ensures Get(config, "serial").None? ==> r == Err(MissingKey("serial"))
    ensures Get(config, "serial").Some? && !Get(config, "serial").value.Obj? ==> r == Err(NotAMapping("serial"))
    ensures r.Ok? ==> Get(config, "serial").Some? && Get(config, "serial").value.Obj? &&
                      Keys(r.value) == Keys(Get(config, "serial").value.fields)
    ensures r.Ok? ==> forall k :: k in Keys(r.value) ==> k in PossibleSettings
  {
    match Get(config, "serial")
    case None => Err(MissingKey("serial"))
    case Some(Obj(block)) =>
      TranslateAllowListed(deviceId, block);
      TranslateBlock(deviceId, block)
    case Some(_) => Err(NotAMapping("serial"))
  }

  /** The profile as `get_pyserial_config` leaves it: an object `serial`
      block is translated in place, up to the first failing entry. */
  function PyserialConfigAfter(deviceId: string, config: Dict): Dict {
    match Get(config, "serial")
    case Some(Obj(block)) => Put(config, "serial", Obj(TranslateInPlace(deviceId, block)))
    case _ => config
  }

  /** The block returned is the profile's own `serial` block, updated: after
      a successful translation the profile holds exactly the returned
      settings, and nothing outside `serial` has changed. */
  lemma PyserialConfigInPlace(deviceId: string, config: Dict)
    requires PyserialConfig(deviceId, config).Ok?
    ensures Get(PyserialConfigAfter(deviceId, config), "serial") == Some(Obj(PyserialConfig(deviceId, config).value))
    ensures Keys(PyserialConfigAfter(deviceId, config)) == Keys(config)
    ensures forall k :: k != "serial" ==> Get(PyserialConfigAfter(deviceId, config), k) == Get(config, k)
  {
    TranslateBlockOk(deviceId, Get(config, "serial").value.fields);
  }

  // ---------------------------------------------------------------------
  // The whole resolution, as `get_config` runs it

  datatype Resolved = Resolved(config: Dict, pyserial: Dict)

  /** Look the profile up, merge the overrides, validate, translate. */
  function Resolve(catalog: map<string, Dict>, deviceId: string, overrides: Dict): (r: Result<Resolved>)
    ensures deviceId !in catalog ==> r == Err(DeviceNotFound(deviceId, ConfigDir))
    ensures deviceId in catalog && Validate(deviceId, Update(catalog[deviceId], overrides)).Fail? ==>
              r == Err(Validate(deviceId, Update(catalog[deviceId], overrides)).error)
    ensures r.Ok? ==> deviceId in catalog && Validate(deviceId, r.value.config) == Pass
    ensures deviceId in catalog && Validate(deviceId, Update(catalog[deviceId], overrides)) == Pass ==>
              (r.Ok? <==> PyserialConfig(deviceId, Update(catalog[deviceId], overrides)).Ok?) &&
              (r.Err? ==> r.error == PyserialConfig(deviceId, Update(catalog[deviceId], overrides)).error)
  {
    match LookupDevice(catalog, deviceId)
    case Err(e) => Err(e)
    case Ok(profile) =>
      var merged := Update(profile, overrides);
      var checked := Validate(deviceId, merged);
      if checked.Fail? then Err(checked.error)
      else
        var translated := PyserialConfig(deviceId, merged);
        if translated.Err? then Err(translated.error)
        else Ok(Resolved(PyserialConfigAfter(deviceId, merged), translated.value))
  }

  /** The profile as `get_config` leaves it once the device is found, on
      success and on failure alike. */
  function ConfigAfter(catalog: map<string, Dict>, deviceId: string, overrides: Dict): Dict
    requires deviceId in catalog
  {
    var merged := Update(catalog[deviceId], overrides);
    if Validate(deviceId, merged).Fail? then merged else PyserialConfigAfter(deviceId, merged)
  }

  /** On success the profile left behind is the resolved one. */
  lemma ConfigAfterResolved(catalog: map<string, Dict>, deviceId: string, overrides: Dict)
    requires Resolve(catalog, deviceId, overrides).Ok?
    ensures deviceId in catalog
    ensures ConfigAfter(catalog, deviceId, overrides) == Resolve(catalog, deviceId, overrides).value.config
  {
  }

  /** A resolved profile has a `serial` section whose (translated) settings
      are all on the allow-list, and at least one command. */
  lemma ResolvedIsValid(catalog: map<string, Dict>, deviceId: string, overrides: Dict)
    requires Resolve(catalog, deviceId, overrides).Ok?
    ensures var res := Resolve(catalog, deviceId, overrides).value;
            && Get(res.config, "serial") == Some(Obj(res.pyserial))
            && HasCommands(res.config)
            && forall k :: k in Keys(res.pyserial) ==> k in PossibleSettings
  {
    var merged := Update(catalog[deviceId], overrides);
    var block := Get(merged, "serial").value.fields;
    TranslateAllowListed(deviceId, block);
    PyserialConfigInPlace(deviceId, merged);
  }

  /** Overrides are merged into the top level only: unless they name
      `serial` itself, the serial settings are those of the catalog profile
      (an override such as `baudrate` never reaches them). */
  lemma OverridesReachSerialOnlyWhole(catalog: map<string, Dict>, deviceId: string, overrides: Dict)
    requires UniqueKeys(overrides) && "serial" !in Keys(overrides)
    requires Resolve(catalog, deviceId, overrides).Ok?
    ensures Get(catalog[deviceId], "serial").Some? && Get(catalog[deviceId], "serial").value.Obj?
    ensures Ok(Resolve(catalog, deviceId, overrides).value.pyserial) ==
              TranslateBlock(deviceId, Get(catalog[deviceId], "serial").value.fields)
  {
    UpdateGet(catalog[deviceId], overrides);
  }

  /** An override of `serial` replaces the profile's block whole. */
  lemma SerialOverrideReplacesBlock(catalog: map<string, Dict>, deviceId: string, overrides: Dict)
    requires UniqueKeys(overrides) && "serial" in Keys(overrides)
    requires Resolve(catalog, deviceId, overrides).Ok?
    ensures Get(overrides, "serial").value.Obj?
    ensures Ok(Resolve(catalog, deviceId, overrides).value.pyserial) ==
              TranslateBlock(deviceId, Get(overrides, "serial").value.fields)
  {
    UpdateGet(catalog[deviceId], overrides);
  }

  /** A profile with `serial: {port: "A", baudrate: 9600}` overridden with
      `serial: {port: "B"}` ends up with `serial` exactly `{port: "B"}`. */
  lemma SerialOverrideExample()
    ensures var profile := [("serial", Obj([("port", Str("A")), ("baudrate", Int(9600))]))];
            var overrides := [("serial", Obj([("port", Str("B"))]))];
            Get(Update(profile, overrides), "serial") == Some(Obj([("port", Str("B"))]))
  {
    var profile := [("serial", Obj([("port", Str("A")), ("baudrate", Int(9600))]))];
    var overrides := [("serial", Obj([("port", Str("B"))]))];
    UpdateGet(profile, overrides);
    assert Keys(overrides) == ["serial"];
  }
}
