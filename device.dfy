/** The driver object: the profile it resolved, the serial settings derived
    from it, and the serial port it reads responses from. */
module Device {
  import opened Values
  import opened Config

  /** The serial port as the driver sees it: the bytes the device has sent
      that have not been read yet, oldest first. */
  class SerialPort {
    var inbound: seq<char>

    constructor (pending: seq<char>)
      ensures inbound == pending
    {
      inbound := pending;
    }

    /** `inWaiting()`: how many bytes are pending. */
    method InWaiting() returns (n: nat)
      ensures n == |inbound|
    {
      n := |inbound|;
    }

    /** `read(1)`: the oldest pending byte, or nothing when none is pending
        (a read whose timeout expires). */
    method Read1() returns (b: string)
      modifies this
      ensures old(inbound) == b + inbound
      ensures |b| == if old(inbound) == [] then 0 else 1
    {
      if inbound == [] {
        b := "";
      } else {
        b := [inbound[0]];
        inbound := inbound[1..];
      }
    }
  }

  class Pyjector {
    const port: Value
    const deviceId: string
    const serial: SerialPort
    var availableConfigs: map<string, Dict>
    var config: Dict
    var pyserialConfig: Dict

    /** The profile is the catalog's entry for the device (the same dict),
        so every in-place update of one is an update of the other. */
    predicate Valid()
      reads this
    {
      deviceId in availableConfigs && availableConfigs[deviceId] == config
    }

    /** The state before the configuration is resolved. */
    constructor (port: Value, deviceId: string, serial: SerialPort)
      ensures this.port == port && this.deviceId == deviceId && this.serial == serial
      ensures availableConfigs == map[] && config == [] && pyserialConfig == []
    {
      this.port := port;
      this.deviceId := deviceId;
      this.serial := serial;
      availableConfigs := map[];
      config := [];
      pyserialConfig := [];
    }

    /** `__init__` up to the opening of the port: resolve the configuration
        for `deviceId` from `catalog`, with `overrides` merged in. */
    static method New(port: Value, deviceId: string, overrides: Dict, catalog: map<string, Dict>, serial: SerialPort)
      returns (r: Result<Pyjector>)
      ensures r.Ok? <==> Resolve(catalog, deviceId, overrides).Ok?
      ensures r.Err? ==> r.error == Resolve(catalog, deviceId, overrides).error
      ensures r.Ok? ==> && fresh(r.value) && r.value.Valid()
                        && r.value.port == port && r.value.deviceId == deviceId && r.value.serial == serial
                        && r.value.availableConfigs == catalog[deviceId := r.value.config]
                        && r.value.config == Resolve(catalog, deviceId, overrides).value.config
                        && r.value.pyserialConfig == Resolve(catalog, deviceId, overrides).value.pyserial
    {
      var p := new Pyjector(port, deviceId, serial);
      var outcome := p.GetConfig(catalog, overrides);
      if outcome.Fail? {
        return Err(outcome.error);
      }
      return Ok(p);
    }

    /** `get_config`: read the catalog, look the device up, merge the
        overrides, validate, translate the serial settings. */
    method GetConfig(catalog: map<string, Dict>, overrides: Dict) returns (r: Outcome)
      modifies this
      ensures r == match Resolve(catalog, deviceId, overrides)
                   case Ok(_) => Pass
                   case Err(e) => Fail(e)
      ensures pyserialConfig == match Resolve(catalog, deviceId, overrides)
                                case Ok(res) => res.pyserial
                                case Err(_) => old(pyserialConfig)
      ensures config == if deviceId in catalog then ConfigAfter(catalog, deviceId, overrides) else old(config)
      ensures availableConfigs == if deviceId in catalog then catalog[deviceId := config] else catalog
    {
      availableConfigs := catalog;
      var found := LookupDevice(availableConfigs, deviceId);
      if found.Err? {
        return Fail(found.error);
      }
      config := found.value;
      ApplyOverrides(overrides);
      ghost var merged := config;
      var valid := Validate(deviceId, config);
      if valid.Fail? {
        return valid;
      }
      var translated := GetPyserialConfig();
      UpdateTwice(catalog, deviceId, merged, config);
      if translated.Err? {
        return Fail(translated.error);
      }
      pyserialConfig := translated.value;
      return Pass;
    }

    /** `_apply_overrides`: `config.update(overrides)`, one level deep. */
    method ApplyOverrides(overrides: Dict)
      requires Valid()
      modifies this
      ensures Valid()
      ensures config == Update(old(config), overrides)
      ensures availableConfigs == old(availableConfigs)[deviceId := config]
      ensures pyserialConfig == old(pyserialConfig)
    {
      config := Update(config, overrides);
      availableConfigs := availableConfigs[deviceId := config];
    }

    /** `get_pyserial_config`: translate the profile's `serial` block in
        place and return it; the block returned is the profile's own. */
    method GetPyserialConfig() returns (r: Result<Dict>)
      requires Valid()
      modifies this
      ensures Valid() && pyserialConfig == old(pyserialConfig)
      ensures availableConfigs == old(availableConfigs)[deviceId := config]
      ensures r == PyserialConfig(deviceId, old(config))
      ensures config == PyserialConfigAfter(deviceId, old(config))
    {
      var found := Get(config, "serial");
      if found.None? {
        return Err(MissingKey("serial"));
      }
      if !found.value.Obj? {
        return Err(NotAMapping("serial"));
      }
      ghost var profile := config;
      var block;
      block, r := TranslateSerialBlock(deviceId, found.value.fields);
      assert r == PyserialConfig(deviceId, profile);
      config := Put(config, "serial", Obj(block));
      assert config == PyserialConfigAfter(deviceId, profile);
      availableConfigs := availableConfigs[deviceId := config];
    }

    /** `_get_response`: drain the pending bytes, in order. */
    method GetResponse() returns (response: string)
      modifies serial
      ensures response == old(serial.inbound)
      ensures serial.inbound == []
    {
      response := "";
      var pending := serial.InWaiting();
      while pending > 0
        invariant old(serial.inbound) == response + serial.inbound
        invariant pending == |serial.inbound|
        decreases |serial.inbound|
      {
        var b := serial.Read1();
        response := response + b;
        pending := serial.InWaiting();
      }
    }
  }

  /** The loop of `get_pyserial_config` over one `serial` block: every
      setting is checked against the allow-list and `bytesize`, `parity` and
      `stopbits` are overwritten with their table image as the loop goes.
      Returns the block as the loop leaves it, and the outcome. */
  method TranslateSerialBlock(deviceId: string, serial: Dict) returns (block: Dict, r: Result<Dict>)
    ensures r == TranslateBlock(deviceId, serial)
    ensures block == TranslateInPlace(deviceId, serial)
  {
    block := serial;
    var i := 0;
    var failure: Option<Error> := None;
    while i < |block| && failure.None?
      invariant 0 <= i <= |block| == |serial|
      invariant OkBefore(deviceId, serial, i)
      invariant forall j :: 0 <= j < i ==>
                  block[j] == (serial[j].0, TranslateEntry(deviceId, serial[j].0, serial[j].1).value)
      invariant forall j :: i <= j < |block| ==> block[j] == serial[j]
      invariant failure.Some? ==> i < |serial| && TranslateEntry(deviceId, serial[i].0, serial[i].1) == Err(failure.value)
      decreases |block| - i, if failure.None? then 1 else 0
    {
      var key, value := block[i].0, block[i].1;
      assert (key, value) == serial[i];
      ghost var e := TranslateEntry(deviceId, key, value);
      ghost var before := block;
      if key !in PossibleSettings {
        failure := Some(UnsupportedSetting(deviceId, key));
      } else if key in ConvertedSettings {
        if !Hashable(value) {
          failure := Some(Unhashable(key, value));
        } else {
          match Convert(key, value)
          case None =>
            failure := Some(UnsupportedValue(deviceId, key, value));
          case Some(c) =>
            block := block[i := (key, Const(c))];
        }
      }
      assert failure.None? ==> e.Ok? && block == before[i := (key, e.value)];
      assert failure.Some? ==> e == Err(failure.value);
      if failure.None? {
        i := i + 1;
      }
    }
    if failure.Some? {
      LoopStoppedAtFailure(deviceId, serial, block, i);
      r := Err(failure.value);
    } else {
      LoopRanThrough(deviceId, serial, block);
      r := Ok(block);
    }
  }

  /** The loop stopped at its first failing entry `i`. */
  lemma LoopStoppedAtFailure(deviceId: string, serial: Dict, block: Dict, i: nat)
    requires i < |serial| == |block|
    requires TranslateEntry(deviceId, serial[i].0, serial[i].1).Err?
    requires OkBefore(deviceId, serial, i)
    requires forall j :: 0 <= j < i ==>
               block[j] == (serial[j].0, TranslateEntry(deviceId, serial[j].0, serial[j].1).value)
    requires forall j :: i <= j < |block| ==> block[j] == serial[j]
    ensures TranslateBlock(deviceId, serial) == Err(TranslateEntry(deviceId, serial[i].0, serial[i].1).error)
    ensures TranslateInPlace(deviceId, serial) == block
  {
    TranslateBlockFirstError(deviceId, serial, i);
    TranslateInPlaceFirstError(deviceId, serial, i);
  }

  /** The loop translated every entry. */
  lemma LoopRanThrough(deviceId: string, serial: Dict, block: Dict)
    requires |block| == |serial|
    requires OkBefore(deviceId, serial, |serial|)
    requires forall j :: 0 <= j < |serial| ==>
               block[j] == (serial[j].0, TranslateEntry(deviceId, serial[j].0, serial[j].1).value)
    ensures TranslateBlock(deviceId, serial) == Ok(block)
    ensures TranslateInPlace(deviceId, serial) == block
  {
    TranslateBlockOk(deviceId, serial);
    assert TranslateBlock(deviceId, serial).value == block;
  }

  lemma UpdateTwice(m: map<string, Dict>, k: string, a: Dict, b: Dict)
    ensures m[k := a][k := b] == m[k := b]
  {
  }
}
