/**
  The device layer of the TP-Link Smart Home client: building a command
  request, validating and unwrapping the device's reply, reading fields of
  the `get_sysinfo` dictionary with their fallbacks, the commands the plug's
  setters issue, and choosing a device class from a discovery reply.

  The transport (`protocol.query(host, request)`) is a parameter: a function
  from the request to the decoded reply or a communication failure.
 */
module SmartDevice {
  import opened Outcomes
  import opened JsonValue
  import Text

  /** The `get_sysinfo` dictionary, read through `defaultdict(lambda: None)`. */
  type SysInfo = map<string, Json>

  /** A command sent through `_query_helper(target, cmd, arg)`. */
  datatype Call = Call(target: string, cmd: string, arg: Json)

  datatype SwitchState = On | Off | Unknown

  /** What `Discover._get_device_class` returns: the `SmartPlug` class, the
      placeholder string "boo" that stands in for a power strip, or `None`. */
  datatype DeviceClass = SmartPlugClass | StripPlaceholder | NoClass

  const FeatureEnergyMeter := "ENE"
  const FeatureTimer := "TIM"
  const ErrCode := "err_code"

  /** The request `_query_helper` sends: `{target: {cmd: arg}}`, plus a
      `context` entry naming the child when the device is a child of a
      strip. Python's dict display lets the later `target` entry win if the
      target is itself "context". An absent argument is sent as `null`: the
      source replaces it by `{}` only after the request was built. */
  function Request(target: string, cmd: string, arg: Json, context: Option<string>): (r: Json)
    ensures r.Object?
    ensures target in r.fields && r.fields[target] == Object(map[cmd := arg])
    ensures context.None? ==> r.fields.Keys == {target}
    ensures context.Some? ==> r.fields.Keys == {target, "context"}
    ensures context.Some? && target != "context" ==>
      r.fields["context"] == Object(map["child_ids" := Array([Str(context.value)])])
  {
    var command := Object(map[cmd := arg]);
    match context
    case None => Object(map[target := command])
    case Some(child) =>
      Object(map["context" := Object(map["child_ids" := Array([Str(child)])])][target := command])
  }

  /** `del result["err_code"]` on the command's reply: only a dict holding
      `err_code` survives it. */
  function DropErrCode(result: Json): (r: Result<map<string, Json>>)
    ensures r.Ok? <==> result.Object? && ErrCode in result.fields
    ensures r.Ok? ==> r.value == result.fields - {ErrCode}
  {
    match result
    case Object(fields) => if ErrCode in fields then Ok(fields - {ErrCode}) else Fail(KeyError)
    case _ => Fail(TypeError)
  }

  /** The checks `_query_helper` applies to a decoded reply, in the source's
      order, each through Python's `in` and indexing: only a dict can be
      indexed by the target name. */
  function Unwrap(response: Json, target: string, cmd: string): Result<map<string, Json>> {
    var hasTarget :- In(target, response);
    if !hasTarget then Fail(DeviceError("No required target in response"))
    else if !response.Object? then Fail(TypeError)
    else UnwrapTarget(response.fields[target], cmd)
  }

  /** The checks on `response[target]`: a non-zero `err_code` is an error,
      the command must be present, and its dict loses `err_code`. Once
      `"err_code" in result` succeeded, `cmd in result` cannot raise. */
  function UnwrapTarget(result: Json, cmd: string): Result<map<string, Json>> {
    var hasErr :- In(ErrCode, result);
    if hasErr && !result.Object? then Fail(TypeError)
    else if hasErr && !EqualsInt(result.fields[ErrCode], 0) then Fail(DeviceError("Error on target.cmd"))
    else if !In(cmd, result).value then Fail(DeviceError("No command in response"))
    else if !result.Object? then Fail(TypeError)
    else DropErrCode(result.fields[cmd])
  }

  /** The reply shape `_query_helper` accepts: a dict whose `target` entry is
      a dict with `err_code` absent or equal to 0 and a `cmd` entry that is a
      dict holding `err_code`. */
  ghost predicate Accepted(response: Json, target: string, cmd: string) {
    && response.Object?
    && target in response.fields
    && var result := response.fields[target];
    && result.Object?
    && (ErrCode in result.fields ==> EqualsInt(result.fields[ErrCode], 0))
    && cmd in result.fields
    && result.fields[cmd].Object?
    && ErrCode in result.fields[cmd].fields
  }

  /** `SmartDevice._query_helper`: sends `Request(...)` through `transport`;
      a transport failure becomes "Communication error"; the reply is
      accepted exactly when it has the expected shape, and then the result is
      the command's dict without `err_code`. */
  function QueryHelper(transport: Json -> Result<Json>, context: Option<string>,
                       target: string, cmd: string, arg: Json): (r: Result<map<string, Json>>)
    ensures var reply := transport(Request(target, cmd, arg, context));
      && (reply.Fail? ==> r == Fail(DeviceError("Communication error")))
      && (r.Ok? <==> reply.Ok? && Accepted(reply.value, target, cmd))
      && (r.Ok? ==> r.value == reply.value.fields[target].fields[cmd].fields - {ErrCode})
  {
    var reply := transport(Request(target, cmd, arg, context));
    match reply
    case Fail(_) => Fail(DeviceError("Communication error"))
    case Ok(response) => Unwrap(response, target, cmd)
  }

  /** The reply to a request is rejected with the source's messages: a dict
      without the target, a non-zero `err_code`, a dict without the command,
      and a command result without `err_code` (`KeyError` from `del`). */
  lemma UnwrapErrors(response: Json, target: string, cmd: string)
    requires response.Object?
    ensures target !in response.fields ==>
      Unwrap(response, target, cmd) == Fail(DeviceError("No required target in response"))
    ensures target in response.fields && response.fields[target].Object? ==>
      var result := response.fields[target].fields;
      && (ErrCode in result && !EqualsInt(result[ErrCode], 0) ==>
            Unwrap(response, target, cmd) == Fail(DeviceError("Error on target.cmd")))
      && ((ErrCode !in result || EqualsInt(result[ErrCode], 0)) && cmd !in result ==>
            Unwrap(response, target, cmd) == Fail(DeviceError("No command in response")))
      && ((ErrCode !in result || EqualsInt(result[ErrCode], 0)) && cmd in result
          && result[cmd].Object? && ErrCode !in result[cmd].fields ==>
            Unwrap(response, target, cmd) == Fail(KeyError))
  {
  }

  /** `sys_info[key]` through `defaultdict(lambda: None)`. */
  function Get(info: SysInfo, key: string): Json {
    if key in info then info[key] else Null
  }

  /** `location`: latitude/longitude when both are present, else
      latitude_i/longitude_i when both are present, else both `None`. */
  function Location(info: SysInfo): (loc: (Json, Json))
    ensures "latitude" in info && "longitude" in info ==>
      loc == (info["latitude"], info["longitude"])
    ensures !("latitude" in info && "longitude" in info) && "latitude_i" in info && "longitude_i" in info ==>
      loc == (info["latitude_i"], info["longitude_i"])
    ensures !("latitude" in info && "longitude" in info) && !("latitude_i" in info && "longitude_i" in info) ==>
      loc == (Null, Null)
  {
    if "latitude" in info && "longitude" in info then (info["latitude"], info["longitude"])
    else if "latitude_i" in info && "longitude_i" in info then (info["latitude_i"], info["longitude_i"])
    else (Null, Null)
  }

  /** `mac`: `str` of the `mac` field, else of the `mic_mac` field, else an
      error. */
  function Mac(info: SysInfo): (r: Result<string>)
    ensures "mac" !in info && "mic_mac" !in info ==> r.Fail? && r.error.DeviceError?
    ensures "mac" in info ==> r == ToText(info["mac"])
    ensures "mac" !in info && "mic_mac" in info ==> r == ToText(info["mic_mac"])
    ensures "mac" in info && info["mac"].Str? ==> r == Ok(info["mac"].s)
    ensures "mac" !in info && "mic_mac" in info && info["mic_mac"].Str? ==> r == Ok(info["mic_mac"].s)
  {
    if "mac" in info then ToText(info["mac"])
    else if "mic_mac" in info then ToText(info["mic_mac"])
    else Fail(DeviceError("Unknown mac, please submit a bugwith sysinfo output."))
  }

  /** `SmartPlug.is_on`: the truth of `relay_state` (absent reads as `None`). */
  predicate IsOn(info: SysInfo)
    ensures IsOn(info) ==> "relay_state" in info
    ensures "relay_state" in info && info["relay_state"].Number? ==> (IsOn(info) <==> info["relay_state"].n != 0)
  {
    Truthy(Get(info, "relay_state"))
  }

  /** `SmartDevice.is_off`: `not is_on`, so a missing relay reads as off. */
  predicate IsOff(info: SysInfo)
    ensures "relay_state" !in info ==> IsOff(info)
    ensures "relay_state" in info && info["relay_state"].Number? ==> (IsOff(info) <==> info["relay_state"].n == 0)
  {
    !IsOn(info)
  }

  /** `SmartPlug.state`: relay 0 is OFF, 1 is ON, anything else UNKNOWN. */
  function State(info: SysInfo): (s: SwitchState)
    ensures s == Off <==> EqualsInt(Get(info, "relay_state"), 0)
    ensures s == On <==> EqualsInt(Get(info, "relay_state"), 1)
  {
    var relay := Get(info, "relay_state");
    if EqualsInt(relay, 0) then Off
    else if EqualsInt(relay, 1) then On
    else Unknown
  }

  /** The reported state agrees with `is_on`/`is_off` whenever it is known. */
  lemma StateAgreesWithIsOn(info: SysInfo)
    ensures State(info) == On ==> IsOn(info)
    ensures State(info) == Off ==> IsOff(info)
  {
  }

  const TurnOn := Call("system", "set_relay_state", Object(map["state" := Number(1)]))
  const TurnOff := Call("system", "set_relay_state", Object(map["state" := Number(0)]))

  /** The setter of `SmartPlug.state`: a string whose upper-case form is
      "ON" or "OFF" turns the plug on or off; any other value is a
      `ValueError`. */
  function SetState(value: Json): (r: Result<Call>)
    ensures r.Ok? <==> value.Str? && (Text.Upper(value.s) == "ON" || Text.Upper(value.s) == "OFF")
    ensures r.Ok? ==> r.value == (if Text.Upper(value.s) == "ON" then TurnOn else TurnOff)
    ensures r.Fail? ==> r.error == ValueError
  {
    match value
    case Str(s) =>
      if Text.Upper(s) == "ON" then Ok(TurnOn)
      else if Text.Upper(s) == "OFF" then Ok(TurnOff)
      else Fail(ValueError)
    case _ => Fail(ValueError)
  }

  /** The state setter is case-insensitive: "on", "On", "oN" and "ON" all
      turn the plug on. */
  lemma SetStateCaseInsensitive()
    ensures SetState(Str("on")) == Ok(TurnOn) && SetState(Str("oN")) == Ok(TurnOn)
    ensures SetState(Str("Off")) == Ok(TurnOff)
    ensures SetState(Str("onn")).Fail? && SetState(Number(1)).Fail?
  {
    assert Text.Upper("on") == "ON";
    assert Text.Upper("oN") == "ON";
    assert Text.Upper("Off") == "OFF";
    assert |Text.Upper("onn")| == 3;
    assert Text.Upper("onn") != "OFF" by {
      assert Text.Upper("onn")[2] == 'N';
    }
  }

  /** `SmartPlug.is_dimmable`. */
  predicate IsDimmable(info: SysInfo) {
    "brightness" in info
  }

  /** The setter of `SmartPlug.brightness`: nothing happens on a plug that
      is not dimmable; otherwise an integer (or boolean) in 1..100 turns the
      plug on and sets the brightness, and anything else is a `ValueError`. */
  function SetBrightness(info: SysInfo, value: Json): (r: Result<seq<Call>>)
    ensures !IsDimmable(info) ==> r == Ok([])
    ensures IsDimmable(info) ==>
      && (r.Ok? <==> exists n :: 1 <= n <= 100 && EqualsInt(value, n) && (value.Number? || value.Bool?))
      && (r.Ok? ==> r.value == [TurnOn, Call("smartlife.iot.dimmer", "set_brightness",
                                             Object(map["brightness" := value]))])
      && (r.Fail? ==> r.error == ValueError)
  {
    if !IsDimmable(info) then Ok([])
    else match AsInt(value)
      case Fail(_) => Fail(ValueError)
      case Ok(n) =>
        if 0 < n <= 100 then
          Ok([TurnOn, Call("smartlife.iot.dimmer", "set_brightness", Object(map["brightness" := value]))])
        else Fail(ValueError)
  }

  /** `SmartDevice.features`: no features when the field is absent, else the
      ':'-separated pieces of the string (`AttributeError` for a value that is
      not a string). */
  function Features(info: SysInfo): (r: Result<seq<string>>)
    ensures "feature" !in info ==> r == Ok([])
    ensures "feature" in info ==> (r.Ok? <==> info["feature"].Str?)
    ensures r.Ok? && "feature" in info ==> Text.Join(r.value, ":") == info["feature"].s
    ensures r.Ok? ==> forall p :: p in r.value ==> ':' !in p
  {
    if "feature" !in info then Ok([])
    else match info["feature"]
      case Str(s) => Text.JoinSplit(s, ':'); Ok(Text.Split(s, ':'))
      case _ => Fail(AttributeError)
  }

  /** `SmartPlug.has_emeter`: whether "ENE" is one of the ':'-separated
      features. An absent field reads as `None`, which has no `split`. */
  function HasEmeter(info: SysInfo): (r: Result<bool>)
    ensures r.Ok? <==> Get(info, "feature").Str?
    ensures r.Ok? ==> (r.value <==> Text.DelimitedIn(Get(info, "feature").s, FeatureEnergyMeter, ':'))
  {
    match Get(info, "feature")
    case Str(s) =>
      Text.DelimitedInSplit(s, FeatureEnergyMeter, ':');
      Ok(FeatureEnergyMeter in Text.Split(s, ':'))
    case _ => Fail(AttributeError)
  }

  /** `SmartPlug.led`: `bool(1 - led_off)`, so the LED is on unless `led_off`
      equals 1; `1 - None` and `1 - "x"` raise `TypeError`. */
  function Led(info: SysInfo): (r: Result<bool>)
    ensures r.Ok? <==> Get(info, "led_off").Number? || Get(info, "led_off").Bool?
    ensures r.Ok? ==> (r.value <==> !EqualsInt(Get(info, "led_off"), 1))
  {
    var off :- AsInt(Get(info, "led_off"));
    Ok(1 - off != 0)
  }

  /** The setter of `SmartPlug.led`: `{"off": int(not state)}`. */
  function SetLed(state: Json): (c: Call)
    ensures c.target == "system" && c.cmd == "set_led_off"
    ensures c.arg == Object(map["off" := Number(if Truthy(state) then 0 else 1)])
  {
    Call("system", "set_led_off", Object(map["off" := Number(if Truthy(state) then 0 else 1)]))
  }

  /** Reading back what the LED setter asked for: after the device applies
      `set_led_off`, `led` reports the truth of the value that was set. */
  lemma LedRoundTrip(info: SysInfo, state: Json)
    ensures Led(info["led_off" := SetLed(state).arg.fields["off"]]) == Ok(Truthy(state))
  {
  }

  /** The device type named in a `get_sysinfo` value: `type`, else
      `mic_type`, else "UNKNOWN". */
  function DeviceType(sysinfo: Json): Result<Json> {
    var hasType :- In("type", sysinfo);
    if hasType then Index(sysinfo, "type")
    else if In("mic_type", sysinfo).value then Index(sysinfo, "mic_type")
    else Ok(Str("UNKNOWN"))
  }

  /** `Discover._get_device_class` on a decoded discovery reply. When the
      reply lacks `system.get_sysinfo`, the local `type` is never assigned and
      reading it raises `UnboundLocalError`. */
  function GetDeviceClass(info: Json): (r: Result<DeviceClass>)
    ensures info.Object? && "system" !in info.fields ==> r == Fail(UnboundLocalError)
    ensures info.Object? && "system" in info.fields && info.fields["system"].Object? ==>
      var system := info.fields["system"].fields;
      && ("get_sysinfo" !in system ==> r == Fail(UnboundLocalError))
      && ("get_sysinfo" in system ==> r == ClassOfSysinfo(system["get_sysinfo"]))
    ensures info.Null? || info.Bool? || info.Number? ==> r == Fail(TypeError)
  {
    var hasSystem :- In("system", info);
    if !hasSystem then Fail(UnboundLocalError)
    else if !info.Object? then Fail(TypeError)
    else
      var system := info.fields["system"];
      var hasSysinfo :- In("get_sysinfo", system);
      if !hasSysinfo then Fail(UnboundLocalError)
      else if !system.Object? then Fail(TypeError)
      else ClassOfSysinfo(system.fields["get_sysinfo"])
  }

  /** The class chosen from the `get_sysinfo` value. */
  function ClassOfSysinfo(sysinfo: Json): Result<DeviceClass> {
    var deviceType :- DeviceType(sysinfo);
    if !deviceType.Str? then Fail(AttributeError)
    else if !Text.Contains(Text.Lower(deviceType.s), "smartplug") then Ok(NoClass)
    else if In("children", sysinfo).value then Ok(StripPlaceholder)
    else Ok(SmartPlugClass)
  }

  /** The decision `_get_device_class` makes on a well-shaped reply: a
      `smartplug` type (in any letter case, as a substring) with children is
      the strip placeholder, without children a `SmartPlug`, and any other
      type is no class. */
  lemma DeviceClassOfSysinfo(info: Json, sysinfo: map<string, Json>)
    requires info.Object? && "system" in info.fields
    requires info.fields["system"].Object? && "get_sysinfo" in info.fields["system"].fields
    requires info.fields["system"].fields["get_sysinfo"] == Object(sysinfo)
    ensures var t := if "type" in sysinfo then sysinfo["type"]
                     else if "mic_type" in sysinfo then sysinfo["mic_type"] else Str("UNKNOWN");
      && (!t.Str? ==> GetDeviceClass(info) == Fail(AttributeError))
      && (t.Str? && Text.Contains(Text.Lower(t.s), "smartplug") ==>
            GetDeviceClass(info) == Ok(if "children" in sysinfo then StripPlaceholder else SmartPlugClass))
      && (t.Str? && !Text.Contains(Text.Lower(t.s), "smartplug") ==> GetDeviceClass(info) == Ok(NoClass))
  {
  }

  /** A reply without `system` raises instead of returning `None`. */
  lemma DeviceClassWithoutSystem(info: Json)
    requires info.Object? && "system" !in info.fields
    ensures GetDeviceClass(info) == Fail(UnboundLocalError)
  {
  }
}
