/** library/cloudera_manager_config.py: list the Cloudera Manager server
    settings, or set one of them (`present`) or reset it to its factory
    default (`absent`). */
module Config {
  import opened Ansible
  import opened CmApi

  datatype State = Present | Absent | List

  /** The module options `name`, `value` and `state`. */
  datatype Params = Params(name: Option<string>, value: Option<string>, state: State)

  /** The module's own view of one setting, the nested dict
      `{name, default, value}`. */
  datatype SettingEntry = SettingEntry(name: string, default: Option<string>, value: Option<string>)

  /** A configuration in cm_api's summary view: setting name to value. */
  type ConfigValues = map<string, Option<string>>

  /** What exit_json reports as `settings`: the module's settings map in
      list mode, otherwise the name-to-value map cm_api returned (the reply
      of the update, or the `summary` view read at the end). The module only
      passes it through. */
  datatype Payload = Settings(settings: map<string, SettingEntry>) | Configs(configs: ConfigValues)

  const MissingName := "Missing `name` option."
  const MissingValue := "Missing `value` option."

  function InvalidEntry(name: string): string {
    name + " is not a valid configuration entry"
  }

  /** The settings map built from the full configuration: one entry per
      remote key, carrying that key's name, default and value. */
  function SettingsOf(remote: map<string, ApiConfig>): (s: map<string, SettingEntry>)
    ensures s.Keys == remote.Keys
    ensures forall k :: k in s ==>
              s[k].name == remote[k].name && s[k].default == remote[k].default && s[k].value == remote[k].value
  {
    map k | k in remote :: SettingEntry(remote[k].name, remote[k].default, remote[k].value)
  }

  /** The loop that fills the settings dict key by key. */
  method BuildSettings(remote: map<string, ApiConfig>) returns (settings: map<string, SettingEntry>)
    ensures settings == SettingsOf(remote)
  {
    settings := map[];
    var todo := remote.Keys;
    while todo != {}
      invariant todo <= remote.Keys
      invariant settings.Keys == remote.Keys - todo
      invariant forall k :: k in settings ==> settings[k] == SettingsOf(remote)[k]
      decreases todo
    {
      var key :| key in todo;
      var entry := SettingEntry(remote[key].name, remote[key].default, None);
      if remote[key].value.Some? {
        entry := entry.(value := remote[key].value);
      }
      settings := settings[key := entry];
      todo := todo - {key};
    }
  }

  /** The value a run asks for: None, the factory default, for `absent`;
      the `value` option otherwise. */
  function Target(p: Params): Option<string> {
    if p.state == Absent then None else p.value
  }

  /** The options name a known setting and, unless resetting it, give a value. */
  predicate Writable(p: Params, settings: map<string, SettingEntry>) {
    p.state != List && p.name.Some? && p.name.value in settings && (p.state == Absent || p.value.Some?)
  }

  /** The decision of main once the settings map is built: `updateReply`
      is what `update_config` returns or raises if it is called, `summary`
      what `get_config('summary')` returns if it is read. */
  function Decide(p: Params, settings: map<string, SettingEntry>,
                  updateReply: Result<ConfigValues>, summary: ConfigValues): (r: Run<Payload>)
    ensures |r.calls| <= 1
    ensures p.state == List ==> r == Run(Exit(false, None, Settings(settings)), [])
    ensures p.state != List && p.name.None? ==> r == Run(Fail(false, MissingName), [])
    ensures p.state != List && p.name.Some? && p.name.value !in settings ==>
              r == Run(Fail(false, InvalidEntry(p.name.value)), [])
    ensures p.state == Present && p.name.Some? && p.name.value in settings && p.value.None? ==>
              r == Run(Fail(false, MissingValue), [])
    ensures r.calls != [] <==> Writable(p, settings) && Target(p) != settings[p.name.value].value
    ensures r.calls != [] ==>
              r.calls == [UpdateConfig(map[p.name.value := Target(p)])] &&
              r.outcome == (match updateReply
                            case Ok(rc) => Exit(true, None, Configs(rc))
                            case Err(e) => Fail(false, e))
    ensures Writable(p, settings) && Target(p) == settings[p.name.value].value ==>
              r == Run(Exit(false, None, Configs(summary)), [])
    ensures r.outcome.Changed() ==> r.calls != [] && updateReply.Ok?
  {
    if p.state == List then Run(Exit(false, None, Settings(settings)), [])
    else if p.name.None? then Run(Fail(false, MissingName), [])
    else if p.name.value !in settings then Run(Fail(false, InvalidEntry(p.name.value)), [])
    else if p.state == Present && p.value.None? then Run(Fail(false, MissingValue), [])
    else
      var key := p.name.value;
      var desired := Target(p);
      if desired != settings[key].value then
        var call := UpdateConfig(map[key := desired]);
        match updateReply
        case Ok(rc) => Run(Exit(true, None, Configs(rc)), [call])
        case Err(e) => Run(Fail(false, e), [call])
      else
        Run(Exit(false, None, Configs(summary)), [])
  }

  /** A whole run of main: `fetched` is what `get_config('full')` returned
      or raised. */
  function ConfigRun(p: Params, fetched: Result<map<string, ApiConfig>>,
                     updateReply: Result<ConfigValues>, summary: ConfigValues): (r: Run<Payload>)
    ensures fetched.Err? ==> r == Run(Fail(false, fetched.error), [])
    ensures |r.calls| <= 1
    ensures r.outcome.Changed() ==> fetched.Ok? && updateReply.Ok? && r.calls != []
  {
    match fetched
    case Err(e) => Run(Fail(false, e), [])
    case Ok(remote) => Decide(p, SettingsOf(remote), updateReply, summary)
  }

  method Execute(p: Params, fetched: Result<map<string, ApiConfig>>,
              updateReply: Result<ConfigValues>, summary: ConfigValues) returns (r: Run<Payload>)
    ensures r == ConfigRun(p, fetched, updateReply, summary)
    ensures fetched.Err? ==> r == Run(Fail(false, fetched.error), [])
  {
    if fetched.Err? {
      return Run(Fail(false, fetched.error), []);
    }
    var settings := BuildSettings(fetched.value);
    r := Decide(p, settings, updateReply, summary);
  }

  /** The server's configuration after one call: an update sets each named
      setting's value, None meaning the default is in effect again. */
  function ApplyCall(remote: map<string, ApiConfig>, c: Call): map<string, ApiConfig> {
    if c.UpdateConfig? then
      map k | k in remote :: if k in c.update then remote[k].(value := c.update[k]) else remote[k]
    else remote
  }

  function ApplyCalls(remote: map<string, ApiConfig>, calls: seq<Call>): map<string, ApiConfig>
    decreases |calls|
  {
    if calls == [] then remote else ApplyCalls(ApplyCall(remote, calls[0]), calls[1..])
  }

  /** Idempotence: once a run has exited normally, running it again
      against the configuration it left behind issues no update and reports
      no change, whatever the later replies. */
  lemma {:induction false} RerunIsNoOp(p: Params, remote: map<string, ApiConfig>,
                                        updateReply: Result<ConfigValues>, summary: ConfigValues,
                                        updateReply2: Result<ConfigValues>, summary2: ConfigValues)
    requires ConfigRun(p, Ok(remote), updateReply, summary).outcome.Exit?
    ensures var after := ApplyCalls(remote, ConfigRun(p, Ok(remote), updateReply, summary).calls);
            var again := ConfigRun(p, Ok(after), updateReply2, summary2);
            again.calls == [] && again.outcome.Exit? && !again.outcome.changed
  {
    var first := ConfigRun(p, Ok(remote), updateReply, summary);
    if first.calls != [] {
      var key := p.name.value;
      var call := UpdateConfig(map[key := Target(p)]);
      assert first.calls == [call];
      var after := ApplyCall(remote, call);
      assert ApplyCalls(remote, first.calls) == ApplyCalls(after, []) == after;
      assert SettingsOf(after)[key].value == Target(p);
    }
  }
}
