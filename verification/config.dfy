/** The per-group reminder configuration: reading the parsed config file,
    accepting the older shapes it may still have, and writing it back in the
    one current shape `{"<group>": {"event_reminder": {"enabled": <bool>}}}`. */
module Config {
  import opened Basics

  /** A parsed JSON value (numbers restricted to integers). */
  datatype Json =
    | JNull
    | JBool(b: bool)
    | JInt(i: int)
    | JString(s: string)
    | JArray(elems: seq<Json>)
    | JObject(fields: map<string, Json>)

  /** Python's `bool(v)` on a parsed JSON value: exactly `null`, `false`, `0`
      and the empty string, list and object are false. */
  predicate Truthy(v: Json)
    ensures !Truthy(v) <==> v in {JNull, JBool(false), JInt(0), JString(""), JArray([]), JObject(map[])}
  {
    match v
    case JNull => false
    case JBool(b) => b
    case JInt(i) => i != 0
    case JString(s) => |s| > 0
    case JArray(es) => |es| > 0
    case JObject(fs) => assert |fs| == 0 ==> fs == map[]; |fs| > 0
  }

  /** Python's `d.get(key, False)` followed by `bool(...)`. */
  predicate FlagOf(fields: map<string, Json>, key: string) {
    key in fields && Truthy(fields[key])
  }

  /** The enabled flag of one group's entry, whatever its shape: the nested
      `event_reminder.enabled` when `event_reminder` is an object, otherwise a
      top-level `enabled`, otherwise (also for an entry that is not an object)
      disabled. */
  function NormalizeEntry(cfg: Json): (enabled: bool)
    ensures !cfg.JObject? ==> !enabled
    ensures cfg.JObject? && "event_reminder" in cfg.fields && cfg.fields["event_reminder"].JObject?
            ==> enabled == FlagOf(cfg.fields["event_reminder"].fields, "enabled")
    ensures cfg.JObject? && !("event_reminder" in cfg.fields && cfg.fields["event_reminder"].JObject?)
            ==> enabled == FlagOf(cfg.fields, "enabled")
  {
    match cfg
    case JObject(fs) =>
      if "event_reminder" in fs && fs["event_reminder"].JObject? then FlagOf(fs["event_reminder"].fields, "enabled")
      else if "enabled" in fs then Truthy(fs["enabled"])
      else false
    case _ => false
  }

  /** The in-memory configuration: group id to "reminders enabled". */
  type GroupConfigs = map<string, bool>

  /** Load the parsed config file (`None`: no file, or a file that does not
      parse). Anything but an object at the top yields the empty configuration. */
  function LoadConfig(data: Option<Json>): (cfg: GroupConfigs)
    ensures data.Some? && data.value.JObject? ==> cfg.Keys == data.value.fields.Keys
    ensures data.Some? && data.value.JObject? ==>
              forall g :: g in cfg ==> cfg[g] == NormalizeEntry(data.value.fields[g])
    ensures data.None? || !data.value.JObject? ==> cfg == map[]
  {
    match data
    case Some(JObject(fs)) => map g | g in fs :: NormalizeEntry(fs[g])
    case _ => map[]
  }

  /** The current shape of one group's entry. */
  function Canonical(enabled: bool): Json {
    JObject(map["event_reminder" := JObject(map["enabled" := JBool(enabled)])])
  }

  /** The file contents written for a configuration. */
  function SaveConfig(cfg: GroupConfigs): (data: Json)
    ensures data.JObject? && data.fields.Keys == cfg.Keys
  {
    JObject(map g | g in cfg :: Canonical(cfg[g]))
  }

  /** Reading back what was written gives the configuration that was written. */
  lemma LoadSave(cfg: GroupConfigs)
    ensures LoadConfig(Some(SaveConfig(cfg))) == cfg
  {
    var back := LoadConfig(Some(SaveConfig(cfg)));
    forall g | g in cfg ensures back[g] == cfg[g] {
      assert SaveConfig(cfg).fields[g] == Canonical(cfg[g]);
      assert NormalizeEntry(Canonical(cfg[g])) == cfg[g];
    }
  }

  /** Normalizing a file that is already in the current shape changes nothing. */
  lemma NormalizeCanonical(data: Json)
    requires data.JObject?
    requires forall g :: g in data.fields ==> exists b: bool :: data.fields[g] == Canonical(b)
    ensures SaveConfig(LoadConfig(Some(data))) == data
  {
    var cfg := LoadConfig(Some(data));
    var out := SaveConfig(cfg);
    assert out.fields.Keys == data.fields.Keys;
    forall g | g in data.fields ensures out.fields[g] == data.fields[g] {
      var b: bool :| data.fields[g] == Canonical(b);
      assert NormalizeEntry(Canonical(b)) == b;
    }
  }

  /** The oldest shape, a bare `{"enabled": b}`, reads the same as the current one;
      so does the shape with a sibling `scheduled_send` section. */
  lemma LegacyShapes(b: bool, other: Json)
    ensures NormalizeEntry(JObject(map["enabled" := JBool(b)])) == NormalizeEntry(Canonical(b)) == b
    ensures NormalizeEntry(JObject(map["scheduled_send" := other, "event_reminder" := JObject(map["enabled" := JBool(b)])])) == b
  {
  }

  /** Without an `event_reminder` object, the entry's own `enabled` value
      decides, by its truthiness, whatever else the entry holds. */
  lemma BareFlagDecides(fields: map<string, Json>, v: Json)
    requires !("event_reminder" in fields && fields["event_reminder"].JObject?)
    ensures NormalizeEntry(JObject(fields["enabled" := v])) == Truthy(v)
  {
    assert "event_reminder" in fields["enabled" := v] ==> fields["enabled" := v]["event_reminder"] == fields["event_reminder"];
  }

  /** The nested flag wins over a bare top-level flag. */
  lemma NestedTakesPrecedence(nested: Json, bare: Json)
    ensures NormalizeEntry(JObject(map["enabled" := bare, "event_reminder" := JObject(map["enabled" := nested])])) == Truthy(nested)
  {
  }

  /** Groups missing from the configuration count as disabled. */
  predicate IsEnabled(cfg: GroupConfigs, g: string) {
    g in cfg && cfg[g]
  }

  /** The test applied when a reminder fires, on the nested form the
      configuration is held in: the group has an entry and
      `entry["event_reminder"].get("enabled", False)` is truthy. */
  predicate NestedFlagSet(data: Json, g: string) {
    && data.JObject? && g in data.fields
    && data.fields[g].JObject? && "event_reminder" in data.fields[g].fields
    && data.fields[g].fields["event_reminder"].JObject?
    && FlagOf(data.fields[g].fields["event_reminder"].fields, "enabled")
  }

  /** `IsEnabled` is that test on the configuration's nested form. */
  lemma EnabledIffNestedFlag(cfg: GroupConfigs, g: string)
    ensures IsEnabled(cfg, g) <==> NestedFlagSet(SaveConfig(cfg), g)
  {
    if g in cfg {
      assert SaveConfig(cfg).fields[g] == Canonical(cfg[g]);
    }
  }
}
