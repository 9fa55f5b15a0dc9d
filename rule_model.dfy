/**
 * The rename engine's data: rules with their kind-specific optional
 * configuration, presets (a named, ordered rule list) and the file records
 * of a batch.
 */
module RuleModel {
  import opened Wrappers

  /** The closed set of rule kinds. */
  datatype RuleType = Prefix | Suffix | Replace | Numbering | Date

  /** Where a date rule puts the date relative to the name: `'prefix'` or `'suffix'`. */
  datatype Position = BeforeName | AfterName

  /**
   * A rule's configuration. Every field is optional; which ones a rule kind
   * reads, and the defaults it falls back on, are decided by the transformer.
   * A numeric field set from an unparsable input (JavaScript `NaN`) is `None`:
   * like an absent field, it is falsy wherever it is read.
   */
  datatype Config = Config(
    text: Option<string>,
    search: Option<string>,
    replace: Option<string>,
    start: Option<int>,
    step: Option<int>,
    digits: Option<int>,
    format: Option<string>,
    position: Option<Position>)

  const EmptyConfig := Config(None, None, None, None, None, None, None, None)

  /** A rule: an identifier, a kind, its configuration and an on/off flag kept apart from the configuration. */
  datatype Rule = Rule(id: string, ruleType: RuleType, config: Config, active: bool)

  datatype PresetData = PresetData(rules: seq<Rule>)

  /** A stored preset: an ordered rule list under `data.rules`. */
  datatype Preset = Preset(id: string, name: string, data: PresetData)

  /** A browser `File`: its name and its bytes. */
  datatype Blob = Blob(name: string, content: seq<bv8>)

  /**
   * A file of the batch. `name` is the dropped file's own name, `newName`
   * the name the rules have produced so far, `originalFile` the dropped file.
   */
  datatype FileRecord = FileRecord(
    id: string,
    name: string,
    preview: string,
    newName: string,
    originalFile: Blob)

  /** The kind's label, as the `type` field spells it. */
  function TypeName(t: RuleType): string {
    match t
    case Prefix => "prefix"
    case Suffix => "suffix"
    case Replace => "replace"
    case Numbering => "numbering"
    case Date => "date"
  }

  /** Reads a `type` label; anything outside the five labels is not a rule kind. */
  function ParseTypeName(s: string): (r: Option<RuleType>)
    ensures r.Some? ==> TypeName(r.value) == s
  {
    if s == "prefix" then Some(Prefix)
    else if s == "suffix" then Some(Suffix)
    else if s == "replace" then Some(Replace)
    else if s == "numbering" then Some(Numbering)
    else if s == "date" then Some(Date)
    else None
  }

  /** The five labels are distinct: every kind is recovered from its label. */
  lemma TypeNameRoundTrip(t: RuleType)
    ensures ParseTypeName(TypeName(t)) == Some(t)
  {
  }

  /** No label contains a comma, so a comma-separated list of labels can be split back. */
  lemma TypeNameHasNoComma(t: RuleType)
    ensures ',' !in TypeName(t) && |TypeName(t)| > 0
  {
  }
}
