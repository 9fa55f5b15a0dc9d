/**
 * The rule-list editor: adding a rule with its kind's defaults, editing one
 * field of a rule, removing a rule, moving a rule one place up or down, and
 * the preset payload built from the list.
 */
module RuleEditor {
  import opened Wrappers
  import opened Seqs
  import opened Strings
  import opened RuleModel
  import opened RenameUtil

  // ---------------------------------------------------------------------
  // Adding a rule
  // ---------------------------------------------------------------------

  /**
   * The configuration a new rule starts with: numbering counts from 1 in
   * steps of 1 with 3 digits, a date rule uses `YYYY-MM-DD` placed before
   * the name, every other kind starts empty. No kind starts with text or a
   * search, and the numbering fields agree with the transformer's fallbacks.
   */
  function DefaultConfig(t: RuleType): (config: Config)
    ensures !HasText(config.text) && !HasText(config.search)
    ensures NumberOr(config.start, 1) == 1 && NumberOr(config.step, 1) == 1 && NumberOr(config.digits, 3) == 3
    ensures HasText(config.format) <==> t == Date
    ensures config.position.Some? <==> t == Date
    ensures t == Date ==> config.format == Some(DefaultDateFormat) && config.position == Some(BeforeName)
  {
    match t
    case Numbering => EmptyConfig.(start := Some(1), step := Some(1), digits := Some(3))
    case Date => EmptyConfig.(format := Some(DefaultDateFormat), position := Some(BeforeName))
    case _ => EmptyConfig
  }

  /** `addRule`: a new active rule with the kind's defaults goes to the end of the list. */
  function AddRule(rules: seq<Rule>, t: RuleType, id: string): (r: seq<Rule>)
    ensures |r| == |rules| + 1 && r[..|rules|] == rules
    ensures r[|rules|].id == id && r[|rules|].ruleType == t && r[|rules|].active
    ensures r[|rules|].config == DefaultConfig(t)
  {
    rules + [Rule(id, t, DefaultConfig(t), true)]
  }

  /** A freshly added prefix, suffix or replace rule has no text yet and leaves a name alone. */
  lemma FreshTextRuleIsNoOp(base: string, t: RuleType, id: string, fileIndex: nat, clock: Clock)
    requires t == Prefix || t == Suffix || t == Replace
    ensures ApplyRule(base, AddRule([], t, id)[0], fileIndex, clock) == base
  {
    assert AddRule([], t, id)[0].config == EmptyConfig;
  }

  /**
   * A freshly added numbering rule appends `_` and the file's 1-based
   * position padded to three digits.
   */
  lemma FreshNumberingRule(base: string, id: string, fileIndex: nat, clock: Clock)
    ensures ApplyRule(base, AddRule([], Numbering, id)[0], fileIndex, clock)
         == base + "_" + PadStart(Decimal(1 + fileIndex), 3, '0')
  {
    var config := AddRule([], Numbering, id)[0].config;
    assert NumberAt(config, fileIndex) == 1 + fileIndex;
    assert NumberOr(config.digits, 3) == 3;
  }

  /** A freshly added date rule puts today's `YYYY-MM-DD` and `_` in front of the name. */
  lemma FreshDateRule(base: string, id: string, fileIndex: nat, clock: Clock)
    ensures ApplyRule(base, AddRule([], Date, id)[0], fileIndex, clock)
         == Decimal(clock.year) + "-" + Pad2(clock.month) + "-" + Pad2(clock.day) + "_" + base
  {
    var config := AddRule([], Date, id)[0].config;
    assert config.format == Some(DefaultDateFormat) && config.position == Some(BeforeName);
    assert DateText(config, clock) == FormatDate(clock, DefaultDateFormat);
    FormatDateDefault(clock);
  }

  // ---------------------------------------------------------------------
  // Editing one field
  // ---------------------------------------------------------------------

  /** An edit the rule card makes: the on/off switch or one configuration field. */
  datatype Update =
    | SetActive(active: bool)
    | SetText(text: string)
    | SetSearch(search: string)
    | SetReplace(replace: string)
    | SetStart(start: Option<int>)
    | SetStep(step: Option<int>)
    | SetDigits(digits: Option<int>)
    | SetFormat(format: string)
    | SetPosition(position: Position)

  /** The configuration fields, by name. */
  datatype ConfigKey = TextKey | SearchKey | ReplaceKey | StartKey | StepKey | DigitsKey | FormatKey | PositionKey

  /** A field's value, whatever its type. */
  datatype FieldValue = TextValue(s: Option<string>) | NumberValue(n: Option<int>) | PositionValue(p: Option<Position>)

  /** Reads a configuration field by name. */
  function Get(config: Config, key: ConfigKey): FieldValue {
    match key
    case TextKey => TextValue(config.text)
    case SearchKey => TextValue(config.search)
    case ReplaceKey => TextValue(config.replace)
    case StartKey => NumberValue(config.start)
    case StepKey => NumberValue(config.step)
    case DigitsKey => NumberValue(config.digits)
    case FormatKey => TextValue(config.format)
    case PositionKey => PositionValue(config.position)
  }

  /** Two configurations agreeing on every field are the same configuration. */
  lemma {:induction false} ConfigExtensionality(a: Config, b: Config)
    requires forall key :: Get(a, key) == Get(b, key)
    ensures a == b
  {
    assert Get(a, TextKey) == Get(b, TextKey);
    assert Get(a, SearchKey) == Get(b, SearchKey);
    assert Get(a, ReplaceKey) == Get(b, ReplaceKey);
    assert Get(a, StartKey) == Get(b, StartKey);
    assert Get(a, StepKey) == Get(b, StepKey);
    assert Get(a, DigitsKey) == Get(b, DigitsKey);
    assert Get(a, FormatKey) == Get(b, FormatKey);
    assert Get(a, PositionKey) == Get(b, PositionKey);
  }

  /** The field a configuration edit writes. */
  function KeyOf(u: Update): ConfigKey
    requires !u.SetActive?
  {
    match u
    case SetText(_) => TextKey
    case SetSearch(_) => SearchKey
    case SetReplace(_) => ReplaceKey
    case SetStart(_) => StartKey
    case SetStep(_) => StepKey
    case SetDigits(_) => DigitsKey
    case SetFormat(_) => FormatKey
    case SetPosition(_) => PositionKey
  }

  /** The value a configuration edit writes. */
  function ValueOf(u: Update): FieldValue
    requires !u.SetActive?
  {
    match u
    case SetText(s) => TextValue(Some(s))
    case SetSearch(s) => TextValue(Some(s))
    case SetReplace(s) => TextValue(Some(s))
    case SetStart(n) => NumberValue(n)
    case SetStep(n) => NumberValue(n)
    case SetDigits(n) => NumberValue(n)
    case SetFormat(s) => TextValue(Some(s))
    case SetPosition(p) => PositionValue(Some(p))
  }

  /** `{ ...config, [field]: value }`: the edited field takes the new value, every other field keeps its own. */
  function UpdateConfig(config: Config, u: Update): (r: Config)
    requires !u.SetActive?
    ensures forall key :: Get(r, key) == if key == KeyOf(u) then ValueOf(u) else Get(config, key)
  {
    match u
    case SetText(s) => config.(text := Some(s))
    case SetSearch(s) => config.(search := Some(s))
    case SetReplace(s) => config.(replace := Some(s))
    case SetStart(n) => config.(start := n)
    case SetStep(n) => config.(step := n)
    case SetDigits(n) => config.(digits := n)
    case SetFormat(s) => config.(format := Some(s))
    case SetPosition(p) => config.(position := Some(p))
  }

  /** One rule after an edit: the switch sets `active`, any other edit rewrites one configuration field. */
  function UpdateOne(rule: Rule, u: Update): (r: Rule)
    ensures r.id == rule.id && r.ruleType == rule.ruleType
    ensures u.SetActive? ==> r.active == u.active && r.config == rule.config
    ensures !u.SetActive? ==> (r.active == rule.active &&
      forall key :: Get(r.config, key) == if key == KeyOf(u) then ValueOf(u) else Get(rule.config, key))
  {
    if u.SetActive? then rule.(active := u.active)
    else rule.(config := UpdateConfig(rule.config, u))
  }

  /**
   * `updateRule`: every rule whose id matches is edited, every other rule is
   * kept as it is; ids, kinds and order never change.
   */
  function UpdateRule(rules: seq<Rule>, id: string, u: Update): (r: seq<Rule>)
    ensures |r| == |rules|
    ensures forall i :: 0 <= i < |r| ==> r[i].id == rules[i].id && r[i].ruleType == rules[i].ruleType
    ensures forall i :: 0 <= i < |r| && rules[i].id != id ==> r[i] == rules[i]
    ensures forall i :: 0 <= i < |r| && rules[i].id == id && u.SetActive? ==>
      r[i].active == u.active && r[i].config == rules[i].config
    ensures forall i :: 0 <= i < |r| && rules[i].id == id && !u.SetActive? ==>
      r[i].active == rules[i].active &&
      forall key :: Get(r[i].config, key) == if key == KeyOf(u) then ValueOf(u) else Get(rules[i].config, key)
  {
    seq(|rules|, i requires 0 <= i < |rules| => if rules[i].id != id then rules[i] else UpdateOne(rules[i], u))
  }

  /** Making the same edit twice is the same as making it once. */
  lemma {:induction false} UpdateRuleIdempotent(rules: seq<Rule>, id: string, u: Update)
    ensures UpdateRule(UpdateRule(rules, id, u), id, u) == UpdateRule(rules, id, u)
  {
    var once := UpdateRule(rules, id, u);
    var twice := UpdateRule(once, id, u);
    forall i | 0 <= i < |rules| ensures twice[i] == once[i] {
      if rules[i].id == id && !u.SetActive? {
        ConfigExtensionality(twice[i].config, once[i].config);
      }
    }
  }

  /** Writing two different fields of a configuration can be done in either order. */
  lemma UpdateConfigCommute(config: Config, u: Update, v: Update)
    requires !u.SetActive? && !v.SetActive? && KeyOf(u) != KeyOf(v)
    ensures UpdateConfig(UpdateConfig(config, u), v) == UpdateConfig(UpdateConfig(config, v), u)
  {
    ConfigExtensionality(UpdateConfig(UpdateConfig(config, u), v), UpdateConfig(UpdateConfig(config, v), u));
  }

  /** Edits of two different configuration fields of a rule can be made in either order. */
  lemma {:induction false} UpdatesCommute(rules: seq<Rule>, id: string, u: Update, v: Update)
    requires !u.SetActive? && !v.SetActive? && KeyOf(u) != KeyOf(v)
    ensures UpdateRule(UpdateRule(rules, id, u), id, v) == UpdateRule(UpdateRule(rules, id, v), id, u)
  {
    var uv := UpdateRule(UpdateRule(rules, id, u), id, v);
    var vu := UpdateRule(UpdateRule(rules, id, v), id, u);
    forall i | 0 <= i < |rules| ensures uv[i] == vu[i] {
      if rules[i].id == id {
        var rule := rules[i];
        assert uv[i] == rule.(config := UpdateConfig(UpdateConfig(rule.config, u), v));
        assert vu[i] == rule.(config := UpdateConfig(UpdateConfig(rule.config, v), u));
        UpdateConfigCommute(rule.config, u, v);
      }
    }
  }

  // ---------------------------------------------------------------------
  // Removing a rule
  // ---------------------------------------------------------------------

  predicate HasOtherId(id: string, rule: Rule) {
    rule.id != id
  }

  /** `removeRule`: every rule with the id is dropped, the others keep their order. */
  function RemoveRule(rules: seq<Rule>, id: string): (r: seq<Rule>)
    ensures |r| <= |rules|
    ensures forall i :: 0 <= i < |r| ==> r[i].id != id
  {
    Filter(rules, rule => HasOtherId(id, rule))
  }

  /** Removal keeps every rule with another id exactly as often as it occurred, and no rule with the id. */
  lemma RemoveRuleContents(rules: seq<Rule>, id: string, x: Rule)
    ensures multiset(RemoveRule(rules, id))[x] == if x.id == id then 0 else multiset(rules)[x]
  {
    FilterCounts(rules, rule => HasOtherId(id, rule), x);
  }

  /** Removal keeps the relative order: it acts on each part of a list separately. */
  lemma RemoveRuleKeepsOrder(a: seq<Rule>, b: seq<Rule>, id: string)
    ensures RemoveRule(a + b, id) == RemoveRule(a, id) + RemoveRule(b, id)
  {
    FilterConcat(a, b, rule => HasOtherId(id, rule));
  }

  /** Removing a rule just added under an id no other rule has gives the list back. */
  lemma AddThenRemove(rules: seq<Rule>, t: RuleType, id: string)
    requires forall i :: 0 <= i < |rules| ==> rules[i].id != id
    ensures RemoveRule(AddRule(rules, t, id), id) == rules
  {
    var keep := rule => HasOtherId(id, rule);
    FilterConcat(rules, [Rule(id, t, DefaultConfig(t), true)], keep);
    FilterSingleton(Rule(id, t, DefaultConfig(t), true), keep);
    FilterKeepsAll(rules, keep);
  }

  /**
   * Switching a rule off renames a batch exactly as removing it would:
   * inactive rules never reach the transformer.
   */
  lemma {:induction false} DeactivateIsRemove(rules: seq<Rule>, id: string)
    ensures ActiveRules(UpdateRule(rules, id, SetActive(false))) == ActiveRules(RemoveRule(rules, id))
    decreases |rules|
  {
    var keep := rule => HasOtherId(id, rule);
    if rules != [] {
      var off := UpdateRule(rules, id, SetActive(false));
      assert off == [off[0]] + off[1..];
      assert off[1..] == UpdateRule(rules[1..], id, SetActive(false));
      DeactivateIsRemove(rules[1..], id);
      assert rules == [rules[0]] + rules[1..];
      FilterConcat([off[0]], off[1..], IsActive);
      FilterSingleton(off[0], IsActive);
      FilterConcat([rules[0]], rules[1..], keep);
      FilterSingleton(rules[0], keep);
      var removed := Filter([rules[0]], keep);
      FilterConcat(removed, RemoveRule(rules[1..], id), IsActive);
      if rules[0].id != id {
        FilterSingleton(rules[0], IsActive);
      }
    }
  }

  // ---------------------------------------------------------------------
  // Moving a rule
  // ---------------------------------------------------------------------

  datatype Direction = Up | Down

  predicate HasRule(rules: seq<Rule>, id: string) {
    exists i :: 0 <= i < |rules| && rules[i].id == id
  }

  /** `findIndex`: the position of the first rule with the id, or -1. */
  function IndexOf(rules: seq<Rule>, id: string): (k: int)
    ensures -1 <= k < |rules|
    ensures k == -1 <==> !HasRule(rules, id)
    ensures k >= 0 ==> rules[k].id == id && forall j :: 0 <= j < k ==> rules[j].id != id
  {
    if rules == [] then -1
    else if rules[0].id == id then 0
    else
      var k := IndexOf(rules[1..], id);
      assert forall j :: 1 <= j < |rules| ==> rules[j] == rules[1..][j - 1];
      if k == -1 then -1 else k + 1
  }

  /** The rule is already first (moving up) or last (moving down): the move does nothing. */
  predicate AtBoundary(rules: seq<Rule>, id: string, dir: Direction)
    requires HasRule(rules, id)
  {
    var k := IndexOf(rules, id);
    (dir == Up && k == 0) || (dir == Down && k == |rules| - 1)
  }

  /** The list after a move: the rule trades places with its neighbour in the direction of the move. */
  function Moved(rules: seq<Rule>, id: string, dir: Direction): (r: seq<Rule>)
    requires HasRule(rules, id)
    ensures |r| == |rules| && multiset(r) == multiset(rules)
  {
    var k := IndexOf(rules, id);
    if AtBoundary(rules, id, dir) then rules
    else Swap(rules, k, if dir == Up then k - 1 else k + 1)
  }

  /**
   * `moveRule`: find the rule, stop at the boundary, otherwise take it out
   * of a copy of the list and splice it back one place further. `moved`
   * tells whether the list changed (and so whether the batch is renamed).
   */
  method MoveRule(rules: seq<Rule>, id: string, dir: Direction) returns (updated: seq<Rule>, moved: bool)
    requires HasRule(rules, id)
    ensures moved <==> !AtBoundary(rules, id, dir)
    ensures updated == Moved(rules, id, dir)
  {
    var index := IndexOf(rules, id);
    if (dir == Up && index == 0) || (dir == Down && index == |rules| - 1) {
      return rules, false;
    }
    var newIndex := if dir == Up then index - 1 else index + 1;
    updated := rules;
    var movedRule := updated[index];
    updated := updated[..index] + updated[index + 1..];
    updated := updated[..newIndex] + [movedRule] + updated[newIndex..];
    moved := true;
    assert updated == Swap(rules, index, newIndex) by {
      forall j | 0 <= j < |rules| ensures updated[j] == Swap(rules, index, newIndex)[j] {
      }
    }
  }

  /** A rule moved up and then down again leaves the list as it was. */
  lemma MoveUpThenDown(rules: seq<Rule>, id: string)
    requires HasRule(rules, id) && !AtBoundary(rules, id, Up)
    ensures HasRule(Moved(rules, id, Up), id)
    ensures Moved(Moved(rules, id, Up), id, Down) == rules
  {
    var k := IndexOf(rules, id);
    var up := Moved(rules, id, Up);
    assert up[k - 1].id == id;
    assert IndexOf(up, id) == k - 1;
    SwapTwice(rules, k, k - 1);
  }

  predicate DistinctIds(rules: seq<Rule>) {
    forall i, j :: 0 <= i < j < |rules| ==> rules[i].id != rules[j].id
  }

  /** When ids are distinct, a rule moved down and then up again leaves the list as it was. */
  lemma MoveDownThenUp(rules: seq<Rule>, id: string)
    requires DistinctIds(rules) && HasRule(rules, id) && !AtBoundary(rules, id, Down)
    ensures HasRule(Moved(rules, id, Down), id)
    ensures Moved(Moved(rules, id, Down), id, Up) == rules
  {
    var k := IndexOf(rules, id);
    var down := Moved(rules, id, Down);
    assert down[k + 1].id == id;
    assert down[k].id != id;
    assert IndexOf(down, id) == k + 1;
    SwapTwice(rules, k, k + 1);
  }

  // ---------------------------------------------------------------------
  // Saving a preset
  // ---------------------------------------------------------------------

  /** A preset name is refused when it is empty after trimming. */
  predicate IsBlankName(name: string) {
    Trim(name) == ""
  }

  /** A name is refused exactly when it is made of whitespace only. */
  lemma BlankNameIsWhitespace(name: string)
    ensures IsBlankName(name) <==> IsBlank(name)
  {
    TrimEmptyIffBlank(name);
  }

  /** The preset payload: each rule copied field by field, in list order. */
  function SerializeRules(rules: seq<Rule>): (data: PresetData)
    ensures data.rules == rules
  {
    PresetData(seq(|rules|, i requires 0 <= i < |rules| =>
      Rule(rules[i].id, rules[i].ruleType, rules[i].config, rules[i].active)))
  }
}
