/**
 * The name transformer: every file's current name is split at its last dot,
 * the active rules are applied in list order to the part before the dot, and
 * the extension is put back. Also the export dispatch (one file or an archive).
 */
module RenameUtil {
  import opened Wrappers
  import opened Seqs
  import opened Strings
  import opened RuleModel

  /** The wall-clock fields a date rule reads (`month` is `getMonth() + 1`). */
  datatype Clock = Clock(year: int, month: nat, day: nat, hours: nat, minutes: nat)

  // ---------------------------------------------------------------------
  // Extension
  // ---------------------------------------------------------------------

  /**
   * Splits a name into the part before its last dot and the extension (from
   * the last dot to the end, or empty when there is no dot).
   */
  function SplitExtension(name: string): (parts: (string, string))
    ensures parts.0 + parts.1 == name
    ensures parts.1 == [] <==> '.' !in name
    ensures parts.1 != [] ==> parts.1[0] == '.' && '.' !in parts.1[1..]
  {
    var dot := LastIndexOf(name, '.');
    if dot < 0 then (name, "")
    else
      assert name[dot..][1..] == name[dot + 1..];
      (name[..dot], name[dot..])
  }

  /** Gluing any base in front of an extension and splitting again gives that extension back. */
  lemma {:induction false} SplitExtensionOfJoin(base: string, ext: string)
    requires ext != [] && ext[0] == '.' && '.' !in ext[1..]
    ensures SplitExtension(base + ext) == (base, ext)
  {
    var name := base + ext;
    var dot := LastIndexOf(name, '.');
    assert name[|base|] == '.';
    assert dot >= |base|;
    assert name[..dot] == base && name[dot..] == ext;
  }

  // ---------------------------------------------------------------------
  // Literal search patterns
  // ---------------------------------------------------------------------

  /** The characters the escaping helper protects with a backslash. */
  predicate IsRegExpSyntax(c: char) {
    c in ".*+?^${}()|[]\\"
  }

  /** Puts a backslash before every regular-expression syntax character. */
  function EscapeRegExp(s: string): (r: string)
    ensures |r| >= |s|
    ensures (forall i :: 0 <= i < |s| ==> !IsRegExpSyntax(s[i])) ==> r == s
  {
    if s == [] then []
    else (if IsRegExpSyntax(s[0]) then ['\\', s[0]] else [s[0]]) + EscapeRegExp(s[1..])
  }

  /**
   * How a regular-expression parser reads a pattern made of plain characters
   * and escaped syntax characters: the literal text the pattern matches, or
   * `None` when the pattern contains an operator (an unescaped syntax
   * character, or an escape outside that set).
   */
  function LiteralPattern(p: string): Option<string>
    decreases |p|
  {
    if p == [] then Some([])
    else if p[0] == '\\' then
      if |p| >= 2 && IsRegExpSyntax(p[1]) then
        match LiteralPattern(p[2..])
        case Some(rest) => Some([p[1]] + rest)
        case None => None
      else None
    else if IsRegExpSyntax(p[0]) then None
    else
      match LiteralPattern(p[1..])
      case Some(rest) => Some([p[0]] + rest)
      case None => None
  }

  /**
   * The escaped search text is a pattern without operators that matches
   * exactly the search text, so a replace rule matches literally.
   */
  lemma {:induction false} EscapeRegExpIsLiteral(s: string)
    ensures LiteralPattern(EscapeRegExp(s)) == Some(s)
  {
    if s != [] {
      EscapeRegExpIsLiteral(s[1..]);
      var e := EscapeRegExp(s);
      if IsRegExpSyntax(s[0]) {
        assert e[2..] == EscapeRegExp(s[1..]);
      } else {
        assert e[1..] == EscapeRegExp(s[1..]);
      }
      assert s == [s[0]] + s[1..];
    }
  }

  // ---------------------------------------------------------------------
  // Date tokens
  // ---------------------------------------------------------------------

  /** `String(n).padStart(2, '0')`. */
  function Pad2(n: nat): (r: string)
    ensures |r| >= 2 && NumericText(r)
  {
    PadStartValue(NatDigits(n), 2);
    PadStart(NatDigits(n), 2, '0')
  }

  /** A calendar field below 100 is written with exactly two digits that read back as the field. */
  lemma Pad2Exact(n: nat)
    requires n < 100
    ensures |Pad2(n)| == 2 && AllDigits(Pad2(n)) && ParseNat(Pad2(n)) == n
  {
    ParseNatDigits(n);
    PadStartValue(NatDigits(n), 2);
    if n >= 10 {
      assert NatDigits(n) == NatDigits(n / 10) + [DigitChar(n % 10)];
    }
  }

  const DefaultDateFormat := "YYYY-MM-DD"

  /**
   * Substitutes the first `YYYY`, then the first `MM`, `DD`, `HH` and `mm`
   * of `format`, in that order, with the clock's fields. Text without token
   * letters passes through unchanged.
   */
  function FormatDate(clock: Clock, format: string): (r: string)
    ensures TokenFreeBefore(format, |format|) ==> r == format
  {
    var withYear := ReplaceFirst(format, "YYYY", Decimal(clock.year));
    var withMonth := ReplaceFirst(withYear, "MM", Pad2(clock.month));
    var withDay := ReplaceFirst(withMonth, "DD", Pad2(clock.day));
    var withHours := ReplaceFirst(withDay, "HH", Pad2(clock.hours));
    var result := ReplaceFirst(withHours, "mm", Pad2(clock.minutes));
    if TokenFreeBefore(format, |format|) then
      ReplaceAbsentToken(format, "YYYY", Decimal(clock.year));
      ReplaceAbsentToken(format, "MM", Pad2(clock.month));
      ReplaceAbsentToken(format, "DD", Pad2(clock.day));
      ReplaceAbsentToken(format, "HH", Pad2(clock.hours));
      ReplaceAbsentToken(format, "mm", Pad2(clock.minutes));
      result
    else
      result
  }

  /** The first characters of the five date tokens. */
  predicate IsTokenHead(c: char) {
    c == 'Y' || c == 'M' || c == 'D' || c == 'H' || c == 'm'
  }

  /** A text none of whose first `k` characters can begin a token. */
  predicate TokenFreeBefore(s: string, k: nat) {
    forall i :: 0 <= i < |s| && i < k ==> !IsTokenHead(s[i])
  }

  lemma NumericTextIsTokenFree(s: string)
    requires NumericText(s)
    ensures TokenFreeBefore(s, |s|)
  {
  }

  lemma NumericTextConcat(a: string, b: string)
    requires NumericText(a) && NumericText(b)
    ensures NumericText(a + b)
  {
    forall i | 0 <= i < |a + b| ensures IsDigit((a + b)[i]) || (a + b)[i] == '-' {
      if i < |a| {
        assert (a + b)[i] == a[i];
      } else {
        assert (a + b)[i] == b[i - |a|];
      }
    }
  }

  /** Replacing the first occurrence of a token in a text that has none changes nothing. */
  lemma ReplaceAbsentToken(s: string, token: string, r: string)
    requires |token| > 0 && IsTokenHead(token[0]) && TokenFreeBefore(s, |s|)
    ensures ReplaceFirst(s, token, r) == s
  {
    NoOccurrenceWithoutHead(s, token, |s| + 1);
    ReplaceFirstNoMatch(s, token, r);
  }

  lemma DefaultFormatYear(y: string)
    ensures ReplaceFirst(DefaultDateFormat, "YYYY", y) == y + "-MM-DD"
  {
    assert DefaultDateFormat == [] + "YYYY" + "-MM-DD";
    ReplaceFirstAt([], "YYYY", "-MM-DD", y);
  }

  lemma DefaultFormatMonth(y: string, m: string)
    requires NumericText(y)
    ensures ReplaceFirst(y + "-MM-DD", "MM", m) == y + "-" + m + "-DD"
  {
    var s := y + "-MM-DD";
    assert s == (y + "-") + "MM" + "-DD";
    NoOccurrenceWithoutHead(s, "MM", |y| + 1);
    ReplaceFirstAt(y + "-", "MM", "-DD", m);
  }

  lemma DefaultFormatDay(y: string, m: string, d: string)
    requires NumericText(y) && NumericText(m)
    ensures ReplaceFirst(y + "-" + m + "-DD", "DD", d) == y + "-" + m + "-" + d
  {
    var a := y + "-" + m + "-";
    var s := y + "-" + m + "-DD";
    assert s == a + "DD" + [];
    assert forall i :: 0 <= i < |a| ==> a[i] != 'D';
    NoOccurrenceWithoutHead(s, "DD", |a|);
    ReplaceFirstAt(a, "DD", [], d);
    assert a + d + [] == y + "-" + m + "-" + d;
  }

  /** The default format yields year, month and day joined by dashes. */
  lemma FormatDateDefault(clock: Clock)
    ensures FormatDate(clock, DefaultDateFormat)
         == Decimal(clock.year) + "-" + Pad2(clock.month) + "-" + Pad2(clock.day)
  {
    var y, m, d := Decimal(clock.year), Pad2(clock.month), Pad2(clock.day);
    var withYear := ReplaceFirst(DefaultDateFormat, "YYYY", y);
    DefaultFormatYear(y);
    var withMonth := ReplaceFirst(withYear, "MM", m);
    DefaultFormatMonth(y, m);
    var withDay := ReplaceFirst(withMonth, "DD", d);
    DefaultFormatDay(y, m, d);
    assert NumericText("-");
    NumericTextConcat(y, "-");
    NumericTextConcat(y + "-", m);
    NumericTextConcat(y + "-" + m, "-");
    NumericTextConcat(y + "-" + m + "-", d);
    NumericTextIsTokenFree(withDay);
    var withHours := ReplaceFirst(withDay, "HH", Pad2(clock.hours));
    ReplaceAbsentToken(withDay, "HH", Pad2(clock.hours));
    ReplaceAbsentToken(withDay, "mm", Pad2(clock.minutes));
  }

  /** Only the first occurrence of a token is filled: a repeated year token stays in the output. */
  lemma FormatDateFirstOccurrenceOnly(clock: Clock)
    ensures FormatDate(clock, "YYYY-YYYY") == Decimal(clock.year) + "-YYYY"
  {
    var y := Decimal(clock.year);
    assert "YYYY-YYYY" == [] + "YYYY" + "-YYYY";
    ReplaceFirstAt([], "YYYY", "-YYYY", y);
    var s := y + "-YYYY";
    assert forall i :: 0 <= i < |s| ==> s[i] != 'M' && s[i] != 'D' && s[i] != 'H' && s[i] != 'm';
    NoOccurrenceWithoutHead(s, "MM", |s| + 1);
    ReplaceFirstNoMatch(s, "MM", Pad2(clock.month));
    NoOccurrenceWithoutHead(s, "DD", |s| + 1);
    ReplaceFirstNoMatch(s, "DD", Pad2(clock.day));
    NoOccurrenceWithoutHead(s, "HH", |s| + 1);
    ReplaceFirstNoMatch(s, "HH", Pad2(clock.hours));
    NoOccurrenceWithoutHead(s, "mm", |s| + 1);
    ReplaceFirstNoMatch(s, "mm", Pad2(clock.minutes));
  }

  // ---------------------------------------------------------------------
  // One rule
  // ---------------------------------------------------------------------

  /** JavaScript `x || d` on a numeric field: absent, `NaN` and `0` all give `d`. */
  function NumberOr(field: Option<int>, d: int): (r: int)
    ensures field.Some? && field.value != 0 ==> r == field.value
    ensures field.None? || field.value == 0 ==> r == d
    ensures r == 0 ==> d == 0
  {
    if field.None? || field.value == 0 then d else field.value
  }

  /** A string field is truthy when present and non-empty. */
  predicate HasText(field: Option<string>) {
    field.Some? && field.value != ""
  }

  /** The number a numbering rule gives the file at `fileIndex`: `start + fileIndex * step`. */
  function NumberAt(config: Config, fileIndex: nat): (n: int)
    ensures fileIndex == 0 ==> n == NumberOr(config.start, 1)
    ensures fileIndex > 0 ==> n == NumberAt(config, fileIndex - 1) + NumberOr(config.step, 1)
  {
    var step := NumberOr(config.step, 1);
    assert fileIndex > 0 ==> fileIndex * step == (fileIndex - 1) * step + step;
    NumberOr(config.start, 1) + fileIndex * step
  }

  /**
   * The label a numbering rule gives the file at `fileIndex`: its number's
   * decimal text, preceded by exactly as many zeros as it takes to reach
   * `digits` characters, and never cut; a non-negative number reads back
   * from the label.
   */
  function NumberLabel(config: Config, fileIndex: nat): (tag: string)
    ensures var text := Decimal(NumberAt(config, fileIndex));
      var digits := NumberOr(config.digits, 3);
      && |tag| == (if digits > |text| then digits else |text|)
      && tag[|tag| - |text|..] == text
      && forall i :: 0 <= i < |tag| - |text| ==> tag[i] == '0'
    ensures NumberAt(config, fileIndex) >= 0 ==>
      AllDigits(tag) && ParseNat(tag) == NumberAt(config, fileIndex)
  {
    var n := NumberAt(config, fileIndex);
    var digits := NumberOr(config.digits, 3);
    var tag := PadStart(Decimal(n), digits, '0');
    if n >= 0 then
      assert Decimal(n) == NatDigits(n);
      ParseNatDigits(n);
      PadStartValue(NatDigits(n), digits);
      tag
    else
      tag
  }

  /** The date text a date rule inserts. */
  function DateText(config: Config, clock: Clock): (date: string)
    ensures HasText(config.format) ==> date == FormatDate(clock, config.format.value)
    ensures !HasText(config.format) ==> date == FormatDate(clock, DefaultDateFormat)
    ensures !HasText(config.format) ==>
      date == Decimal(clock.year) + "-" + Pad2(clock.month) + "-" + Pad2(clock.day)
    ensures HasText(config.format) && TokenFreeBefore(config.format.value, |config.format.value|) ==>
      date == config.format.value
  {
    if HasText(config.format) then FormatDate(clock, config.format.value)
    else
      FormatDateDefault(clock);
      FormatDate(clock, DefaultDateFormat)
  }

  /** A rule that only adds text after the base: suffix, numbering, or a date not placed in front. */
  predicate AppendsToBase(rule: Rule) {
    || rule.ruleType == Suffix
    || rule.ruleType == Numbering
    || (rule.ruleType == Date && rule.config.position != Some(BeforeName))
  }

  /** A rule that only adds text before the base: prefix, or a date placed in front. */
  predicate PrependsToBase(rule: Rule) {
    || rule.ruleType == Prefix
    || (rule.ruleType == Date && rule.config.position == Some(BeforeName))
  }

  /**
   * One rule applied to the part of a name before its extension. Every kind
   * but replace keeps the base whole and adds text on one side of it.
   */
  function ApplyRule(base: string, rule: Rule, fileIndex: nat, clock: Clock): (r: string)
    ensures AppendsToBase(rule) ==> |r| >= |base| && r[..|base|] == base
    ensures PrependsToBase(rule) ==> |r| >= |base| && r[|r| - |base|..] == base
  {
    var config := rule.config;
    match rule.ruleType
    case Prefix => if HasText(config.text) then config.text.value + base else base
    case Suffix => if HasText(config.text) then base + config.text.value else base
    case Replace =>
      // The pattern is EscapeRegExp(search) with the global flag; by
      // EscapeRegExpIsLiteral it matches the search text literally.
      if HasText(config.search) then ReplaceAll(base, config.search.value, config.replace.GetOr(""))
      else base
    case Numbering => base + "_" + NumberLabel(config, fileIndex)
    case Date =>
      var dateText := DateText(config, clock);
      if config.position == Some(BeforeName) then dateText + "_" + base else base + "_" + dateText
  }

  // ---------------------------------------------------------------------
  // A rule list
  // ---------------------------------------------------------------------

  predicate IsActive(rule: Rule) {
    rule.active
  }

  /** The rules with `active` set, in list order; a list of active rules is kept whole. */
  function ActiveRules(rules: seq<Rule>): (r: seq<Rule>)
    ensures |r| <= |rules| && forall i :: 0 <= i < |r| ==> r[i].active
    ensures (forall i :: 0 <= i < |rules| ==> rules[i].active) ==> r == rules
  {
    assert (forall i :: 0 <= i < |rules| ==> rules[i].active) ==> Filter(rules, IsActive) == rules by {
      if forall i :: 0 <= i < |rules| ==> rules[i].active {
        FilterKeepsAll(rules, IsActive);
      }
    }
    Filter(rules, IsActive)
  }

  /**
   * The rules applied one after the other, each to the previous one's
   * output. When every rule only appends, the base survives at the front.
   */
  function FoldRules(base: string, rules: seq<Rule>, fileIndex: nat, clock: Clock): (r: string)
    ensures (forall i :: 0 <= i < |rules| ==> AppendsToBase(rules[i])) ==>
      |r| >= |base| && r[..|base|] == base
  {
    if rules == [] then base
    else
      var before := FoldRules(base, rules[..|rules| - 1], fileIndex, clock);
      var r := ApplyRule(before, rules[|rules| - 1], fileIndex, clock);
      if forall i :: 0 <= i < |rules| ==> AppendsToBase(rules[i]) then
        assert forall i :: 0 <= i < |rules| - 1 ==> rules[..|rules| - 1][i] == rules[i];
        assert r[..|before|][..|base|] == base;
        r
      else
        r
  }

  lemma FoldOneRule(base: string, rule: Rule, fileIndex: nat, clock: Clock)
    ensures FoldRules(base, [rule], fileIndex, clock) == ApplyRule(base, rule, fileIndex, clock)
  {
    assert [rule][..0] == [];
  }

  /** Applying two rule lists in a row is applying their concatenation. */
  lemma {:induction false} FoldRulesAppend(base: string, r1: seq<Rule>, r2: seq<Rule>, fileIndex: nat, clock: Clock)
    ensures FoldRules(base, r1 + r2, fileIndex, clock)
         == FoldRules(FoldRules(base, r1, fileIndex, clock), r2, fileIndex, clock)
  {
    if r2 == [] {
      assert r1 + r2 == r1;
    } else {
      assert (r1 + r2)[..|r1 + r2| - 1] == r1 + r2[..|r2| - 1];
      FoldRulesAppend(base, r1, r2[..|r2| - 1], fileIndex, clock);
    }
  }

  /** A whole name renamed by a list of (active) rules: base transformed, extension kept. */
  function RenameName(name: string, activeRules: seq<Rule>, fileIndex: nat, clock: Clock): (r: string)
    ensures var ext := SplitExtension(name).1; |r| >= |ext| && r[|r| - |ext|..] == ext
  {
    var parts := SplitExtension(name);
    FoldRules(parts.0, activeRules, fileIndex, clock) + parts.1
  }

  /**
   * Once a name has an extension, renaming keeps it: splitting the new name
   * finds the same extension, however the base was changed.
   */
  lemma ExtensionSurvivesRename(name: string, activeRules: seq<Rule>, fileIndex: nat, clock: Clock)
    requires '.' in name
    ensures SplitExtension(RenameName(name, activeRules, fileIndex, clock)).1 == SplitExtension(name).1
  {
    var parts := SplitExtension(name);
    SplitExtensionOfJoin(FoldRules(parts.0, activeRules, fileIndex, clock), parts.1);
  }

  lemma ApplyPrefix(base: string, rule: Rule, fileIndex: nat, clock: Clock)
    requires rule.ruleType == Prefix && HasText(rule.config.text)
    ensures ApplyRule(base, rule, fileIndex, clock) == rule.config.text.value + base
  {
  }

  /** A prefix rule with text puts the text in front of the whole name. */
  lemma PrefixPrependsToName(name: string, rule: Rule, fileIndex: nat, clock: Clock)
    requires rule.ruleType == Prefix && HasText(rule.config.text)
    ensures RenameName(name, [rule], fileIndex, clock) == rule.config.text.value + name
  {
    var parts := SplitExtension(name);
    var text := rule.config.text.value;
    FoldOneRule(parts.0, rule, fileIndex, clock);
    ApplyPrefix(parts.0, rule, fileIndex, clock);
    calc {
      RenameName(name, [rule], fileIndex, clock);
      FoldRules(parts.0, [rule], fileIndex, clock) + parts.1;
      text + parts.0 + parts.1;
      { assert parts.0 + parts.1 == name; }
      text + name;
    }
  }

  /** A suffix rule with text inserts the text just before the extension. */
  lemma SuffixInsertsBeforeExtension(name: string, rule: Rule, fileIndex: nat, clock: Clock)
    requires rule.ruleType == Suffix && HasText(rule.config.text)
    ensures var parts := SplitExtension(name);
      RenameName(name, [rule], fileIndex, clock) == parts.0 + rule.config.text.value + parts.1
  {
    var parts := SplitExtension(name);
    FoldOneRule(parts.0, rule, fileIndex, clock);
    assert ApplyRule(parts.0, rule, fileIndex, clock) == parts.0 + rule.config.text.value;
  }

  /** A date rule whose position is `'prefix'` puts the date and `_` in front of the whole name. */
  lemma DateBeforeName(name: string, rule: Rule, fileIndex: nat, clock: Clock)
    requires rule.ruleType == Date && rule.config.position == Some(BeforeName)
    ensures RenameName(name, [rule], fileIndex, clock) == DateText(rule.config, clock) + "_" + name
  {
    var parts := SplitExtension(name);
    var date := DateText(rule.config, clock);
    FoldOneRule(parts.0, rule, fileIndex, clock);
    ApplyDate(parts.0, rule, fileIndex, clock);
    FrontOfSplitName(name, date + "_");
  }

  /** Text put in front of a name's base ends up in front of the whole name. */
  lemma FrontOfSplitName(name: string, front: string)
    ensures front + SplitExtension(name).0 + SplitExtension(name).1 == front + name
  {
    var parts := SplitExtension(name);
    assert parts.0 + parts.1 == name;
  }

  /**
   * A date rule whose position is `'suffix'` or absent puts `_` and the date
   * just before the extension.
   */
  lemma DateAfterName(name: string, rule: Rule, fileIndex: nat, clock: Clock)
    requires rule.ruleType == Date && rule.config.position != Some(BeforeName)
    ensures var parts := SplitExtension(name);
      RenameName(name, [rule], fileIndex, clock) == parts.0 + "_" + DateText(rule.config, clock) + parts.1
  {
    var parts := SplitExtension(name);
    FoldOneRule(parts.0, rule, fileIndex, clock);
    ApplyDate(parts.0, rule, fileIndex, clock);
  }

  lemma ApplyDate(base: string, rule: Rule, fileIndex: nat, clock: Clock)
    requires rule.ruleType == Date
    ensures var date := DateText(rule.config, clock);
      ApplyRule(base, rule, fileIndex, clock)
        == if rule.config.position == Some(BeforeName) then date + "_" + base else base + "_" + date
  {
  }

  /**
   * A prefix or suffix rule whose text is absent or empty (a cleared text
   * box stores `""`) leaves every name as it is.
   */
  lemma EmptyTextIsNoOp(name: string, rule: Rule, fileIndex: nat, clock: Clock)
    requires rule.ruleType == Prefix || rule.ruleType == Suffix
    requires rule.config.text == None || rule.config.text == Some("")
    ensures RenameName(name, [rule], fileIndex, clock) == name
  {
    var parts := SplitExtension(name);
    FoldOneRule(parts.0, rule, fileIndex, clock);
    assert ApplyRule(parts.0, rule, fileIndex, clock) == parts.0;
  }

  /** A replace rule whose search text is absent or empty leaves every name as it is. */
  lemma EmptySearchIsNoOp(name: string, rule: Rule, fileIndex: nat, clock: Clock)
    requires rule.ruleType == Replace
    requires rule.config.search == None || rule.config.search == Some("")
    ensures RenameName(name, [rule], fileIndex, clock) == name
  {
    var parts := SplitExtension(name);
    FoldOneRule(parts.0, rule, fileIndex, clock);
    assert ApplyRule(parts.0, rule, fileIndex, clock) == parts.0;
  }

  /** Only the last dot starts the extension: a suffix lands between `report.final` and `.docx`. */
  lemma SuffixOnDottedName(rule: Rule, clock: Clock)
    requires rule.ruleType == Suffix && rule.config.text == Some("_v2")
    ensures RenameName("report.final.docx", [rule], 0, clock) == "report.final_v2.docx"
  {
    DottedNameSplit();
    SuffixInsertsBeforeExtension("report.final.docx", rule, 0, clock);
    assert "report.final" + "_v2" + ".docx" == "report.final_v2.docx";
  }

  lemma DottedNameSplit()
    ensures SplitExtension("report.final.docx") == ("report.final", ".docx")
  {
    var base, ext := "report.final", ".docx";
    assert ext[1..] == "docx";
    SplitExtensionOfJoin(base, ext);
    assert base + ext == "report.final.docx";
  }

  /**
   * A replace rule with a search text rewrites, before the extension, every
   * occurrence of the search text by the replacement (empty when unset).
   */
  lemma ReplaceRewritesBase(name: string, rule: Rule, fileIndex: nat, clock: Clock)
    requires rule.ruleType == Replace && HasText(rule.config.search)
    ensures var parts := SplitExtension(name);
      RenameName(name, [rule], fileIndex, clock)
        == ReplaceAll(parts.0, rule.config.search.value, rule.config.replace.GetOr("")) + parts.1
  {
    FoldOneRule(SplitExtension(name).0, rule, fileIndex, clock);
  }

  /** Replacement is global: `foofoobar` with `foo` replaced by `bar` becomes `barbarbar`. */
  lemma ReplaceEveryOccurrence()
    ensures ReplaceAll("foofoobar", "foo", "bar") == "barbarbar"
  {
    var whole, rest := "foofoobar", "foobar";
    assert whole[..3] == "foo" && whole[3..] == rest;
    assert rest[..3] == "foo" && rest[3..] == "bar";
    NoOccurrenceWithoutHead("bar", "foo", 4);
    ReplaceAllNoMatch("bar", "foo", "bar");
    calc {
      ReplaceAll(whole, "foo", "bar");
      "bar" + ReplaceAll(rest, "foo", "bar");
      "bar" + ("bar" + ReplaceAll("bar", "foo", "bar"));
      "bar" + ("bar" + "bar");
    }
  }

  // ---------------------------------------------------------------------
  // The batch
  // ---------------------------------------------------------------------

  /**
   * A file after the active rules have run: it starts from its current name
   * (the comparison with `name` always selects `newName`), only `newName`
   * changes, and it keeps the extension of the name before.
   */
  function RenamedFile(file: FileRecord, activeRules: seq<Rule>, fileIndex: nat, clock: Clock): (r: FileRecord)
    ensures r.id == file.id && r.name == file.name && r.preview == file.preview
    ensures r.originalFile == file.originalFile
    ensures var ext := SplitExtension(file.newName).1;
      |r.newName| >= |ext| && r.newName[|r.newName| - |ext|..] == ext
  {
    var current := if file.newName == file.name then file.name else file.newName;
    file.(newName := RenameName(current, activeRules, fileIndex, clock))
  }

  /** Every file of the batch renamed, numbered by its position in the batch. */
  function RenameBatch(files: seq<FileRecord>, activeRules: seq<Rule>, clock: Clock): (r: seq<FileRecord>)
    ensures |r| == |files|
    ensures forall i :: 0 <= i < |r| ==> r[i].id == files[i].id && r[i].originalFile == files[i].originalFile
  {
    MapIndexed(files, (file, i) => RenamedFile(file, activeRules, i, clock))
  }

  /**
   * The batch after the rule list has run: same length, same order, only
   * `newName` changed, every new name ending with the extension of the name
   * it came from.
   */
  function NewFilenames(files: seq<FileRecord>, rules: seq<Rule>, clock: Clock): (r: seq<FileRecord>)
    ensures |r| == |files|
    ensures forall i :: 0 <= i < |r| ==> r[i] == files[i].(newName := r[i].newName)
    ensures forall i :: 0 <= i < |r| ==>
      var ext := SplitExtension(files[i].newName).1;
      |r[i].newName| >= |ext| && r[i].newName[|r[i].newName| - |ext|..] == ext
  {
    RenameBatch(files, ActiveRules(rules), clock)
  }

  /**
   * The callback `generateNewFilenames` maps over the batch: split off the
   * extension, run a loop over the active rules that rewrites the name
   * without its extension, and put the extension back.
   */
  method RenameFile(file: FileRecord, activeRules: seq<Rule>, fileIndex: nat, clock: Clock)
    returns (renamed: FileRecord)
    ensures renamed == RenamedFile(file, activeRules, fileIndex, clock)
  {
    var baseName := if file.newName == file.name then file.name else file.newName;
    var dot := LastIndexOf(baseName, '.');
    var extension := if dot >= 0 then baseName[dot..] else "";
    var nameWithoutExtension := if dot >= 0 then baseName[..dot] else baseName;
    ghost var start := nameWithoutExtension;
    var k := 0;
    while k < |activeRules|
      invariant 0 <= k <= |activeRules|
      invariant nameWithoutExtension == FoldRules(start, activeRules[..k], fileIndex, clock)
    {
      assert activeRules[..k + 1][..k] == activeRules[..k];
      nameWithoutExtension := ApplyRule(nameWithoutExtension, activeRules[k], fileIndex, clock);
      k := k + 1;
    }
    assert activeRules[..k] == activeRules;
    assert (start, extension) == SplitExtension(baseName);
    renamed := file.(newName := nameWithoutExtension + extension);
  }

  /** Renaming one more file of the batch appends that file, renamed, to the renamed prefix. */
  lemma RenameBatchSnoc(files: seq<FileRecord>, k: nat, activeRules: seq<Rule>, clock: Clock)
    requires k < |files|
    ensures RenameBatch(files[..k + 1], activeRules, clock)
         == RenameBatch(files[..k], activeRules, clock) + [RenamedFile(files[k], activeRules, k, clock)]
  {
    MapIndexedSnoc(files, k, (file, i) => RenamedFile(file, activeRules, i, clock));
  }

  /** `generateNewFilenames`: the active rules, then every file renamed in batch order. */
  method GenerateNewFilenames(files: seq<FileRecord>, rules: seq<Rule>, clock: Clock)
    returns (result: seq<FileRecord>)
    ensures result == NewFilenames(files, rules, clock)
  {
    var activeRules := ActiveRules(rules);
    result := [];
    var fileIndex := 0;
    while fileIndex < |files|
      invariant 0 <= fileIndex <= |files|
      invariant result == RenameBatch(files[..fileIndex], activeRules, clock)
    {
      var renamed := RenameFile(files[fileIndex], activeRules, fileIndex, clock);
      RenameBatchSnoc(files, fileIndex, activeRules, clock);
      result := result + [renamed];
      fileIndex := fileIndex + 1;
    }
    assert files[..fileIndex] == files;
  }

  /** Inactive rules are skipped wherever they stand in the list. */
  lemma InactiveRuleHasNoEffect(files: seq<FileRecord>, before: seq<Rule>, rule: Rule, after: seq<Rule>, clock: Clock)
    requires !rule.active
    ensures NewFilenames(files, before + [rule] + after, clock) == NewFilenames(files, before + after, clock)
  {
    FilterConcat(before + [rule], after, IsActive);
    FilterConcat(before, [rule], IsActive);
    FilterConcat(before, after, IsActive);
    FilterSingleton(rule, IsActive);
    assert Filter(before + [rule] + after, IsActive) == Filter(before + after, IsActive);
    assert ActiveRules(before + [rule] + after) == ActiveRules(before + after);
  }

  /** With no active rule every file keeps its name, and so the whole batch is unchanged. */
  lemma NoActiveRuleKeepsBatch(files: seq<FileRecord>, rules: seq<Rule>, clock: Clock)
    requires forall i :: 0 <= i < |rules| ==> !rules[i].active
    ensures NewFilenames(files, rules, clock) == files
  {
    FilterDropsAll(rules, IsActive);
    var r := NewFilenames(files, rules, clock);
    forall i | 0 <= i < |files| ensures r[i] == files[i] {
      assert r[i] == RenamedFile(files[i], [], i, clock);
    }
  }

  /**
   * With a single numbering rule, the file at position `i` gets `_` and the
   * label of `start + i * step` just before its extension.
   */
  lemma NumberingFollowsPosition(files: seq<FileRecord>, rule: Rule, clock: Clock, i: nat)
    requires rule.ruleType == Numbering && rule.active && i < |files|
    ensures var parts := SplitExtension(files[i].newName);
      NewFilenames(files, [rule], clock)[i].newName
        == parts.0 + "_" + NumberLabel(rule.config, i) + parts.1
  {
    FilterKeepsAll([rule], IsActive);
    FoldOneRule(SplitExtension(files[i].newName).0, rule, i, clock);
    assert NewFilenames(files, [rule], clock)[i] == RenamedFile(files[i], [rule], i, clock);
  }

  /** Default numbering (start 1, step 1, 3 digits) labels three files `001`, `002`, `003`. */
  lemma DefaultNumberingLabels(config: Config)
    requires config.start == Some(1) && config.step == Some(1) && config.digits == Some(3)
    ensures NumberLabel(config, 0) == "001"
    ensures NumberLabel(config, 1) == "002"
    ensures NumberLabel(config, 2) == "003"
  {
    SingleDigitLabel(config, 0);
    assert DigitChar(1) == '1' && "00" + ['1'] == "001";
    SingleDigitLabel(config, 1);
    assert DigitChar(2) == '2' && "00" + ['2'] == "002";
    SingleDigitLabel(config, 2);
    assert DigitChar(3) == '3' && "00" + ['3'] == "003";
  }

  lemma SingleDigitLabel(config: Config, fileIndex: nat)
    requires config.start == Some(1) && config.step == Some(1) && config.digits == Some(3)
    requires fileIndex < 9
    ensures NumberLabel(config, fileIndex) == "00" + [DigitChar(fileIndex + 1)]
  {
    assert NumberAt(config, fileIndex) == fileIndex + 1;
    assert Decimal(fileIndex + 1) == [DigitChar(fileIndex + 1)];
  }

  /** Falsy numbering fields fall back to the defaults: an explicit `0` start, step or width acts as unset. */
  lemma ZeroNumberingFieldsUseDefaults(config: Config, fileIndex: nat)
    requires config.start == Some(0) && config.step == Some(0) && config.digits == Some(0)
    ensures NumberLabel(config, fileIndex) == NumberLabel(EmptyConfig, fileIndex)
  {
  }

  /**
   * Configured numbering fields are honoured: with a non-zero start, step
   * and width, file `i` gets `start + i * step` padded with zeros to `digits`.
   */
  lemma ConfiguredNumbering(config: Config, fileIndex: nat, start: int, step: int, digits: int)
    requires config.start == Some(start) && config.step == Some(step) && config.digits == Some(digits)
    requires start != 0 && step != 0 && digits != 0
    ensures NumberLabel(config, fileIndex) == PadStart(Decimal(start + fileIndex * step), digits, '0')
  {
  }

  /** A negative number is padded in front of its minus sign: `-5` to three digits is `0-5`. */
  lemma NegativeNumberPadsBeforeSign()
    ensures PadStart(Decimal(-5), 3, '0') == "0-5"
  {
    assert Decimal(-5) == "-5";
  }

  // ---------------------------------------------------------------------
  // Export
  // ---------------------------------------------------------------------

  datatype ArchiveEntry = ArchiveEntry(path: string, content: Blob)

  /** What the browser saves: one file under its new name, or a zip archive. */
  datatype Artifact =
    | SingleFile(fileName: string, content: Blob)
    | Archive(archiveName: string, entries: seq<ArchiveEntry>)

  const ArchiveName := "renamed.zip"

  /**
   * `downloadFiles`: exactly one file is saved directly under its new name;
   * any other number of files goes into `renamed.zip`, one entry per file in
   * batch order, each entry named by the file's new name (equal names are
   * not told apart).
   */
  function DownloadFiles(files: seq<FileRecord>): (a: Artifact)
    ensures a.SingleFile? <==> |files| == 1
    ensures a.SingleFile? ==> a.fileName == files[0].newName && a.content == files[0].originalFile
    ensures a.Archive? ==>
      && a.archiveName == "renamed.zip"
      && |a.entries| == |files|
      && forall i :: 0 <= i < |files| ==>
           a.entries[i].path == files[i].newName && a.entries[i].content == files[i].originalFile
  {
    if |files| == 1 then SingleFile(files[0].newName, files[0].originalFile)
    else Archive(ArchiveName, seq(|files|, i requires 0 <= i < |files| => ArchiveEntry(files[i].newName, files[i].originalFile)))
  }
}
