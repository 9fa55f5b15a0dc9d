/**
 * The rename page: the batch of files, the rule list, the preset name being
 * typed, the credit balance and the download flag, with the handlers that
 * change them. Requests to the credit ledger and the preset store are
 * recorded, in the order they are sent, in the ghost log `requests`; the
 * ledger's answer to a balance update is a parameter.
 */
module RenamePageState {
  import opened Wrappers
  import opened Strings
  import opened RuleModel
  import opened RenameUtil
  import RuleEditor
  import Intake

  /** A request sent to the server. */
  datatype Request =
    | CreditBalanceUpdate(userId: string, credits: int)
    | CreditHistoryEntry(userId: string, amount: string, reason: string)
    | PresetSave(userId: string, presetName: string, presetData: PresetData)

  /** What pressing an apply button led to. */
  datatype ApplyOutcome = NothingToApply | InsufficientCredits(required: nat) | Applied

  /**
   * The guard shared by `applyRules` and `applyPreset`: nothing happens
   * without files or without rules (active or not); otherwise one credit per
   * file is needed.
   */
  function ApplyGate(fileCount: nat, ruleCount: nat, balance: int): (outcome: ApplyOutcome)
    ensures outcome == Applied <==> fileCount > 0 && ruleCount > 0 && balance >= fileCount
    ensures outcome.InsufficientCredits? <==> fileCount > 0 && ruleCount > 0 && balance < fileCount
    ensures outcome.InsufficientCredits? ==> outcome.required == fileCount
  {
    if fileCount > 0 && ruleCount > 0 then
      if balance < fileCount then InsufficientCredits(fileCount) else Applied
    else NothingToApply
  }

  /** Each rule's kind label, in list order. */
  function TypeNames(rules: seq<Rule>): seq<string> {
    seq(|rules|, i requires 0 <= i < |rules| => TypeName(rules[i].ruleType))
  }

  /** The history reason of a rules apply: every rule's kind, inactive ones included, joined by `, `. */
  function RulesReason(rules: seq<Rule>): (reason: string)
    ensures reason == [] <==> rules == []
  {
    if rules != [] then
      TypeNameHasNoComma(rules[0].ruleType);
      Join(TypeNames(rules), ", ")
    else
      Join(TypeNames(rules), ", ")
  }

  /** The reason can be split back at `, ` into the kinds of the rules, one per rule, in order. */
  lemma RulesReasonListsEveryKind(rules: seq<Rule>)
    requires |rules| > 0
    ensures var parts := Split(RulesReason(rules), ", ");
      |parts| == |rules| && forall i :: 0 <= i < |rules| ==> ParseTypeName(parts[i]) == Some(rules[i].ruleType)
  {
    var names := TypeNames(rules);
    assert NoPartContains(names, ", "[0]) by {
      forall j, i | 0 <= j < |names| && 0 <= i < |names[j]| ensures names[j][i] != ", "[0] {
        TypeNameHasNoComma(rules[j].ruleType);
      }
    }
    SplitJoin(names, ", ");
    forall i | 0 <= i < |rules| ensures ParseTypeName(names[i]) == Some(rules[i].ruleType) {
      TypeNameRoundTrip(rules[i].ruleType);
    }
  }

  /** The history amount of a debit of `count` credits: a minus sign and the count. */
  function DebitAmount(count: nat): (amount: string)
    ensures |amount| >= 2 && amount[0] == '-' && AllDigits(amount[1..])
  {
    "-" + Decimal(count)
  }

  /** The amount reads back as minus the number of credits debited. */
  lemma DebitAmountReadsBack(count: nat)
    ensures ParseInt(DebitAmount(count)) == -(count as int)
  {
    var digits := Decimal(count);
    assert DebitAmount(count)[1..] == digits;
    ParseNatDigits(count);
  }

  /**
   * The two ledger requests of an apply: the new balance, then the history
   * entry. Without a signed-in user neither is sent.
   */
  function LedgerRequests(userId: Option<string>, credits: int, count: nat, reason: string): (sent: seq<Request>)
    ensures userId.None? <==> sent == []
    ensures userId.Some? ==> (
      && |sent| == 2
      && sent[0] == CreditBalanceUpdate(userId.value, credits)
      && sent[1].CreditHistoryEntry? && sent[1].userId == userId.value && sent[1].reason == reason)
  {
    if userId.None? then []
    else [CreditBalanceUpdate(userId.value, credits), CreditHistoryEntry(userId.value, DebitAmount(count), reason)]
  }

  /** The history entry's amount is exactly the change the balance update makes. */
  lemma LedgerRequestsAgree(userId: Option<string>, balance: int, count: nat, reason: string)
    requires userId.Some?
    ensures var sent := LedgerRequests(userId, balance - count, count, reason);
      |sent| == 2 && sent[0].CreditBalanceUpdate? && sent[1].CreditHistoryEntry? &&
      sent[0].credits == balance + ParseInt(sent[1].amount)
  {
    DebitAmountReadsBack(count);
  }

  class Page {
    var files: seq<FileRecord>
    var rules: seq<Rule>
    var creditBalance: int
    var downloadReady: bool
    var presetName: string
    const userId: Option<string>
    ghost var requests: seq<Request>

    /** A page opened with the balance and download flag its parent holds, for a signed-in user or none. */
    constructor (userId: Option<string>, creditBalance: int, downloadReady: bool)
      ensures this.userId == userId && this.creditBalance == creditBalance && this.downloadReady == downloadReady
      ensures files == [] && rules == [] && presetName == "" && requests == []
    {
      this.userId := userId;
      this.creditBalance := creditBalance;
      this.downloadReady := downloadReady;
      files := [];
      rules := [];
      presetName := "";
      requests := [];
    }

    /**
     * The body `applyRules` and `applyPreset` share: the gate, then the
     * batch renamed with `ruleSet`, the balance update and the history entry
     * sent, and the download flag raised. The balance shown changes only
     * when the ledger accepted the update.
     */
    method Commit(ruleSet: seq<Rule>, reason: string, clock: Clock, balanceAccepted: bool) returns (outcome: ApplyOutcome)
      modifies this
      ensures outcome == ApplyGate(|old(files)|, |ruleSet|, old(creditBalance))
      ensures outcome != Applied ==> unchanged(this)
      ensures outcome == Applied ==>
        && old(creditBalance) - |old(files)| >= 0
        && files == NewFilenames(old(files), ruleSet, clock)
        && downloadReady
        && rules == old(rules) && presetName == old(presetName)
        && creditBalance == (if userId.Some? && balanceAccepted then old(creditBalance) - |old(files)| else old(creditBalance))
        && requests == old(requests) + LedgerRequests(userId, old(creditBalance) - |old(files)|, |old(files)|, reason)
    {
      if |files| > 0 && |ruleSet| > 0 {
        var requiredCredits := |files|;
        if creditBalance < requiredCredits {
          return InsufficientCredits(requiredCredits);
        }
        var updatedFiles := GenerateNewFilenames(files, ruleSet, clock);
        files := updatedFiles;
        var credits := creditBalance - requiredCredits;
        if userId.Some? {
          requests := requests + [CreditBalanceUpdate(userId.value, credits)];
          if balanceAccepted {
            creditBalance := credits;
          }
        }
        if userId.Some? {
          requests := requests + [CreditHistoryEntry(userId.value, DebitAmount(requiredCredits), reason)];
        }
        downloadReady := true;
        outcome := Applied;
      } else {
        outcome := NothingToApply;
      }
    }

    /** `applyRules`: the page's rule list, its kinds as the history reason. */
    method ApplyRules(clock: Clock, balanceAccepted: bool) returns (outcome: ApplyOutcome)
      modifies this
      ensures outcome == ApplyGate(|old(files)|, |old(rules)|, old(creditBalance))
      ensures outcome != Applied ==> unchanged(this)
      ensures outcome == Applied ==>
        && files == NewFilenames(old(files), old(rules), clock)
        && downloadReady
        && rules == old(rules) && presetName == old(presetName)
        && creditBalance == (if userId.Some? && balanceAccepted then old(creditBalance) - |old(files)| else old(creditBalance))
        && requests == old(requests) + LedgerRequests(userId, old(creditBalance) - |old(files)|, |old(files)|, RulesReason(old(rules)))
    {
      outcome := Commit(rules, RulesReason(rules), clock, balanceAccepted);
    }

    /** `applyPreset`: the preset's rule list, its name as the history reason. */
    method ApplyPreset(preset: Preset, clock: Clock, balanceAccepted: bool) returns (outcome: ApplyOutcome)
      modifies this
      ensures outcome == ApplyGate(|old(files)|, |preset.data.rules|, old(creditBalance))
      ensures outcome != Applied ==> unchanged(this)
      ensures outcome == Applied ==>
        && files == NewFilenames(old(files), preset.data.rules, clock)
        && downloadReady
        && rules == old(rules) && presetName == old(presetName)
        && creditBalance == (if userId.Some? && balanceAccepted then old(creditBalance) - |old(files)| else old(creditBalance))
        && requests == old(requests) + LedgerRequests(userId, old(creditBalance) - |old(files)|, |old(files)|, preset.name)
    {
      outcome := Commit(preset.data.rules, preset.name, clock, balanceAccepted);
    }

    /** `onDrop`: the accepted files, wrapped, go after the files already in the batch. */
    method OnDrop(accepted: seq<Blob>, uuids: seq<string>, previews: seq<string>)
      requires |uuids| == |accepted| && |previews| == |accepted|
      modifies this`files
      ensures files == old(files) + Intake.WrapDropped(accepted, uuids, previews)
    {
      files := files + Intake.WrapDropped(accepted, uuids, previews);
    }

    /** `handleDelete`: the batch is emptied and the download flag cleared. */
    method HandleDelete()
      modifies this`files, this`downloadReady
      ensures files == [] && !downloadReady
    {
      files := [];
      downloadReady := false;
    }

    /** `handleFileDelete`: the records with the id leave the batch; the download flag is left as it is. */
    method HandleFileDelete(fileId: string)
      modifies this`files
      ensures files == Intake.RemoveFile(old(files), fileId)
    {
      files := Intake.RemoveFile(files, fileId);
    }

    /** `handleDownload`, reachable once the batch is renamed and not empty. */
    method HandleDownload() returns (artifact: Artifact)
      requires downloadReady && |files| > 0
      ensures artifact == DownloadFiles(files)
    {
      artifact := DownloadFiles(files);
    }

    /** `addRule`. */
    method AddRule(t: RuleType, id: string)
      modifies this`rules
      ensures rules == RuleEditor.AddRule(old(rules), t, id)
    {
      rules := RuleEditor.AddRule(rules, t, id);
    }

    /** `updateRule`. */
    method UpdateRule(id: string, u: RuleEditor.Update)
      modifies this`rules
      ensures rules == RuleEditor.UpdateRule(old(rules), id, u)
    {
      rules := RuleEditor.UpdateRule(rules, id, u);
    }

    /** `removeRule`. */
    method RemoveRule(id: string)
      modifies this`rules
      ensures rules == RuleEditor.RemoveRule(old(rules), id)
    {
      rules := RuleEditor.RemoveRule(rules, id);
    }

    /**
     * `moveRule`: the list is reordered and, when the rule actually moved,
     * the page's apply runs. That apply sees the rule list from before the
     * move, so the batch is renamed, and the history reason written, with
     * the old order.
     */
    method MoveRule(id: string, dir: RuleEditor.Direction, clock: Clock, balanceAccepted: bool)
      returns (applied: Option<ApplyOutcome>)
      requires RuleEditor.HasRule(rules, id)
      modifies this
      ensures rules == RuleEditor.Moved(old(rules), id, dir)
      ensures presetName == old(presetName)
      ensures applied.None? <==> RuleEditor.AtBoundary(old(rules), id, dir)
      ensures applied.Some? ==> applied.value == ApplyGate(|old(files)|, |old(rules)|, old(creditBalance))
      ensures applied != Some(Applied) ==>
        && files == old(files) && creditBalance == old(creditBalance)
        && downloadReady == old(downloadReady) && requests == old(requests)
      ensures applied == Some(Applied) ==>
        && files == NewFilenames(old(files), old(rules), clock)
        && downloadReady
        && creditBalance == (if userId.Some? && balanceAccepted then old(creditBalance) - |old(files)| else old(creditBalance))
        && requests == old(requests) + LedgerRequests(userId, old(creditBalance) - |old(files)|, |old(files)|, RulesReason(old(rules)))
    {
      var before := rules;
      var updated, moved := RuleEditor.MoveRule(rules, id, dir);
      if !moved {
        return None;
      }
      rules := updated;
      var outcome := Commit(before, RulesReason(before), clock, balanceAccepted);
      applied := Some(outcome);
    }

    /** The preset name field. */
    method EditPresetName(name: string)
      modifies this`presetName
      ensures presetName == name
    {
      presetName := name;
    }

    /**
     * `savePreset`: a blank name does nothing. Otherwise the rule list is
     * sent under the name (only when a user is signed in) and, in every
     * case, the name and the rule list are cleared.
     */
    method SavePreset()
      modifies this`rules, this`presetName, this`requests
      ensures RuleEditor.IsBlankName(old(presetName)) ==>
        rules == old(rules) && presetName == old(presetName) && requests == old(requests)
      ensures !RuleEditor.IsBlankName(old(presetName)) ==>
        && rules == [] && presetName == ""
        && requests == old(requests) +
             (if userId.Some? then [PresetSave(userId.value, old(presetName), RuleEditor.SerializeRules(old(rules)))] else [])
    {
      if Trim(presetName) == "" {
        return;
      }
      var presetData := RuleEditor.SerializeRules(rules);
      if userId.Some? {
        requests := requests + [PresetSave(userId.value, presetName, presetData)];
      }
      presetName := "";
      rules := [];
    }
  }

  /** A saved preset, applied later, renames a batch exactly as the rule list it was saved from. */
  lemma SavedPresetRenamesAlike(files: seq<FileRecord>, rules: seq<Rule>, clock: Clock, id: string, name: string)
    ensures NewFilenames(files, Preset(id, name, RuleEditor.SerializeRules(rules)).data.rules, clock)
         == NewFilenames(files, rules, clock)
  {
  }
}
