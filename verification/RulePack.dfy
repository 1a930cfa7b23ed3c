// Compiling a whole rule: table and action lookup, then key, mask and parameters.
module RulePack {
  import opened Basics
  import opened MatchPack
  import opened ParamPack
  import opened Rules
  import Bits
  import FieldVector
  import Gmp
  import Packs

  // Tables and actions are found by name, the first one winning.
  function FindTable(tables: seq<Table>, name: string): (table: Option<Table>)
    ensures table == None <==> forall i :: 0 <= i < |tables| ==> tables[i].name != name
    ensures table.Some? ==>
      exists i :: 0 <= i < |tables| && tables[i] == table.value && tables[i].name == name
                  && forall j :: 0 <= j < i ==> tables[j].name != name
  {
    if tables == [] then None
    else if tables[0].name == name then Some(tables[0])
    else
      var rest := FindTable(tables[1..], name);
      assert forall i :: 0 < i < |tables| ==> tables[i] == tables[1..][i - 1];
      assert forall i :: 0 <= i < |tables[1..]| ==> tables[1..][i] == tables[i + 1];
      rest
  }

  function FindAction(actions: seq<Action>, name: string): (action: Option<Action>)
    ensures action == None <==> forall i :: 0 <= i < |actions| ==> actions[i].name != name
    ensures action.Some? ==>
      exists i :: 0 <= i < |actions| && actions[i] == action.value && actions[i].name == name
                  && forall j :: 0 <= j < i ==> actions[j].name != name
  {
    if actions == [] then None
    else if actions[0].name == name then Some(actions[0])
    else
      var rest := FindAction(actions[1..], name);
      assert forall i :: 0 < i < |actions| ==> actions[i] == actions[1..][i - 1];
      assert forall i :: 0 <= i < |actions[1..]| ==> actions[1..][i] == actions[i + 1];
      rest
  }

  method GetTableByName(tables: seq<Table>, name: string) returns (table: Option<Table>)
    ensures table == FindTable(tables, name)
  {
    for i := 0 to |tables|
      invariant FindTable(tables, name) == FindTable(tables[i..], name)
    {
      if tables[i].name == name {
        return Some(tables[i]);
      }
      assert tables[i..][1..] == tables[i + 1..];
    }
    return None;
  }

  method GetActionByName(table: Table, name: string) returns (action: Option<Action>)
    ensures action == FindAction(table.actions, name)
  {
    for i := 0 to |table.actions|
      invariant FindAction(table.actions, name) == FindAction(table.actions[i..], name)
    {
      if table.actions[i].name == name {
        return Some(table.actions[i]);
      }
      assert table.actions[i..][1..] == table.actions[i + 1..];
    }
    return None;
  }

  // The bits the parameters of any action of the table may take, in 32-bit arithmetic.
  function TableBits(table: Table): (bits: nat)
    ensures bits < TWO_TO_THE_32
  {
    (table.responseBits - table.actionIdBits) % TWO_TO_THE_32
  }

  // Every action's parameters fit beside the action id in the table's response.
  predicate ResponseFits(table: Table) {
    table.actionIdBits <= table.responseBits < TWO_TO_THE_16
    && forall i :: 0 <= i < |table.actions| ==>
         table.actions[i].paramBits + table.actionIdBits <= table.responseBits
  }

  // The outcome for a rule against its table and action.
  ghost function RuleVerdict(table: Table, action: Action, rule: Rule): Status {
    if |rule.matches| != |table.matches| then FieldSpecSizeMismatch
    else if |rule.params| != |action.params| then ParamSpecSizeMismatch
    else if MatchesVerdict(rule.matches, table.matches, table.keyBits) != Ok
      then MatchesVerdict(rule.matches, table.matches, table.keyBits)
    else ParamsVerdict(rule.params, action.params, action.paramBits)
  }

  // The outcome for a rule against a pipeline.
  ghost function Outcome(tables: seq<Table>, rule: Rule): Status {
    var table := FindTable(tables, rule.tableName);
    if table == None then InvalidTableName
    else
      var action := FindAction(table.value.actions, rule.actionName);
      if action == None then InvalidActionForTable
      else RuleVerdict(table.value, action.value, rule)
  }

  // What is looked at, and in which order: the first table of the rule's name, in it the first action of
  // the rule's name, the two counts, the fields, and then the parameters.
  lemma OutcomeOrder(tables: seq<Table>, rule: Rule, i: nat, k: nat)
    requires i <= |tables| && forall j :: 0 <= j < i ==> tables[j].name != rule.tableName
    requires i < |tables| ==> tables[i].name == rule.tableName && k <= |tables[i].actions|
    requires i < |tables| ==> forall j :: 0 <= j < k ==> tables[i].actions[j].name != rule.actionName
    requires i < |tables| && k < |tables[i].actions| ==> tables[i].actions[k].name == rule.actionName
    ensures i == |tables| ==> Outcome(tables, rule) == InvalidTableName
    ensures i < |tables| && k == |tables[i].actions| ==> Outcome(tables, rule) == InvalidActionForTable
    ensures i < |tables| && k < |tables[i].actions| ==>
      var table, action, rc := tables[i], tables[i].actions[k], Outcome(tables, rule);
      if |rule.matches| != |table.matches| then rc == FieldSpecSizeMismatch
      else if |rule.params| != |action.params| then rc == ParamSpecSizeMismatch
      else if !Accepted(rule.matches, table.matches) then rc == FieldsVerdict(rule.matches, table.matches)
      else (rc in {Ok, ParamInvalidFormat, ParamTooBig} || OnWholeVector(rc))
           && (rc in {ParamInvalidFormat, ParamTooBig, PackParamsTooBig} ==>
                 rc == ParamsVerdict(rule.params, action.params, action.paramBits))
  {
    hide MatchesVerdict, ParamsVerdict, FieldsVerdict, Accepted;
    if i < |tables| && k < |tables[i].actions| {
      var table, action := tables[i], tables[i].actions[k];
      assert FindTable(tables, rule.tableName) == Some(table);
      assert FindAction(table.actions, rule.actionName) == Some(action);
      if |rule.matches| == |table.matches| && |rule.params| == |action.params| {
        MatchesCodes(rule.matches, table.matches, table.keyBits);
        ParamsCodes(rule.params, action.params, action.paramBits);
      }
    }
  }

  // The bytes a compiled rule consists of.
  ghost predicate Holds(table: Table, action: Action, rule: Rule, key: seq<Byte>, mask: seq<Byte>, params: seq<Byte>)
    requires RuleVerdict(table, action, rule) == Ok
  {
    |key| == |mask| == Gmp.ByteCount(table.keyBits)
    && Gmp.FromBytes(key) == PackedKey(rule.matches, table.matches)
    && Gmp.FromBytes(mask) == PackedMask(rule.matches, table.matches)
    && if action.paramBits == 0 then params == []
       else
         && |params| == ParamBytes(TableBits(table))
         && Gmp.FromBytes(params) == PackedParams(rule.params, action.params)
  }

  // The parameters of a compiled rule fill the table's response beside the action id, in whole bytes.
  lemma ParamsFillResponse(table: Table, action: Action, rule: Rule, key: seq<Byte>, mask: seq<Byte>, params: seq<Byte>)
    requires RuleVerdict(table, action, rule) == Ok && Holds(table, action, rule, key, mask, params)
    requires table.actionIdBits <= table.responseBits < TWO_TO_THE_16 && action.paramBits > 0
    ensures 8 * |params| - 7 <= table.responseBits - table.actionIdBits <= 8 * |params|
  {
    hide MatchesVerdict, ParamsVerdict, Gmp.FromBytes;
  }

  ghost predicate Compiled(tables: seq<Table>, rule: Rule, key: seq<Byte>, mask: seq<Byte>, params: seq<Byte>)
    requires Outcome(tables, rule) == Ok
  {
    var table := FindTable(tables, rule.tableName).value;
    Holds(table, FindAction(table.actions, rule.actionName).value, rule, key, mask, params)
  }

  // A rule that compiles does not write its parameters beyond the vector allocated for them.
  ghost predicate ParamsStayInside(tables: seq<Table>, rule: Rule) {
    Outcome(tables, rule) == Ok ==>
      var table := FindTable(tables, rule.tableName).value;
      var action := FindAction(table.actions, rule.actionName).value;
      StaysInside(rule.params, action.params, TableBits(table), action.paramBits)
  }

  lemma ResponseRoomIsEnough(tables: seq<Table>, rule: Rule)
    requires forall i :: 0 <= i < |tables| ==> ResponseFits(tables[i])
    ensures ParamsStayInside(tables, rule)
  {
    hide FindTable, FindAction, StaysInside, ResponseFits, MatchesVerdict, ParamsVerdict;
    if Outcome(tables, rule) == Ok {
      var table := FindTable(tables, rule.tableName).value;
      var action := FindAction(table.actions, rule.actionName).value;
      ActionFits(table, action);
      RoomIsEnough(rule.params, action.params, TableBits(table), action.paramBits);
    }
  }

  lemma ActionFits(table: Table, action: Action)
    requires ResponseFits(table) && action in table.actions
    ensures action.paramBits <= TableBits(table) && TableBits(table) + 7 < TWO_TO_THE_32
  {
  }

  // The errors found on a whole packed vector.
  predicate OnWholeVector(rc: Status) { rc in {PackKeyTooBig, PackMaskTooBig, PackParamsTooBig} }

  // What has become of the buffers allocated for a rule: on success it holds them; on failure it
  // is empty and every one has been freed, some more than once exactly for the errors found
  // on a whole vector.
  ghost predicate Settled(pack: Packs.Pack, rc: Status)
    reads pack, pack.buffers
  {
    if rc == Ok then
      && pack.key != null && pack.mask != null && pack.params != null
      && pack.buffers == [pack.key, pack.mask, pack.params] && Packs.Freed(pack.buffers, 0)
    else
      && pack.key == null && pack.mask == null && pack.params == null
      && (forall b :: b in pack.buffers ==> b.frees >= 1)
      && ((exists b :: b in pack.buffers && b.frees > 1) <==> OnWholeVector(rc))
  }

  // Packing for a table and action already found, into an initialised pack.
  method PackFound(table: Table, action: Action, rule: Rule, pack: Packs.Pack) returns (rc: Status)
    requires pack.key == null && pack.mask == null && pack.params == null && pack.buffers == []
    requires RuleVerdict(table, action, rule) == Ok ==>
      StaysInside(rule.params, action.params, TableBits(table), action.paramBits)
    modifies pack
    ensures rc == RuleVerdict(table, action, rule) && Settled(pack, rc)
    ensures rc == Ok ==>
      && pack.paramsLen <= pack.params.bytes.Length
      && Holds(table, action, rule, pack.key.bytes[..], pack.mask.bytes[..], pack.params.bytes[..pack.paramsLen])
  {
    hide MatchesVerdict, ParamsVerdict, StaysInside, PackedKey, PackedMask, PackedParams;
    hide Gmp.FromBytes, Gmp.ByteCount, ParamBytes, TableBits;
    if |rule.matches| != |table.matches| {
      return FieldSpecSizeMismatch;
    }
    if |rule.params| != |action.params| {
      return ParamSpecSizeMismatch;
    }

    rc := PackMatches(table.matches, table.keyBits, rule.matches, pack);
    if rc != Ok {
      ghost var key := pack.key;
      pack.Clear();
      assert pack.buffers != [] ==> pack.buffers[0] == key && key.frees == 2;
      return;
    }
    rc := PackParams(action.params, TableBits(table), action.paramBits, rule.params, pack);
    if rc != Ok {
      ghost var params := pack.params;
      pack.Clear();
      assert rc == PackParamsTooBig ==> pack.buffers[2] == params && params.frees == 2;
      return;
    }
    assert pack.params.bytes[..pack.paramsLen] == if action.paramBits == 0 then [] else pack.params.bytes[..];
  }

  method Pack(pipeline: Option<seq<Table>>, rule: Option<Rule>, pack: Packs.Pack?) returns (rc: Status)
    requires pipeline.Some? && rule.Some? ==> ParamsStayInside(pipeline.value, rule.value)
    modifies if pack == null then {} else {pack}
    ensures rc == if pipeline == None then NullPipeline
                  else if rule == None then NullRule
                  else if pack == null then NullPack
                  else Outcome(pipeline.value, rule.value)
    ensures pipeline.Some? && rule.Some? && pack != null ==> Settled(pack, rc)
    ensures rc == Ok ==>
      && pack.paramsLen <= pack.params.bytes.Length
      && Compiled(pipeline.value, rule.value,
                  pack.key.bytes[..], pack.mask.bytes[..], pack.params.bytes[..pack.paramsLen])
  {
    if pipeline == None {
      return NullPipeline;
    }
    if rule == None {
      return NullRule;
    }
    if pack == null {
      return NullPack;
    }
    pack.Init();

    var r := rule.value;
    var tableInfo := GetTableByName(pipeline.value, r.tableName);
    if tableInfo == None {
      return InvalidTableName;
    }
    var actionInfo := GetActionByName(tableInfo.value, r.actionName);
    if actionInfo == None {
      return InvalidActionForTable;
    }
    rc := PackFound(tableInfo.value, actionInfo.value, r, pack);
  }

  // The errors on whole vectors do occur: two one-bit fields in a table with a one-bit key.
  lemma TwoBits()
    ensures FieldVector.Join([1, 0], [1, 1]) == 2 == Bits.Pow2(1)
  {
    assert [1, 0] == [1] + [0] && [1, 1] == [1] + [1] && [] + [1] == [1];
    FieldVector.JoinAppend([], 1, [], 1);
    FieldVector.JoinAppend([1], 0, [1], 1);
    Bits.ShlIsMul(0, 1);
    Bits.ShlIsMul(1, 1);
  }

  lemma TwoBitsInOne(matches: seq<Match>, specs: seq<FieldSpec>)
    requires matches == [KeyOnly(1), KeyOnly(0)] && specs == [FieldSpec(Ternary, 1), FieldSpec(Ternary, 1)]
    ensures MatchesVerdict(matches, specs, 1) == PackKeyTooBig
  {
    TwoBits();
    assert Keys(matches) == [1, 0] && Widths(specs) == [1, 1];
    ExactKeyAccepted(1, specs[0]);
    ExactKeyAccepted(0, specs[1]);
    FieldsVerdictOk(matches, specs);
    hide FieldsVerdict, Verdict, FieldVector.Join, Bits.Pow2;
  }

  lemma KeyTooBigOccurs(tables: seq<Table>, rule: Rule)
    requires tables == [Table("acl", 1, [FieldSpec(Ternary, 1), FieldSpec(Ternary, 1)], 8, 0, [Action("drop", [], 0)])]
    requires rule == Rule("acl", [KeyOnly(1), KeyOnly(0)], "drop", [])
    ensures OnWholeVector(Outcome(tables, rule))
  {
    var table, action := tables[0], tables[0].actions[0];
    TwoBitsInOne(rule.matches, table.matches);
    hide MatchesVerdict;
    FirstFound(tables, table.actions);
    hide FindTable, FindAction;
  }

  // The condition the model puts on a rule can fail: a response of 8 bits and an action of 9.
  lemma ParamsOutsideOccur(tables: seq<Table>, rule: Rule)
    requires tables == [Table("acl", 1, [FieldSpec(Ternary, 1)], 8, 0, [Action("fwd", [ParamSpec(9)], 9)])]
    requires rule == Rule("acl", [KeyOnly(1)], "fwd", [ParamUi(256)])
    ensures Outcome(tables, rule) == Ok && !ParamsStayInside(tables, rule)
  {
    var table, action := tables[0], tables[0].actions[0];
    FirstFound(tables, table.actions);
    OneFieldFits(rule.matches, table.matches);
    NineBitsPacked(rule.params, action.params);
    hide MatchesVerdict, ParamsVerdict, PackedParams, FindTable, FindAction, Gmp.SizeInBase2;
    assert TableBits(table) == 8 && Gmp.ByteCount(9) == 2 && ParamBytes(8) == 1;
  }

  lemma FirstFound(tables: seq<Table>, actions: seq<Action>)
    ensures tables != [] ==> FindTable(tables, tables[0].name) == Some(tables[0])
    ensures actions != [] ==> FindAction(actions, actions[0].name) == Some(actions[0])
  {
  }

  lemma OneFieldFits(matches: seq<Match>, specs: seq<FieldSpec>)
    requires matches == [KeyOnly(1)] && specs == [FieldSpec(Ternary, 1)]
    ensures MatchesVerdict(matches, specs, 1) == Ok
  {
    assert Bits.Pow2(1) == 2 && Widths(specs)[..0] == [];
    assert FieldVector.Total(Widths(specs)) == 1;
    WideEnoughKey(matches, specs, 1);
  }

  lemma NineBitsPacked(params: seq<Param>, specs: seq<ParamSpec>)
    requires params == [ParamUi(256)] && specs == [ParamSpec(9)]
    ensures ParamsVerdict(params, specs, 9) == Ok && Gmp.SizeInBase2(PackedParams(params, specs)) == 9
  {
    assert Bits.Pow2(8) == 256 && Bits.Pow2(9) == 512;
    assert ParamValues(params) == [] + [256] && ParamWidths(specs) == [] + [9];
    FieldVector.JoinAppend([], 256, [], 9);
    Bits.ShlIsMul(0, 9);
    Gmp.SizeFits(256, 9);
    Gmp.SizeFits(256, 8);
    assert params[..0] == [] && specs[..0] == [];
    assert ParamsFirst(params, specs) == ParamVerdict(params[0], specs[0]);
  }

  // No rule for the table and action ends in an error on a whole vector, and so none has a buffer
  // freed twice.
  ghost predicate NeverFreedTwice(table: Table, action: Action) {
    forall rule :: !OnWholeVector(RuleVerdict(table, action, rule))
  }

  // What the description must say for that: some field has no type or no width, so that no rule gets
  // as far; or the key covers the fields, and the action's bit count is 0, covers its parameters, or
  // is never compared because a parameter has no width.
  predicate Covers(table: Table, action: Action) {
    !Usable(table.matches)
    || (table.keyBits >= 1 && table.keyBits >= FieldVector.Total(Widths(table.matches))
        && (action.paramBits == 0 || !ParamsUsable(action.params)
            || action.paramBits >= FieldVector.Total(ParamWidths(action.params))))
  }

  lemma FreedTwiceExact(table: Table, action: Action)
    ensures NeverFreedTwice(table, action) <==> Covers(table, action)
  {
    KeysFitExact(table.matches, table.keyBits);
    ParamsFitExact(action.params, action.paramBits);
    if Covers(table, action) {
      forall rule ensures !OnWholeVector(RuleVerdict(table, action, rule)) { CoveredRule(table, action, rule); }
    } else if !KeysAlwaysFit(table.matches, table.keyBits) {
      var matches :| |matches| == |table.matches|
        && MatchesVerdict(matches, table.matches, table.keyBits) in {PackKeyTooBig, PackMaskTooBig};
      var rule := Rule("", matches, "", seq(|action.params|, _ => ParamUnset));
      assert OnWholeVector(RuleVerdict(table, action, rule));
    } else {
      var params :| |params| == |action.params|
        && ParamsVerdict(params, action.params, action.paramBits) == PackParamsTooBig;
      MatchesExist(table);
      assert OnWholeVector(RuleVerdict(table, action, Rule("", MatchesOf(0, table.matches), "", params)));
    }
  }

  lemma CoveredRule(table: Table, action: Action, rule: Rule)
    requires Covers(table, action)
    ensures !OnWholeVector(RuleVerdict(table, action, rule))
  {
    if |rule.matches| == |table.matches| && |rule.params| == |action.params| {
      KeysFitExact(table.matches, table.keyBits);
      ParamsFitExact(action.params, action.paramBits);
      FieldCodes(rule.matches, table.matches);
      FieldsVerdictOk(rule.matches, table.matches);
      AcceptedUsable(rule.matches, table.matches);
      ParamsCodes(rule.params, action.params, action.paramBits);
    }
  }

  // Some match list compiles when the key covers the fields.
  lemma MatchesExist(table: Table)
    requires Usable(table.matches) && table.keyBits >= 1 && table.keyBits >= FieldVector.Total(Widths(table.matches))
    ensures MatchesVerdict(MatchesOf(0, table.matches), table.matches, table.keyBits) == Ok
  {
    EveryKeyIsPacked(0, table.matches);
    WideEnoughKey(MatchesOf(0, table.matches), table.matches, table.keyBits);
  }

  // No rule that compiles for the table and action writes its parameters beyond their vector.
  ghost predicate NeverOutside(table: Table, action: Action) {
    forall rule :: RuleVerdict(table, action, rule) == Ok ==>
      StaysInside(rule.params, action.params, TableBits(table), action.paramBits)
  }

  // That holds exactly when the vector takes the largest number the action's parameters pack to.
  lemma OutsideExact(table: Table, action: Action)
    requires Usable(table.matches) && table.keyBits >= 1 && table.keyBits >= FieldVector.Total(Widths(table.matches))
    ensures NeverOutside(table, action)
       <==> action.paramBits == 0 || !ParamsUsable(action.params)
            || LargestBytes(action.params, action.paramBits) <= ParamBytes(TableBits(table))
  {
    MatchesExist(table);
    InsideExact(action.params, TableBits(table), action.paramBits);
    hide MatchesVerdict, LargestBytes, ParamBytes, TableBits, FieldVector.Total;
    if !AlwaysInside(action.params, TableBits(table), action.paramBits) {
      var params :| |params| == |action.params|
        && !StaysInside(params, action.params, TableBits(table), action.paramBits);
      var rule := Rule("", MatchesOf(0, table.matches), "", params);
      assert RuleVerdict(table, action, rule) == Ok;
      assert !StaysInside(rule.params, action.params, TableBits(table), action.paramBits);
    }
  }

  // A consistent pipeline entry: the key covers the fields and each action's bit count is the sum
  // of its parameter widths.
  predicate Consistent(table: Table, action: Action) {
    table.keyBits >= 1 && table.keyBits >= FieldVector.Total(Widths(table.matches))
    && action.paramBits == FieldVector.Total(ParamWidths(action.params))
  }

  // Against a consistent entry a rule compiles exactly when it has the right number of fields and
  // parameters, each acceptable on its own. The whole-vector errors, and with them buffers freed
  // twice, cannot occur.
  lemma ConsistentOutcome(table: Table, action: Action, rule: Rule)
    requires Consistent(table, action)
    ensures RuleVerdict(table, action, rule) == Ok <==>
      && Accepted(rule.matches, table.matches)
      && |rule.params| == |action.params|
      && (action.paramBits == 0 || ParamsAccepted(rule.params, action.params))
    ensures !OnWholeVector(RuleVerdict(table, action, rule))
  {
    CoveredRule(table, action, rule);
    hide FieldVector.Total, MatchesVerdict, Accepted, ParamsAccepted;
    if |rule.matches| == |table.matches| && |rule.params| == |action.params| {
      WideEnoughKey(rule.matches, table.matches, table.keyBits);
      if action.paramBits > 0 {
        ParamsNeverTooBig(rule.params, action.params);
      }
    } else {
      AcceptedLength(rule.matches, table.matches);
    }
  }

  lemma AcceptedLength(matches: seq<Match>, specs: seq<FieldSpec>)
    ensures Accepted(matches, specs) ==> |matches| == |specs|
  {
  }
}
