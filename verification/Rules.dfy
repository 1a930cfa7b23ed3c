// User rules and the pipeline description they are compiled against.
module Rules {
  datatype MatchType = Invalid | Bitfield | Constant | PrefixField | RangeField | Ternary | Unused

  datatype FieldSpec = FieldSpec(ty: MatchType, bits: nat)

  // How the user wrote one match field.
  datatype Match =
    | Unset
    | KeyMask(key: nat, mask: nat)
    | KeyOnly(key: nat)
    | PrefixOf(key: nat, prefixLen: nat)
    | RangeOf(lower: nat, upper: nat)
    | Ignore

  datatype ParamSpec = ParamSpec(bits: nat)

  datatype Param = ParamUnset | ParamUi(ui: nat) | ParamMpz(mpz: nat)

  datatype Action = Action(name: string, params: seq<ParamSpec>, paramBits: nat)

  datatype Table = Table(name: string, keyBits: nat, matches: seq<FieldSpec>,
                         responseBits: nat, actionIdBits: nat, actions: seq<Action>)

  datatype Rule = Rule(tableName: string, matches: seq<Match>, actionName: string, params: seq<Param>)

  datatype Status =
    | Ok
    | FieldSpecUnknownType
    | FieldSpecSizeMismatch
    | PackKeyTooBig
    | PackMaskTooBig
    | PackParamsTooBig
    | MatchInvalidFormat
    | MatchMaskTooWide
    | MatchInvalidBitfieldMask
    | MatchInvalidConstantMask
    | MatchInvalidPrefixMask
    | MatchInvalidRangeMask
    | MatchInvalidUnusedMask
    | MatchKeyTooBig
    | MatchMaskTooBig
    | InvalidTableName
    | InvalidActionForTable
    | ParamInvalidFormat
    | ParamSpecSizeMismatch
    | ParamTooBig
    | InfoTooManyMatches
    | InfoTooManyParams
    | NullPipeline
    | NullRule
    | NullPack

  function Widths(specs: seq<FieldSpec>): (ws: seq<nat>)
    ensures |ws| == |specs|
    ensures forall i :: 0 <= i < |ws| ==> ws[i] == specs[i].bits
  {
    seq(|specs|, i requires 0 <= i < |specs| => specs[i].bits)
  }
}
