/** The rules a compatibility break can report and the places inside a schema it can point to. */
module Reports {
  import opened Schemas

  datatype Direction = Request | Response

  datatype Rule =
    | OperationRemoved | OperationIdChanged | SecurityChanged | ParameterRemoved | ParameterRequired
    | RequestBodyRequired | RequestMediaTypeRemoved | ResponseRemoved | SuccessStatusAdded | ResponseMediaTypeRemoved
    | TypeChanged | EnumNarrowed | EnumWidened | PropertyRemoved | RequiredAdded | RequiredRemoved
    | AdditionalPropertiesClosed | ConstraintNarrowed | ConstraintWidened | PatternChanged | FormatChanged
    | DefaultChanged | CompositionChanged

  datatype Step = Property(name: string) | Extra | Element | Member(composition: Composition, index: nat)

  type Pointer = seq<Step>

  datatype Break = Break(rule: Rule, pointer: Pointer)
}
