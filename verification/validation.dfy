/**
 * `validate_xml_element` and `validate_bib_and_record`: the decision logic of
 * XSD validation. Whether a schema accepts an element is an input (the
 * verdict the schema library would give); parsing and checking are not modelled.
 */
module Validation {
  import opened Wrappers
  import opened Numerals

  /** One entry of the schema's error log. */
  datatype SchemaError = SchemaError(message: string, line: nat, column: nat)

  /** What the loaded schema says about the element: accepted, or rejected with its error log. */
  datatype Verdict = Accepts | Rejects(log: seq<SchemaError>)

  /** `f"{err.message} (line {err.line}, col {err.column})"`. */
  function FormatError(e: SchemaError): (s: string)
    ensures |s| > |e.message| && s[..|e.message|] == e.message
  {
    e.message + " (line " + NatToString(e.line) + ", col " + NatToString(e.column) + ")"
  }

  function FormatErrors(log: seq<SchemaError>): (r: seq<string>)
    ensures |r| == |log|
    ensures forall i :: 0 <= i < |log| ==> r[i] == FormatError(log[i])
  {
    seq(|log|, i requires 0 <= i < |log| => FormatError(log[i]))
  }

  datatype Outcome = Outcome(valid: bool, errors: seq<string>)

  /**
   * `validate_xml_element(element, schema, element_label=elementLabel, required=required)`.
   * `present` says whether the element exists; `schema` is `None` when no
   * schema was loaded, otherwise the verdict it gives on the element.
   */
  function ValidateElement(present: bool, schema: Option<Verdict>, elementLabel: string, required: bool): (o: Outcome)
    ensures o.valid ==> o.errors == []
    ensures !present ==> o == (if required then Outcome(false, ["No <" + elementLabel + "> element found"]) else Outcome(true, []))
    ensures present && schema.None? ==> o == Outcome(true, [])
    ensures present && schema.Some? ==> (o.valid <==> schema.value.Accepts?)
    ensures present && schema.Some? && schema.value.Rejects? ==> o.errors == FormatErrors(schema.value.log)
  {
    if !present then
      if required then Outcome(false, ["No <" + elementLabel + "> element found"]) else Outcome(true, [])
    else if schema.None? then Outcome(true, [])
    else match schema.value
      case Accepts => Outcome(true, [])
      case Rejects(log) => Outcome(false, FormatErrors(log))
  }

  /** An element is rejected exactly when it is missing but required, or a loaded schema rejects it. */
  lemma ValidateElementRejectsIff(present: bool, schema: Option<Verdict>, elementLabel: string, required: bool)
    ensures !ValidateElement(present, schema, elementLabel, required).valid
        <==> (!present && required) || (present && schema.Some? && schema.value.Rejects?)
  {
  }

  /** Every line of the log is reported, in log order, each starting with its message. */
  lemma RejectionReportsEveryError(log: seq<SchemaError>, elementLabel: string, i: nat)
    requires i < |log|
    ensures var o := ValidateElement(true, Some(Rejects(log)), elementLabel, true);
            |o.errors| == |log| && o.errors[i][..|log[i].message|] == log[i].message
  {
  }

  datatype BibValidation = BibValidation(recordValid: bool, recordErrors: seq<string>, bibValid: bool, bibErrors: seq<string>)

  /**
   * `validate_bib_and_record`: the inner MARC `<record>` (required) against
   * the MARC schema, then the `<bib>` against the catalogue's schema; the two
   * checks are independent.
   */
  function ValidateBibAndRecord(recordPresent: bool, marcSchema: Option<Verdict>, bibSchema: Option<Verdict>): (v: BibValidation)
    ensures v.recordValid == ValidateElement(recordPresent, marcSchema, "record", true).valid
    ensures v.bibValid <==> bibSchema.None? || bibSchema.value.Accepts?
    ensures !recordPresent ==> !v.recordValid && v.recordErrors == ["No <record> element found"]
  {
    assert "No <" + "record" + "> element found" == "No <record> element found";
    var r := ValidateElement(recordPresent, marcSchema, "record", true);
    var b := ValidateElement(true, bibSchema, "bib", true);
    BibValidation(r.valid, r.errors, b.valid, b.errors)
  }

  /** Without schemas only a missing `<record>` can fail validation. */
  lemma NoSchemaOnlyChecksPresence(recordPresent: bool)
    ensures var v := ValidateBibAndRecord(recordPresent, None, None);
            v.bibValid && v.bibErrors == [] && (v.recordValid <==> recordPresent)
  {
  }
}
