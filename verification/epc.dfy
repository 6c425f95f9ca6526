/** The EPC QR Code payload pipeline: a `Config` (the beneficiary's static
    data) and a `Transfer` (one payment) are merged into the twelve-field
    `Raw` record, which is rendered as the newline-separated text that goes
    into the QR code (European Payments Council guideline EPC069-12).

    The constructors of `Config` and `Transfer` play the part of
    `NewConfig` and `NewTransfer`: they store their arguments unchecked. */
module Epc {
  import opened Results
  import opened Floats
  import Strconv
  import Asserts
  import Lines
  import Utf8
  import opened HtmlTemplate

  /** Largest payload, in bytes, that the code lets through. */
  const MaxPayloadSize: nat := 331

  /** Inclusive bounds of a transfer amount, in euros. */
  const MinAmount: real := 0.01
  const MaxAmount: real := 999_999_999.99

  datatype Config = Config(
    version: string,
    characterSet: string,
    identificationCode: string,
    bic: string,
    name: string,
    iban: string,
    currency: string)

  datatype Transfer = Transfer(
    amount: string,
    purpose: string,
    remittanceReference: string,
    remittanceText: string,
    information: string)

  /** The record behind the text, one field per line. */
  datatype Raw = Raw(
    serviceTag: string,
    version: string,
    characterSet: string,
    identificationCode: string,
    bic: string,
    name: string,
    iban: string,
    amount: string,
    purpose: string,
    remittanceReference: string,
    remittanceText: string,
    information: string)

  datatype ValidationError =
    | InvalidAmountFormat(amount: string)   // ParseFloat reported an error
    | AmountOutOfRange(amount: string)

  datatype RenderError =
    | TemplateExecution(cause: ExecError)
    | SepaLength                            // ErrSepaLength

  /** `GetRawText` says which stage failed. */
  datatype RawTextError =
    | CreatingRaw(invalid: ValidationError)
    | RenderingRaw(failed: RenderError)

  /** The transfer's only check: the amount parses as a float and lies in
      [MinAmount, MaxAmount]. NaN passes, as Go's comparisons make it. */
  function Validate(t: Transfer): (r: Outcome<ValidationError>)
    ensures var p := Strconv.ParseFloat(t.amount);
            && (p.None? ==> r == Fail(InvalidAmountFormat(t.amount)))
            && (p.Some? ==> r.Pass? || r == Fail(AmountOutOfRange(t.amount)))
            && (p.Some? && p.value.Finite? ==> (r.Pass? <==> MinAmount <= p.value.value <= MaxAmount))
            && (p.Some? && p.value.Infinity? ==> r.Fail?)
            && (p == Some(NaN) ==> r.Pass?)
  {
    match Strconv.ParseFloat(t.amount)
    case None => Fail(InvalidAmountFormat(t.amount))
    case Some(amount) =>
      if !Asserts.AssertInBetween(Finite(MinAmount), Finite(MaxAmount), amount) then
        Fail(AmountOutOfRange(t.amount))
      else Pass
  }

  /** Merges configuration and transfer once the transfer validates. */
  function NewRaw(conf: Config, transf: Transfer): (r: Result<Raw, ValidationError>)
    ensures r.Success? <==> Validate(transf).Pass?
    ensures r.Failure? ==> r.error == Validate(transf).error
    ensures r.Success? ==> r.value.serviceTag == "BCD"
    ensures r.Success? ==> r.value.amount == conf.currency + transf.amount
  {
    match Validate(transf)
    case Fail(e) => Failure(e)
    case Pass =>
      Success(Raw(
        serviceTag := "BCD",
        version := conf.version,
        characterSet := conf.characterSet,
        identificationCode := conf.identificationCode,
        bic := conf.bic,
        name := conf.name,
        iban := conf.iban,
        amount := conf.currency + transf.amount,
        purpose := transf.purpose,
        remittanceReference := transf.remittanceReference,
        remittanceText := transf.remittanceText,
        information := transf.information))
  }

  /** The record's values in line order. */
  function Values(r: Raw): (values: seq<string>)
  {
    [r.serviceTag, r.version, r.characterSet, r.identificationCode, r.bic, r.name,
     r.iban, r.amount, r.purpose, r.remittanceReference, r.remittanceText, r.information]
  }

  /** The field actions of RAW_TEMPLATE, in order; the text between two
      actions is a single "\n" and nothing follows the last. */
  const RawTemplate: seq<string> :=
    ["ServiceTag", "Version", "CharacterSet", "IdentificationCode", "BIC", "Name",
     "IBAN", "Amount", "Purpose", "RemittanceReference", "RemittanceText", "Information"]

  /** `raw` as declared: every field name starts with a lower-case letter. */
  function DeclaredFields(r: Raw): (fields: seq<Field>)
  {
    [Field("serviceTag", r.serviceTag), Field("version", r.version),
     Field("characterSet", r.characterSet), Field("identificationCode", r.identificationCode),
     Field("bic", r.bic), Field("name", r.name), Field("iban", r.iban),
     Field("amount", r.amount), Field("purpose", r.purpose),
     Field("remittanceReference", r.remittanceReference),
     Field("remittanceText", r.remittanceText), Field("information", r.information)]
  }

  /** `raw` with its fields exported under the names the template uses. */
  function ExportedFields(r: Raw): (fields: seq<Field>)
  {
    var vs := Values(r);
    seq(12, i requires 0 <= i < 12 => Field(RawTemplate[i], vs[i]))
  }

  /** Executes RAW_TEMPLATE on `data`, then applies the size limit. */
  function RenderData(data: seq<Field>): (rendered: Result<string, RenderError>)
  {
    match Execute(RawTemplate, data)
    case Failure(e) => Failure(TemplateExecution(e))
    case Success(text) =>
      if Utf8.Length(text) > MaxPayloadSize then Failure(SepaLength) else Success(text)
  }

  /** `raw.render` as written: the template asks for `.ServiceTag`, which
      the unexported struct does not have, so execution always stops at the
      first action, whatever the record holds. */
  function RenderAsWritten(r: Raw): (res: Result<string, RenderError>)
    ensures res == Failure(TemplateExecution(CantEvaluateField("ServiceTag")))
  {
    var data := DeclaredFields(r);
    assert forall i :: 0 <= i < |data| ==> data[i].name != "ServiceTag";
    RenderData(data)
  }

  /** `GetRawText` as written: build, then the as-written render. No input
      yields a payload. An invalid transfer fails while building, and every
      valid one fails at the template's first action. */
  function GetRawTextAsWritten(conf: Config, transf: Transfer): (r: Result<string, RawTextError>)
    ensures Validate(transf).Fail? ==> r == Failure(CreatingRaw(Validate(transf).error))
    ensures Validate(transf).Pass? ==>
              r == Failure(RenderingRaw(TemplateExecution(CantEvaluateField("ServiceTag"))))
  {
    match NewRaw(conf, transf)
    case Failure(e) => Failure(CreatingRaw(e))
    case Success(raw) =>
      match RenderAsWritten(raw)
      case Failure(e) => Failure(RenderingRaw(e))
      case Success(text) => Success(text)
  }

  /** The payload text: the escaped values of the record, one per line. */
  function Serialize(r: Raw): (text: string)
  {
    Lines.Join(EscapeAll(Values(r)))
  }

  lemma {:induction false} ResolveDistinct(data: seq<Field>, i: nat)
    requires i < |data|
    requires IsExported(data[i].name)
    requires forall j :: 0 <= j < i ==> data[j].name != data[i].name
    ensures Resolve(data, data[i].name) == Success(data[i].value)
    decreases i
  {
    if i > 0 {
      assert forall j :: 0 <= j < i - 1 ==> data[1..][j] == data[j + 1];
      ResolveDistinct(data[1..], i - 1);
    }
  }

  /** Once the template's names are exported fields, executing it yields
      exactly the serialized record. */
  lemma ExecuteExported(r: Raw)
    ensures Execute(RawTemplate, ExportedFields(r)) == Success(Serialize(r))
  {
    var data := ExportedFields(r);
    forall i | 0 <= i < 12
      ensures Resolve(data, RawTemplate[i]) == Success(Values(r)[i])
    {
      assert forall j :: 0 <= j < i ==> RawTemplate[j] != RawTemplate[i];
      ResolveDistinct(data, i);
    }
    ExecuteJoins(RawTemplate, data, Values(r));
  }

  /** `raw.render` with the template's fields resolvable: the serialized
      record, or ErrSepaLength when it exceeds 331 bytes of UTF-8. */
  function Render(r: Raw): (res: Result<string, RenderError>)
    ensures res.Success? <==> Utf8.Length(Serialize(r)) <= MaxPayloadSize
    ensures res.Success? ==> res.value == Serialize(r)
    ensures res.Failure? ==> res.error == SepaLength
  {
    ExecuteExported(r);
    RenderData(ExportedFields(r))
  }

  /** The payload text for a configuration and a transfer, read off the
      EPC069-12 layout directly. */
  function PaymentText(conf: Config, transf: Transfer): (text: string)
  {
    Lines.Join(EscapeAll(
      ["BCD", conf.version, conf.characterSet, conf.identificationCode, conf.bic, conf.name,
       conf.iban, conf.currency + transf.amount, transf.purpose, transf.remittanceReference,
       transf.remittanceText, transf.information]))
  }

  /** Build, then render; either stage's error is returned with the stage. */
  function GetRawText(conf: Config, transf: Transfer): (r: Result<string, RawTextError>)
    ensures Validate(transf).Fail? ==> r == Failure(CreatingRaw(Validate(transf).error))
    ensures Validate(transf).Pass? ==>
              && (r.Success? <==> Utf8.Length(PaymentText(conf, transf)) <= MaxPayloadSize)
              && (r.Success? ==> r.value == PaymentText(conf, transf))
              && (r.Failure? ==> r.error == RenderingRaw(SepaLength))
  {
    match NewRaw(conf, transf)
    case Failure(e) => Failure(CreatingRaw(e))
    case Success(raw) =>
      assert Values(raw) == ["BCD", conf.version, conf.characterSet, conf.identificationCode,
        conf.bic, conf.name, conf.iban, conf.currency + transf.amount, transf.purpose,
        transf.remittanceReference, transf.remittanceText, transf.information];
      match Render(raw)
      case Failure(e) => Failure(RenderingRaw(e))
      case Success(text) => Success(text)
  }
}
