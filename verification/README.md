# EPC QR Code payload pipeline, modelled in Dafny

This project models the core of `goepcqrcode`, a Go package that produces the text
payload of an EPC QR Code for a SEPA credit transfer (European Payments Council
guideline EPC069-12, "Quick Response Code: Guidelines to Enable Data Capture for the
Initiation of a SEPA Credit Transfer"). Properties of that model are proved.

The pipeline has three steps:

- **Validate** (`Transfer.validate`). The amount string must parse as a float and lie
  in [0.01, 999 999 999.99], with both bounds included.
- **Build** (`newRaw`). A `Config` and a `Transfer` are merged into the twelve-field
  `raw` record:
  - the service tag is `"BCD"`;
  - the amount field is the currency followed by the amount string;
  - every other field is copied unchanged.
- **Render** (`raw.render`). The record goes through the `RAW_TEMPLATE` html/template,
  which is meant to join the twelve escaped values with `"\n"`, with no trailing
  separator. A result longer than 331 bytes is refused with `ErrSepaLength`. As
  written, template execution fails for every record (see "## Findings"); the model
  proves that and carries the intended rendering alongside.

`GetRawText` composes build and render and tags each error with the stage that failed.

Modules:

- `Results`: `Option`, `Result` and `Outcome`.
- `Floats`: the float64 values a parse can yield, with IEEE comparisons.
- `Asserts`: `pkg/asserts`.
- `Strconv` and `StrconvFacts`: the amount parser and its round trip with a
  two-decimal formatter.
- `Lines`: the newline join and split.
- `Utf8`: the byte length of a string.
- `HtmlTemplate`: field lookup, execution and text-context escaping.
- `Epc`: the pipeline.
- `EpcFacts`: properties of the pipeline.
- `EpcExamples`: the documented example, the tests' cases, and the edges of the
  amount range and of the size limit.

The datatype constructors `Config(...)` and `Transfer(...)` stand for `NewConfig` and
`NewTransfer` (core.go:116-124 and core.go:211-221), which store their arguments
unchecked.

Behaviour of the code that the model keeps and proves:

- `"NaN"`, in any letter case, passes validation. ParseFloat accepts it, and both range
  comparisons are false for NaN. The payload then carries `EURNaN`.
- Exponent forms such as `"1e3"` pass as 1000. As in Go's `readFloat`, exponent digits
  stop counting once the exponent has reached 10000.
- Underscores between digits are digit separators for ParseFloat, so `"1_000.00"`
  passes as 1000 and the amount line reads `EUR1_000.00`. An underscore anywhere else,
  as in `"1__000.00"`, `"_1.00"` or `"1_.00"`, is a format error.
- An amount beyond float64 range, such as `"1e400"`, is a parse error, not an
  out-of-range error.
- Every field value goes through html/template's text-context escaper. That escaper
  rewrites NUL to U+FFFD and `"`, `&`, `'`, `+`, `<`, `>` to HTML entities. The table is
  html/template's `htmlReplacementTable` (html/template/html.go in Go's standard
  library), which `htmlEscaper` applies to every action in a text context. Escaping
  changes nothing exactly when a value contains none of these characters
  (`HtmlTemplate.EscapeIdentity`).
- The 331-byte limit counts UTF-8 bytes of the escaped text. A payload of exactly 331
  bytes passes.
- The record has twelve fields, one per element of EPC069-12, so the payload has
  twelve lines.

## Model

| member | source | states |
|---|---|---|
| `Asserts.AssertInBetween` | pkg/asserts/validators.go:8-14 | With no NaN operand, true exactly when left <= value <= right, both ends inclusive. A NaN value is always "in between". |
| `Asserts.InBetweenOnIntegers` | pkg/asserts/validators_test.go:10-28 | For integers: true if and only if left <= value <= right. |
| `Asserts.ReversedRangeIsEmpty` | pkg/asserts/validators.go:9-10 | When right < left, no non-NaN value is accepted. |
| `Asserts.AssertContains` | pkg/asserts/validators.go:17-25 | True if and only if some element of the slice equals the value. False on an empty slice. |
| `Asserts.AssertSize` | pkg/asserts/validators.go:28-38 | Returns -1, 0 or 1 exactly when the length is below, equal to or above the maximum. Never returns anything else. |
| `Strconv.ParseFloat` | core.go:127-130 | A finite result lies strictly inside float64 range. The result is NaN exactly when the text spells "nan" in some letter case. |
| `StrconvFacts.ParseDecimalLiteral` | core.go:127 | `[-]digits.digits` parses to its exact decimal value, negated after a minus, when that value is within float64 range. |
| `StrconvFacts.ParseFormatCents` | core.go:127 | Round trip: every two-decimal spelling of a cent count parses back to that count / 100. Beyond float64 range it is a parse error. |
| `StrconvFacts.UnderscoresIgnored` | core.go:127 | When every underscore sits between two digits, the text parses exactly as it does with the underscores removed. |
| `StrconvFacts.MisplacedUnderscore` | core.go:127 | An underscore that does not sit between two digits makes the text a parse error. |
| `StrconvFacts.ExponentExact` | core.go:127 | While the exponent digits read so far spell less than 10000, the exponent is the full decimal value of its digits. |
| `StrconvFacts.ExponentSaturates` | core.go:127 | An exponent whose digits spell 10000 or more is read as a value from 10000 up to 99999, however many digits follow. |
| `StrconvFacts.ParsedNumberHasDigit` | core.go:127-130 | A string with no digit never parses to a finite number. |
| `Epc.Validate` | core.go:126-137 | Unparseable amount: an invalid-format error. Parsed amount: passes or fails as out of range. Finite amount: passes exactly inside [0.01, 999999999.99]. Infinity: fails. NaN: passes. |
| `EpcFacts.ValidateCents` | core.go:132-134 | For two-decimal amounts, validation passes exactly for 1 to 99 999 999 999 cents, both bounds included. |
| `Epc.NewRaw` | core.go:156-176 | Succeeds exactly when the transfer validates. Otherwise it returns the validation error. On success the service tag is "BCD" and the amount field is currency ++ amount. |
| `EpcFacts.NewRawDecomposes` | core.go:162-175 | Splitting the built record's amount at the currency's length gives back the exact Config and Transfer: nothing is altered or lost. |
| `EpcFacts.DecomposeBuilds` | core.go:162-175 | Conversely, every "BCD" record whose amount part validates is exactly what `NewRaw` builds from its decomposition. |
| `HtmlTemplate.Resolve` | core.go:184-188 | A lookup succeeds only for an exported field that is present under exactly that name. It fails with "can't evaluate field" exactly when no field has the name. |
| `HtmlTemplate.Execute` | core.go:184-188 | Execution succeeds exactly when every action resolves. On failure, the error is that of the first action that fails. |
| `HtmlTemplate.ExecuteJoins` | core.go:27-38 | When every action resolves, the output is the escaped values joined by "\n", in action order. |
| `HtmlTemplate.EscapeIdentity` | core.go:184-188 | Escaping leaves a value unchanged exactly when it has none of NUL, `"`, `&`, `'`, `+`, `<`, `>`. |
| `HtmlTemplate.EscapeKeepsNewlines` | core.go:184-188 | Escaping adds no line break and removes none. |
| `Epc.RenderAsWritten` | core.go:178-188 | As written, rendering fails for every record: the first action, `.ServiceTag`, names no field of `raw`. |
| `Epc.GetRawTextAsWritten` | core.go:75-87 | As written, `GetRawText` never returns a payload. An invalid transfer gives its validation error tagged as a build error. Every valid one gives "can't evaluate field ServiceTag" tagged as a render error. |
| `Epc.ExecuteExported` | core.go:27-38 | Once the template's names are exported fields of `raw`, execution yields exactly the twelve escaped fields joined by "\n". |
| `Epc.Render` | core.go:178-195 | Succeeds exactly when the serialized record is at most 331 UTF-8 bytes, and then returns that text. Otherwise it fails with ErrSepaLength. |
| `Epc.GetRawText` | core.go:75-87 | If validation fails, returns that error tagged as a build error. Otherwise succeeds exactly when the EPC text for the inputs fits in 331 bytes, and returns that text. Otherwise returns ErrSepaLength tagged as a render error. |
| `Lines.SplitJoin` | core.go:27-38 | Splitting a newline join gives back the parts when none holds a newline. Empty parts are kept as lines. |
| `Lines.JoinSplit` | core.go:27-38 | Joining the lines of a text gives the text back. |
| `EpcFacts.RenderedLines` | core.go:27-38 | A rendered payload splits into exactly twelve lines, the escaped fields in record order, when no field holds a newline. |
| `EpcFacts.PayloadLines` | core.go:162-175 | For newline-free inputs with no escaped characters, the lines of `GetRawText`'s text are "BCD", version, character set, identification code, BIC, name, IBAN, currency ++ amount, purpose, reference, text and information. Line index 7 (the eighth line) is currency ++ amount. |
| `EpcFacts.PayloadSize` | core.go:190-192 | The measured size is the escaped fields' UTF-8 bytes plus eleven separators. |
| `EpcFacts.PlainPayloadSize` | core.go:190-192 | For ASCII inputs with no escaped characters, the text is the plain join. Its size is the sum of the field lengths (currency and amount separately) plus 3 for "BCD" plus 11. |
| `EpcFacts.OverlongFieldRejected` | core_test.go:61-69 | A valid transfer with any one field longer than 320 UTF-8 bytes fails with ErrSepaLength. |
| `HtmlTemplate.EscapeBytes` | core.go:184-192 | Escaping never shortens a value's UTF-8 encoding, so the bytes counted against the limit are at least the input's. |
| `Utf8.LengthBounds` | core.go:190 | The byte length is between 1 and 4 bytes per character. It equals the character count exactly for ASCII. |
| `EpcExamples.ExampleGetRawText` | example_test.go:11-34 | The documented example gives exactly `"BCD\n001\n1\nSCT\nYOURBIC\nYOURNAME\nYOURIBAN\nEUR123.45\nGDDS\nPayment for invoice\n\n"`. |
| `EpcExamples.UnparseableAmounts` | core_test.go:41-50 | "invalid", "abc" and "" fail with an invalid-format error. |
| `EpcExamples.BillionAmountRejected` | core_test.go:51-60 | "1000000000.00" fails as out of range. |
| `EpcExamples.ZeroAmountRejected` | core.go:132-134 | "0.00" fails as out of range. |
| `EpcExamples.LowestAmountAccepted` | core.go:132 | "0.01" passes: the lower bound is included. |
| `EpcExamples.HighestAmountAccepted` | core.go:132 | "999999999.99" passes: the upper bound is included. |
| `EpcExamples.NaNAmountAccepted` | core.go:127-136 | "NaN" passes validation. |
| `EpcExamples.NaNPayload` | core.go:75-87 | The example with amount "NaN" renders successfully. |
| `EpcExamples.ExponentAmountAccepted` | core.go:127-136 | "1e3" parses as 1000 and passes. |
| `EpcExamples.UnderscoreAmountAccepted` | core.go:127-136 | "1_000.00" parses as 1000 and passes. |
| `EpcExamples.MisplacedUnderscoreRejected` | core.go:127-129 | "1__000.00", "_1.00" and "1_.00" fail with an invalid-format error. |
| `EpcExamples.TwoByteTextRejected` | core.go:190-192 | A remittance text of 200 'é' (400 UTF-8 bytes) makes `GetRawText` fail with ErrSepaLength: the limit counts bytes, not characters. |
| `EpcExamples.NulPaddingRejected` | core_test.go:61-69 | A field of 332 NUL bytes makes `GetRawText` fail with ErrSepaLength. |
| `EpcExamples.SizeLimitIsInclusive` | core.go:190-192 | A 331-byte payload is returned. A 332-byte one fails with ErrSepaLength. |

## Findings

| source | as written | input that shows it | evidently intended | confidence | as-written member | corrected member |
|---|---|---|---|---|---|---|
| core.go:140-153 | `RAW_TEMPLATE` asks for `.ServiceTag`, `.Version`, … but `raw` has only unexported fields named `serviceTag`, `version`, …, and no exported methods (its only method is `render`). text/template looks up `ServiceTag` first as an exported method and then as an exported field, finds neither, and therefore stops at the first action with "can't evaluate field ServiceTag", so `render`, and with it `GetRawText`, fails for every input. | The documented example: Config("001", "1", "SCT", "YOURBIC", "YOURNAME", "YOURIBAN", "EUR") with Transfer("123.45", "GDDS", "Payment for invoice", "", "") | The template resolves the record's twelve fields and emits them one per line, as the package example prints | high; not executed | `Epc.RenderAsWritten` | `Epc.Render` |

`Epc.GetRawTextAsWritten` composes the build step with `Epc.RenderAsWritten` and
shows that no input yields a payload. `GetRawText` in the model uses the corrected `Render`. That is the record exposed to
the template under the template's own field names.

## Left out

- `GetQRCode` and `qrcode.Encode` (core.go:89-105) are left out. They call a foreign
  barcode library that returns image bytes. The `asserts.AssertSize(b, 331)` call there
  discards its result and gates nothing.
- Template parsing is left out. Parsing the constant `RAW_TEMPLATE` cannot fail, so that
  error path is not modelled. Escaping is modelled for the text context only, the only
  context this template has.
- `Strconv.ParseFloat` returns exact decimal values, not their binary64 roundings.
  Validation differs from Go where rounding carries a value across a bound. That
  happens for amounts within half a float64 unit of 0.01 or 999 999 999.99, which
  take 17 or more significant digits to write, such as `"999999999.99000006"` (Go
  accepts it, the model rejects it).
- `Strconv.ParseFloat` does not model hexadecimal float syntax (`0x1p-2`), with or
  without underscores after the `0x` prefix. Go accepts it; the model rejects it as a
  format error.
- `Strconv.ParseFloat`: an underflowing literal keeps its exact tiny value, where Go
  returns 0. Either way the amount is below 0.01 and fails as out of range.
- `Asserts.AssertInBetween` is stated at Go's float64 instantiation, the one `validate`
  uses. Integers embed exactly into it. The instantiation at other ordered types, such
  as strings, is not modelled.
- `Asserts.AssertContains` compares with Dafny's equality. For float64 elements Go's
  `==` never matches NaN; that case is not modelled.
- `HtmlTemplate.IsExported` treats only ASCII capitals as exported. Go checks
  `unicode.IsUpper` on the first rune; all names involved here are ASCII.
- Go strings can hold byte sequences that are not valid UTF-8. Dafny strings cannot, so
  such inputs are outside the model. The byte count uses the UTF-8 encoding of each
  character.
- Error messages and `%w` wrapping chains are modelled as structured errors. Only the
  stage tag that `GetRawText` adds and the error kind are kept, not the texts.
- Field-level rules are not modelled, because the code does not enforce them. These
  are the version, character-set, identification-code and purpose values, BIC
  presence, and the 25/140/70-character limits (core.go:141-152).
- Determinism of `GetRawText` has no lemma of its own. Every member here is a Dafny
  function, so equal inputs give equal outputs by construction.
