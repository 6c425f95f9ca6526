/** Concrete cases taken from the repository's example and tests: the
    documented payload, the amounts the tests reject, and the edges of the
    amount range and of the size limit. */
module EpcExamples {
  import opened Results
  import opened Floats
  import Strconv
  import StrconvFacts
  import Lines
  import Utf8
  import opened HtmlTemplate
  import opened Epc
  import EpcFacts

  const ExampleConfig := Config("001", "1", "SCT", "YOURBIC", "YOURNAME", "YOURIBAN", "EUR")
  const ExampleTransfer := Transfer("123.45", "GDDS", "Payment for invoice", "", "")

  /** The payload of the repository's example, with its two trailing empty lines. */
  const ExampleText :=
    "BCD\n001\n1\nSCT\nYOURBIC\nYOURNAME\nYOURIBAN\nEUR123.45\nGDDS\nPayment for invoice\n\n"

  lemma ExampleAmountValid()
    ensures Validate(ExampleTransfer).Pass?
  {
    assert StrconvFacts.FormatCents(12345) == "123.45";
    CentsAmount(12345);
    assert ExampleTransfer.(amount := "123.45") == ExampleTransfer;
  }

  lemma ExampleValues()
    ensures EpcFacts.InputValues(ExampleConfig, ExampleTransfer)
            == ["BCD", "001", "1", "SCT", "YOURBIC", "YOURNAME", "YOURIBAN", "EUR123.45",
                "GDDS", "Payment for invoice", "", ""]
  {
    assert ExampleConfig.currency + ExampleTransfer.amount == "EUR123.45";
  }

  /** The words of the example, none of which html/template rewrites. */
  lemma WordsNeutral()
    ensures IsNeutral("BCD")
    ensures IsNeutral("001")
    ensures IsNeutral("1")
    ensures IsNeutral("SCT")
    ensures IsNeutral("YOURBIC")
    ensures IsNeutral("YOURNAME")
    ensures IsNeutral("YOURIBAN")
    ensures IsNeutral("EUR123.45")
    ensures IsNeutral("GDDS")
    ensures IsNeutral("Payment for invoice")
    ensures IsNeutral("")
    ensures IsNeutral("EURNaN")
  {
  }

  /** ... and all of which are ASCII. */
  lemma WordsAscii()
    ensures Utf8.IsAscii("BCD")
    ensures Utf8.IsAscii("001")
    ensures Utf8.IsAscii("1")
    ensures Utf8.IsAscii("SCT")
    ensures Utf8.IsAscii("YOURBIC")
    ensures Utf8.IsAscii("YOURNAME")
    ensures Utf8.IsAscii("YOURIBAN")
    ensures Utf8.IsAscii("EUR123.45")
    ensures Utf8.IsAscii("GDDS")
    ensures Utf8.IsAscii("Payment for invoice")
    ensures Utf8.IsAscii("")
    ensures Utf8.IsAscii("EURNaN")
  {
  }

  lemma ExampleNeutral()
    ensures forall i :: 0 <= i < 12 ==> IsNeutral(EpcFacts.InputValues(ExampleConfig, ExampleTransfer)[i])
  {
    ExampleValues();
    WordsNeutral();
  }

  lemma ExampleAscii()
    ensures forall i :: 0 <= i < 12 ==> Utf8.IsAscii(EpcFacts.InputValues(ExampleConfig, ExampleTransfer)[i])
  {
    ExampleValues();
    WordsAscii();
  }

  lemma ExampleTextPieces()
    ensures "BCD" + "\n" + "001" + "\n" + "1" + "\n" + "SCT" + "\n" + "YOURBIC" + "\n" + "YOURNAME" + "\n"
            + "YOURIBAN" + "\n" + "EUR123.45" + "\n" + "GDDS" + "\n" + "Payment for invoice" + "\n" + "" + "\n" + ""
            == ExampleText
  {
    TextPieces1();
    TextPieces2();
    TextPieces3();
    TextPieces4();
  }

  lemma ExampleJoin()
    ensures Lines.Join(EpcFacts.InputValues(ExampleConfig, ExampleTransfer)) == ExampleText
  {
    ExampleValues();
    EpcFacts.JoinTwelve("BCD", "001", "1", "SCT", "YOURBIC", "YOURNAME", "YOURIBAN", "EUR123.45",
                        "GDDS", "Payment for invoice", "", "");
    ExampleTextPieces();
  }

  lemma ExampleSize()
    ensures PaymentText(ExampleConfig, ExampleTransfer) == ExampleText
    ensures Utf8.Length(ExampleText) <= MaxPayloadSize
  {
    ExampleNeutral();
    ExampleAscii();
    EpcFacts.PlainPayloadSize(ExampleConfig, ExampleTransfer);
    ExampleJoin();
  }

  /** The example of the repository's documentation, exactly. */
  lemma ExampleGetRawText()
    ensures GetRawText(ExampleConfig, ExampleTransfer) == Success(ExampleText)
  {
    ExampleAmountValid();
    ExampleSize();
  }

  /** A two-decimal amount in the example transfer: accepted inside the
      range, otherwise rejected as out of range (never as malformed). */
  lemma CentsAmount(cents: nat)
    requires cents <= 1_000_000_000_000
    ensures var t := ExampleTransfer.(amount := StrconvFacts.FormatCents(cents));
            && (Validate(t).Pass? <==> 1 <= cents <= 99_999_999_999)
            && (Validate(t).Fail? ==> Validate(t).error == AmountOutOfRange(t.amount))
  {
    StrconvFacts.ParseFormatCents(cents);
  }

  // The amount cases of the repository's tests and the range edges.

  lemma LowestAmountAccepted()
    ensures Validate(ExampleTransfer.(amount := "0.01")).Pass?
  {
    assert StrconvFacts.FormatCents(1) == "0.01";
    CentsAmount(1);
  }

  lemma HighestSpelling()
    ensures StrconvFacts.FormatCents(99_999_999_999) == "999999999.99"
  {
    StrconvFacts.NinesCents(9);
    ElevenDigits();
    NineNines();
  }

  lemma HighestAmountAccepted()
    ensures Validate(ExampleTransfer.(amount := "999999999.99")).Pass?
  {
    HighestSpelling();
    CentsAmount(99_999_999_999);
  }

  lemma ZeroAmountRejected()
    ensures Validate(ExampleTransfer.(amount := "0.00")) == Fail(AmountOutOfRange("0.00"))
  {
    assert StrconvFacts.FormatCents(0) == "0.00";
    CentsAmount(0);
  }

  lemma BillionSpelling()
    ensures StrconvFacts.FormatCents(100_000_000_000) == "1000000000.00"
  {
    StrconvFacts.PowerCents(9);
    ElevenDigits();
    NineZeros();
  }

  lemma BillionAmountRejected()
    ensures Validate(ExampleTransfer.(amount := "1000000000.00")) == Fail(AmountOutOfRange("1000000000.00"))
  {
    BillionSpelling();
    CentsAmount(100_000_000_000);
  }

  lemma UnparseableAmounts()
    ensures Validate(ExampleTransfer.(amount := "invalid")) == Fail(InvalidAmountFormat("invalid"))
    ensures Validate(ExampleTransfer.(amount := "abc")) == Fail(InvalidAmountFormat("abc"))
    ensures Validate(ExampleTransfer.(amount := "")) == Fail(InvalidAmountFormat(""))
  {
    NoDigitRejected("invalid");
    NoDigitRejected("abc");
    NoDigitRejected("");
  }

  /** Without a digit, and not an infinity or NaN, there is no number. */
  lemma NoDigitRejected(s: string)
    requires Strconv.Special(s) == None
    requires forall k :: 0 <= k < |s| ==> !Strconv.IsDigit(s[k])
    ensures Strconv.ParseFloat(s) == None
  {
    if Strconv.ParseFloat(s).Some? {
      StrconvFacts.ParsedNumberHasDigit(s);
    }
  }

  /** "NaN" is accepted as an amount: both range comparisons are false. */
  lemma NaNAmountAccepted()
    ensures Validate(ExampleTransfer.(amount := "NaN")).Pass?
  {
    assert Strconv.FoldsTo("NaN", "nan");
  }

  lemma NaNValues()
    ensures EpcFacts.InputValues(ExampleConfig, ExampleTransfer.(amount := "NaN"))
            == ["BCD", "001", "1", "SCT", "YOURBIC", "YOURNAME", "YOURIBAN", "EURNaN",
                "GDDS", "Payment for invoice", "", ""]
  {
    assert ExampleConfig.currency + "NaN" == "EURNaN";
  }

  lemma NaNNeutral()
    ensures forall i :: 0 <= i < 12 ==> IsNeutral(EpcFacts.InputValues(ExampleConfig, ExampleTransfer.(amount := "NaN"))[i])
  {
    NaNValues();
    WordsNeutral();
  }

  lemma NaNAscii()
    ensures forall i :: 0 <= i < 12 ==> Utf8.IsAscii(EpcFacts.InputValues(ExampleConfig, ExampleTransfer.(amount := "NaN"))[i])
  {
    NaNValues();
    WordsAscii();
  }

  /** ... and the payload then carries "EURNaN" as its amount line. */
  lemma NaNPayload()
    ensures GetRawText(ExampleConfig, ExampleTransfer.(amount := "NaN")).Success?
  {
    NaNAmountAccepted();
    NaNNeutral();
    NaNAscii();
    EpcFacts.PlainPayloadSize(ExampleConfig, ExampleTransfer.(amount := "NaN"));
  }

  /** Exponent notation passes too, as ParseFloat reads it. */
  lemma ExponentAmountAccepted()
    ensures Strconv.ParseFloat("1e3") == Some(Finite(1000.0))
    ensures Validate(ExampleTransfer.(amount := "1e3")).Pass?
  {
    StrconvFacts.SkipDigitsStops("1e3", 0, 1);
    assert "3"[..0] == "";
    assert Strconv.ReadExponent("3") == Some(3);
    assert Strconv.Scale(3) == 1000.0;
    assert "1e3"[..1] == "1" && "1e3"[1..] == "e3" && "e3"[1..] == "3";
    assert Strconv.DecimalValue("1", "") == 1.0 by { assert "1" + "" == "1"; }
    assert Strconv.ApplyExponent(1.0, "e3") == Some(1000.0);
    assert Strconv.ReadDecimal("1e3") == Some(1000.0);
    StrconvFacts.DigitFirstIsNotSpecial("1e3");
  }

  /** Underscores between digits pass as well, and stay in the amount line. */
  lemma UnderscoreAmountAccepted()
    ensures Strconv.ParseFloat("1_000.00") == Some(Finite(1000.0))
    ensures Validate(ExampleTransfer.(amount := "1_000.00")).Pass?
  {
    ThousandParses();
    UnderscoreSpelling();
    StrconvFacts.UnderscoresIgnored("1_000.00");
  }

  lemma ThousandParses()
    ensures Strconv.ParseFloat("1000.00") == Some(Finite(1000.0))
  {
    assert StrconvFacts.FormatCents(100000) == "1000.00";
    StrconvFacts.ParseFormatCents(100000);
  }

  lemma UnderscoreSpelling()
    ensures Strconv.UnderscoresOK("1_000.00")
    ensures Strconv.StripUnderscores("1_000.00") == "1000.00"
  {
    var a, b := "1", "000.00";
    assert '_' !in a && '_' !in b;
    assert a + "_" + b == "1_000.00";
    assert a + b == "1000.00";
    StrconvFacts.SeparatorAccepted(a, b);
    StrconvFacts.SeparatorDropped(a, b);
  }

  /** An underscore that does not sit between two digits makes the amount malformed. */
  lemma MisplacedUnderscoreRejected()
    ensures Validate(ExampleTransfer.(amount := "1__000.00")) == Fail(InvalidAmountFormat("1__000.00"))
    ensures Validate(ExampleTransfer.(amount := "_1.00")) == Fail(InvalidAmountFormat("_1.00"))
    ensures Validate(ExampleTransfer.(amount := "1_.00")) == Fail(InvalidAmountFormat("1_.00"))
  {
    assert "1__000.00"[1] == '_' && !Strconv.IsDigit("1__000.00"[2]);
    StrconvFacts.MisplacedUnderscore("1__000.00");
    assert "_1.00"[0] == '_';
    StrconvFacts.MisplacedUnderscore("_1.00");
    assert "1_.00"[1] == '_' && !Strconv.IsDigit("1_.00"[2]);
    StrconvFacts.MisplacedUnderscore("1_.00");
  }

  /** core_test's too-long payload: 332 NUL bytes in one field. */
  lemma NulPaddingRejected()
    ensures GetRawText(ExampleConfig, ExampleTransfer.(remittanceText := seq(332, _ => '\0')))
            == Failure(RenderingRaw(SepaLength))
  {
    ExampleAmountValid();
    Utf8.LengthBounds(seq(332, _ => '\0'));
    EpcFacts.OverlongFieldRejected(ExampleConfig, ExampleTransfer.(remittanceText := seq(332, _ => '\0')), 10);
  }

  /** The limit counts bytes: 200 characters of 'é' are 400 bytes of UTF-8,
      too many for one field. */
  lemma TwoByteTextRejected()
    ensures GetRawText(ExampleConfig, ExampleTransfer.(remittanceText := seq(200, _ => 'é')))
            == Failure(RenderingRaw(SepaLength))
  {
    ExampleAmountValid();
    Utf8.LengthRepeat('é', 200);
    EpcFacts.OverlongFieldRejected(ExampleConfig, ExampleTransfer.(remittanceText := seq(200, _ => 'é')), 10);
  }

  /** A payload of exactly 331 bytes is accepted; one byte more is not. */
  const EdgeConfig := Config("002", "1", "SCT", "", "", "", "EUR")

  function EdgeTransfer(padding: nat): (t: Transfer)
  {
    Transfer("1.00", "", "", seq(padding, _ => 'a'), "")
  }

  lemma EdgeAmount(padding: nat)
    ensures Validate(EdgeTransfer(padding)).Pass?
  {
    assert StrconvFacts.FormatCents(100) == "1.00";
    StrconvFacts.ParseFormatCents(100);
  }

  lemma EdgePlain(padding: nat)
    ensures forall i :: 0 <= i < 12 ==> IsNeutral(EpcFacts.InputValues(EdgeConfig, EdgeTransfer(padding))[i])
    ensures forall i :: 0 <= i < 12 ==> Utf8.IsAscii(EpcFacts.InputValues(EdgeConfig, EdgeTransfer(padding))[i])
  {
    var values := EpcFacts.InputValues(EdgeConfig, EdgeTransfer(padding));
    assert values[11] == "" && values[7] == "EUR1.00";
  }

  lemma EdgeSize(padding: nat)
    ensures Validate(EdgeTransfer(padding)).Pass?
    ensures Utf8.Length(PaymentText(EdgeConfig, EdgeTransfer(padding))) == padding + 28
  {
    EdgeAmount(padding);
    EdgePlain(padding);
    EpcFacts.PlainPayloadSize(EdgeConfig, EdgeTransfer(padding));
  }

  lemma SizeLimitIsInclusive()
    ensures GetRawText(EdgeConfig, EdgeTransfer(303)).Success?
    ensures GetRawText(EdgeConfig, EdgeTransfer(304)) == Failure(RenderingRaw(SepaLength))
  {
    EdgeSize(303);
    EdgeSize(304);
  }

  // Facts about string and number literals used by the examples above. Each
  // is an equation the solver settles on its own; they are separate lemmas
  // only so that no single proof has to expand all of these literals at once.

  lemma TextPieces1()
    ensures "BCD" + "\n" + "001" + "\n" + "1" + "\n" + "SCT" == "BCD\n001\n1\nSCT"
  {
    assert "BCD" + "\n" + "001" == "BCD\n001";
    assert "BCD\n001" + "\n" + "1" == "BCD\n001\n1";
    assert "BCD\n001\n1" + "\n" + "SCT" == "BCD\n001\n1\nSCT";
  }

  lemma TextPieces2()
    ensures "BCD\n001\n1\nSCT" + "\n" + "YOURBIC" + "\n" + "YOURNAME" + "\n" + "YOURIBAN" == "BCD\n001\n1\nSCT\nYOURBIC\nYOURNAME\nYOURIBAN"
  {
    assert "BCD\n001\n1\nSCT" + "\n" + "YOURBIC" == "BCD\n001\n1\nSCT\nYOURBIC";
    assert "BCD\n001\n1\nSCT\nYOURBIC" + "\n" + "YOURNAME" == "BCD\n001\n1\nSCT\nYOURBIC\nYOURNAME";
    assert "BCD\n001\n1\nSCT\nYOURBIC\nYOURNAME" + "\n" + "YOURIBAN" == "BCD\n001\n1\nSCT\nYOURBIC\nYOURNAME\nYOURIBAN";
  }

  lemma TextPieces3()
    ensures "BCD\n001\n1\nSCT\nYOURBIC\nYOURNAME\nYOURIBAN" + "\n" + "EUR123.45" + "\n" + "GDDS" + "\n" + "Payment for invoice" == "BCD\n001\n1\nSCT\nYOURBIC\nYOURNAME\nYOURIBAN\nEUR123.45\nGDDS\nPayment for invoice"
  {
    assert "BCD\n001\n1\nSCT\nYOURBIC\nYOURNAME\nYOURIBAN" + "\n" + "EUR123.45" == "BCD\n001\n1\nSCT\nYOURBIC\nYOURNAME\nYOURIBAN\nEUR123.45";
    assert "BCD\n001\n1\nSCT\nYOURBIC\nYOURNAME\nYOURIBAN\nEUR123.45" + "\n" + "GDDS" == "BCD\n001\n1\nSCT\nYOURBIC\nYOURNAME\nYOURIBAN\nEUR123.45\nGDDS";
    assert "BCD\n001\n1\nSCT\nYOURBIC\nYOURNAME\nYOURIBAN\nEUR123.45\nGDDS" + "\n" + "Payment for invoice" == "BCD\n001\n1\nSCT\nYOURBIC\nYOURNAME\nYOURIBAN\nEUR123.45\nGDDS\nPayment for invoice";
  }

  lemma TextPieces4()
    ensures "BCD\n001\n1\nSCT\nYOURBIC\nYOURNAME\nYOURIBAN\nEUR123.45\nGDDS\nPayment for invoice" + "\n" + "" + "\n" + "" == "BCD\n001\n1\nSCT\nYOURBIC\nYOURNAME\nYOURIBAN\nEUR123.45\nGDDS\nPayment for invoice\n\n"
  {
    assert "BCD\n001\n1\nSCT\nYOURBIC\nYOURNAME\nYOURIBAN\nEUR123.45\nGDDS\nPayment for invoice" + "\n" + "" == "BCD\n001\n1\nSCT\nYOURBIC\nYOURNAME\nYOURIBAN\nEUR123.45\nGDDS\nPayment for invoice\n";
    assert "BCD\n001\n1\nSCT\nYOURBIC\nYOURNAME\nYOURIBAN\nEUR123.45\nGDDS\nPayment for invoice\n" + "\n" + "" == "BCD\n001\n1\nSCT\nYOURBIC\nYOURNAME\nYOURIBAN\nEUR123.45\nGDDS\nPayment for invoice\n\n";
  }

  lemma ElevenDigits()
    ensures Strconv.Pow10(11) == 100_000_000_000
  {
  }

  lemma NineNines()
    ensures StrconvFacts.Repeat('9', 9) + "." + "99" == "999999999.99"
  {
  }

  lemma NineZeros()
    ensures "1" + StrconvFacts.Repeat('0', 9) + "." + "00" == "1000000000.00"
  {
  }
}
