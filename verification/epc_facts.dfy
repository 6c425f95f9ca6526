/** Properties of the payload pipeline that relate several operations:
    the positional layout a reader recovers, the record's faithfulness to
    its inputs, the amount range on canonical amounts, and the byte size. */
module EpcFacts {
  import opened Results
  import opened Floats
  import Strconv
  import StrconvFacts
  import Lines
  import Utf8
  import opened HtmlTemplate
  import opened Epc

  /** The twelve values the payload is built from, in line order. */
  function InputValues(conf: Config, transf: Transfer): (values: seq<string>)
  {
    ["BCD", conf.version, conf.characterSet, conf.identificationCode, conf.bic, conf.name,
     conf.iban, conf.currency + transf.amount, transf.purpose, transf.remittanceReference,
     transf.remittanceText, transf.information]
  }

  lemma EscapeAllNoNewline(values: seq<string>)
    requires Lines.NoNewline(values)
    ensures Lines.NoNewline(EscapeAll(values))
  {
    forall i | 0 <= i < |values| ensures '\n' !in EscapeAll(values)[i] {
      EscapeKeepsNewlines(values[i]);
    }
  }

  lemma EscapeAllNeutral(values: seq<string>)
    requires forall i :: 0 <= i < |values| ==> IsNeutral(values[i])
    ensures EscapeAll(values) == values
  {
    forall i | 0 <= i < |values| ensures EscapeAll(values)[i] == values[i] {
      EscapeIdentity(values[i]);
    }
  }

  /** Splitting a rendered payload on "\n" gives back the twelve (escaped)
      fields in order, empty ones included, when no field holds a newline. */
  lemma RenderedLines(r: Raw)
    requires Render(r).Success?
    requires Lines.NoNewline(Values(r))
    ensures Lines.Split(Render(r).value) == EscapeAll(Values(r))
    ensures |Lines.Split(Render(r).value)| == 12
  {
    EscapeAllNoNewline(Values(r));
    Lines.SplitJoin(EscapeAll(Values(r)));
  }

  /** For inputs free of newlines and of the characters html/template
      escapes, the lines of `GetRawText`'s text are exactly "BCD", the
      configuration's fields, currency followed by amount, and the
      transfer's fields, in that order. */
  lemma PayloadLines(conf: Config, transf: Transfer)
    requires GetRawText(conf, transf).Success?
    requires Lines.NoNewline(InputValues(conf, transf))
    requires forall i :: 0 <= i < 12 ==> IsNeutral(InputValues(conf, transf)[i])
    ensures Lines.Split(GetRawText(conf, transf).value) == InputValues(conf, transf)
    ensures Lines.Split(GetRawText(conf, transf).value)[7] == conf.currency + transf.amount
  {
    var values := InputValues(conf, transf);
    assert Validate(transf).Pass?;
    assert GetRawText(conf, transf).value == PaymentText(conf, transf) == Lines.Join(EscapeAll(values));
    EscapeAllNeutral(values);
    Lines.SplitJoin(values);
  }

  /** The record keeps the transfer's amount string verbatim behind the
      currency, so both inputs can be read back off it. */
  function Decompose(r: Raw, currencyLength: nat): (parts: (Config, Transfer))
    requires currencyLength <= |r.amount|
  {
    (Config(r.version, r.characterSet, r.identificationCode, r.bic, r.name, r.iban,
            r.amount[..currencyLength]),
     Transfer(r.amount[currencyLength..], r.purpose, r.remittanceReference,
              r.remittanceText, r.information))
  }

  /** Nothing in the inputs is lost or altered by `NewRaw`. */
  lemma NewRawDecomposes(conf: Config, transf: Transfer)
    requires NewRaw(conf, transf).Success?
    ensures Decompose(NewRaw(conf, transf).value, |conf.currency|) == (conf, transf)
  {
    var r := NewRaw(conf, transf).value;
    assert r.amount[..|conf.currency|] == conf.currency;
    assert r.amount[|conf.currency|..] == transf.amount;
  }

  /** Conversely, every record tagged "BCD" whose amount validates is what
      `NewRaw` builds from its decomposition: the record adds nothing else. */
  lemma DecomposeBuilds(r: Raw, currencyLength: nat)
    requires r.serviceTag == "BCD"
    requires currencyLength <= |r.amount|
    requires Validate(Decompose(r, currencyLength).1).Pass?
    ensures NewRaw(Decompose(r, currencyLength).0, Decompose(r, currencyLength).1) == Success(r)
  {
    var (conf, transf) := Decompose(r, currencyLength);
    assert r.amount == r.amount[..currencyLength] + r.amount[currencyLength..];
  }

  /** On amounts written with two decimals, the check accepts exactly the
      cent counts from 1 (0.01) to 99 999 999 999 (999 999 999.99). */
  lemma ValidateCents(cents: nat, purpose: string, reference: string, text: string, information: string)
    ensures Validate(Transfer(StrconvFacts.FormatCents(cents), purpose, reference, text, information)).Pass?
            <==> 1 <= cents <= 99_999_999_999
  {
    StrconvFacts.ParseFormatCents(cents);
  }

  /** Bytes of a join: the parts' bytes plus one per separator. */
  function Utf8Total(parts: seq<string>): (n: nat)
  {
    if |parts| == 0 then 0 else Utf8.Length(parts[0]) + Utf8Total(parts[1..])
  }

  lemma {:induction false} JoinUtf8Length(parts: seq<string>)
    requires |parts| >= 1
    ensures Utf8.Length(Lines.Join(parts)) == Utf8Total(parts) + |parts| - 1
    decreases |parts|
  {
    if |parts| > 1 {
      JoinUtf8Length(parts[1..]);
      Utf8.LengthAppend(parts[0], "\n" + Lines.Join(parts[1..]));
      Utf8.LengthAppend("\n", Lines.Join(parts[1..]));
      assert parts[0] + "\n" + Lines.Join(parts[1..]) == parts[0] + ("\n" + Lines.Join(parts[1..]));
    }
  }

  /** The size the 331-byte limit is applied to: the escaped fields' UTF-8
      bytes plus the eleven separators. */
  lemma PayloadSize(conf: Config, transf: Transfer)
    ensures Utf8.Length(PaymentText(conf, transf)) == Utf8Total(EscapeAll(InputValues(conf, transf))) + 11
  {
    JoinUtf8Length(EscapeAll(InputValues(conf, transf)));
  }

  /** The twelve-line join written out. */
  lemma JoinTwelve(v0: string, v1: string, v2: string, v3: string, v4: string, v5: string,
                   v6: string, v7: string, v8: string, v9: string, v10: string, v11: string)
    ensures Lines.Join([v0, v1, v2, v3, v4, v5, v6, v7, v8, v9, v10, v11])
            == v0 + "\n" + v1 + "\n" + v2 + "\n" + v3 + "\n" + v4 + "\n" + v5 + "\n"
               + v6 + "\n" + v7 + "\n" + v8 + "\n" + v9 + "\n" + v10 + "\n" + v11
  {
    var vs := [v0, v1, v2, v3, v4, v5, v6, v7, v8, v9, v10, v11];
    assert Lines.Join(vs[..1]) == vs[0];
    assert vs[..2] == vs[..1] + [vs[1]];
    Lines.JoinSnoc(vs[..1], vs[1]);
    assert vs[..3] == vs[..2] + [vs[2]];
    Lines.JoinSnoc(vs[..2], vs[2]);
    assert vs[..4] == vs[..3] + [vs[3]];
    Lines.JoinSnoc(vs[..3], vs[3]);
    assert vs[..5] == vs[..4] + [vs[4]];
    Lines.JoinSnoc(vs[..4], vs[4]);
    assert vs[..6] == vs[..5] + [vs[5]];
    Lines.JoinSnoc(vs[..5], vs[5]);
    assert vs[..7] == vs[..6] + [vs[6]];
    Lines.JoinSnoc(vs[..6], vs[6]);
    assert vs[..8] == vs[..7] + [vs[7]];
    Lines.JoinSnoc(vs[..7], vs[7]);
    assert vs[..9] == vs[..8] + [vs[8]];
    Lines.JoinSnoc(vs[..8], vs[8]);
    assert vs[..10] == vs[..9] + [vs[9]];
    Lines.JoinSnoc(vs[..9], vs[9]);
    assert vs[..11] == vs[..10] + [vs[10]];
    Lines.JoinSnoc(vs[..10], vs[10]);
    assert vs[..12] == vs[..11] + [vs[11]];
    Lines.JoinSnoc(vs[..11], vs[11]);
    assert vs[..12] == vs;
  }

  lemma {:induction false} JoinAscii(parts: seq<string>)
    requires forall i :: 0 <= i < |parts| ==> Utf8.IsAscii(parts[i])
    ensures Utf8.IsAscii(Lines.Join(parts))
    decreases |parts|
  {
    if |parts| > 1 {
      JoinAscii(parts[1..]);
      assert Utf8.IsAscii("\n");
      Utf8.AppendAscii(parts[0], "\n");
      Utf8.AppendAscii(parts[0] + "\n", Lines.Join(parts[1..]));
    }
  }

  /** For ASCII inputs free of escaped characters, the limit applies to the
      plain character count: the fields' lengths plus eleven separators. */
  lemma PlainPayloadSize(conf: Config, transf: Transfer)
    requires forall i :: 0 <= i < 12 ==> IsNeutral(InputValues(conf, transf)[i])
    requires forall i :: 0 <= i < 12 ==> Utf8.IsAscii(InputValues(conf, transf)[i])
    ensures PaymentText(conf, transf) == Lines.Join(InputValues(conf, transf))
    ensures Utf8.Length(PaymentText(conf, transf))
            == 3 + |conf.version| + |conf.characterSet| + |conf.identificationCode| + |conf.bic|
               + |conf.name| + |conf.iban| + |conf.currency| + |transf.amount| + |transf.purpose|
               + |transf.remittanceReference| + |transf.remittanceText| + |transf.information| + 11
  {
    var values := InputValues(conf, transf);
    EscapeAllNeutral(values);
    JoinAscii(values);
    Utf8.LengthBounds(Lines.Join(values));
    JoinTwelve(values[0], values[1], values[2], values[3], values[4], values[5],
               values[6], values[7], values[8], values[9], values[10], values[11]);
    assert values == [values[0], values[1], values[2], values[3], values[4], values[5],
                      values[6], values[7], values[8], values[9], values[10], values[11]];
  }

  lemma {:induction false} Utf8TotalBounds(parts: seq<string>, k: nat)
    requires k < |parts|
    ensures Utf8Total(parts) >= Utf8.Length(parts[k])
    decreases k
  {
    if k > 0 {
      Utf8TotalBounds(parts[1..], k - 1);
    }
  }

  /** A transfer whose single field already takes more UTF-8 bytes than is
      left of the 331 once the eleven separators are counted cannot be
      rendered, whatever the other fields hold. */
  lemma OverlongFieldRejected(conf: Config, transf: Transfer, k: nat)
    requires Validate(transf).Pass?
    requires k < 12 && Utf8.Length(InputValues(conf, transf)[k]) > MaxPayloadSize - 11
    ensures GetRawText(conf, transf) == Failure(RenderingRaw(SepaLength))
  {
    var values := InputValues(conf, transf);
    PayloadSize(conf, transf);
    Utf8TotalBounds(EscapeAll(values), k);
    EscapeBytes(values[k]);
  }
}
