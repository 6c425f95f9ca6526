/** The part of Go's html/template that `raw.render` exercises: a template
    made of field actions `{{ .Name }}` separated by literal "\n" text,
    executed against a struct value.

    Execution evaluates the actions left to right. An action names a struct
    field; the field must exist under exactly that name and be exported
    (upper-case initial), otherwise execution stops with an error. Every
    value lands in an HTML text context, where html/template's escaper
    rewrites NUL, `"`, `&`, `'`, `+`, `<` and `>`. */
module HtmlTemplate {
  import opened Results
  import Lines
  import Utf8

  /** One field of the struct handed to `Execute`, as reflection sees it. */
  datatype Field = Field(name: string, value: string)

  datatype ExecError =
    | CantEvaluateField(name: string)   // no field of that name
    | UnexportedField(name: string)     // the field exists but is lower-case

  predicate IsExported(name: string)
  {
    |name| > 0 && 'A' <= name[0] <= 'Z'
  }

  /** Field lookup for the action `{{ .name }}`. */
  function Resolve(data: seq<Field>, name: string): (r: Result<string, ExecError>)
    ensures r.Success? ==> IsExported(name) && exists i :: 0 <= i < |data| && data[i] == Field(name, r.value)
    ensures (forall i :: 0 <= i < |data| ==> data[i].name != name) <==> r == Failure(CantEvaluateField(name))
    decreases |data|
  {
    if |data| == 0 then Failure(CantEvaluateField(name))
    else if data[0].name == name then
      if IsExported(name) then Success(data[0].value) else Failure(UnexportedField(name))
    else
      var r := Resolve(data[1..], name);
      assert forall i :: 1 <= i < |data| ==> data[i] == data[1..][i - 1];
      r
  }

  /** Characters the text-context escaper replaces. */
  predicate IsSpecial(c: char)
  {
    c == '\0' || c == '"' || c == '&' || c == '\'' || c == '+' || c == '<' || c == '>'
  }

  predicate IsNeutral(s: string)
  {
    forall i :: 0 <= i < |s| ==> !IsSpecial(s[i])
  }

  function EscapeRune(c: char): (escaped: string)
  {
    match c
    case '\0' => "\U{FFFD}"
    case '"' => "&#34;"
    case '&' => "&amp;"
    case '\'' => "&#39;"
    case '+' => "&#43;"
    case '<' => "&lt;"
    case '>' => "&gt;"
    case _ => [c]
  }

  function Escape(s: string): (escaped: string)
  {
    if |s| == 0 then "" else EscapeRune(s[0]) + Escape(s[1..])
  }

  function EscapeAll(values: seq<string>): (r: seq<string>)
    ensures |r| == |values|
    ensures forall i :: 0 <= i < |values| ==> r[i] == Escape(values[i])
  {
    seq(|values|, i requires 0 <= i < |values| => Escape(values[i]))
  }

  lemma {:induction false} EscapeNeverShrinks(s: string)
    ensures |Escape(s)| >= |s|
    decreases |s|
  {
    if |s| > 0 {
      EscapeNeverShrinks(s[1..]);
    }
  }

  /** An escaped character takes at least as many UTF-8 bytes as the
      character itself. */
  lemma EscapeRuneBytes(c: char)
    ensures Utf8.Length(EscapeRune(c)) >= Utf8.RuneLength(c)
  {
    Utf8.LengthBounds(EscapeRune(c));
    if !IsSpecial(c) {
      assert EscapeRune(c) == [c];
      assert [c][1..] == [];
    }
  }

  /** Escaping never shortens a string's UTF-8 encoding. */
  lemma {:induction false} EscapeBytes(s: string)
    ensures Utf8.Length(Escape(s)) >= Utf8.Length(s)
    decreases |s|
  {
    if |s| > 0 {
      EscapeBytes(s[1..]);
      EscapeRuneBytes(s[0]);
      Utf8.LengthAppend(EscapeRune(s[0]), Escape(s[1..]));
    }
  }

  /** Escaping leaves a string unchanged exactly when it has none of the
      special characters. */
  lemma {:induction false} EscapeIdentity(s: string)
    ensures Escape(s) == s <==> IsNeutral(s)
    decreases |s|
  {
    if |s| > 0 {
      EscapeIdentity(s[1..]);
      EscapeNeverShrinks(s[1..]);
      assert IsNeutral(s) <==> !IsSpecial(s[0]) && IsNeutral(s[1..]) by {
        assert forall i :: 1 <= i < |s| ==> s[i] == s[1..][i - 1];
      }
      if !IsSpecial(s[0]) {
        assert Escape(s) == [s[0]] + Escape(s[1..]);
        if Escape(s[1..]) == s[1..] {
          assert [s[0]] + s[1..] == s;
        } else {
          assert Escape(s)[1..] == Escape(s[1..]);
        }
      } else if s[0] == '\0' {
        assert Escape(s)[0] == '\U{FFFD}';
      } else {
        assert |EscapeRune(s[0])| >= 4;
      }
    }
  }

  /** Escaping neither adds nor removes line breaks. */
  lemma RuneNewline(c: char)
    ensures '\n' in EscapeRune(c) <==> c == '\n'
  {
    if !IsSpecial(c) {
      assert EscapeRune(c) == [c];
    }
  }

  lemma {:induction false} EscapeKeepsNewlines(s: string)
    ensures '\n' in Escape(s) <==> '\n' in s
    decreases |s|
  {
    if |s| > 0 {
      EscapeKeepsNewlines(s[1..]);
      assert s == [s[0]] + s[1..];
      assert '\n' in s <==> s[0] == '\n' || '\n' in s[1..];
      RuneNewline(s[0]);
      var e := Escape(s);
      assert e == EscapeRune(s[0]) + Escape(s[1..]);
      assert '\n' in e <==> '\n' in EscapeRune(s[0]) || '\n' in Escape(s[1..]);
    }
  }

  /** Executes a template whose actions are separated by "\n" literals. */
  function Execute(actions: seq<string>, data: seq<Field>): (r: Result<string, ExecError>)
    ensures r.Success? <==> forall i :: 0 <= i < |actions| ==> Resolve(data, actions[i]).Success?
    ensures r.Failure? ==>
              exists i :: 0 <= i < |actions| && Resolve(data, actions[i]) == Failure(r.error)
                          && forall j :: 0 <= j < i ==> Resolve(data, actions[j]).Success?
    decreases |actions|
  {
    if |actions| == 0 then Success("")
    else
      match Resolve(data, actions[0])
      case Failure(e) => Failure(e)
      case Success(v) =>
        if |actions| == 1 then Success(Escape(v))
        else
          assert forall i :: 1 <= i < |actions| ==> actions[i] == actions[1..][i - 1];
          match Execute(actions[1..], data)
          case Failure(e) =>
            assert exists i :: 1 <= i < |actions| && Resolve(data, actions[i]) == Failure(e)
                               && forall j :: 1 <= j < i ==> Resolve(data, actions[j]).Success?;
            Failure(e)
          case Success(rest) => Success(Escape(v) + "\n" + rest)
  }

  /** When every action resolves, the output is the escaped values joined
      by newlines, in action order. */
  lemma {:induction false} ExecuteJoins(actions: seq<string>, data: seq<Field>, values: seq<string>)
    requires |actions| == |values| >= 1
    requires forall i :: 0 <= i < |actions| ==> Resolve(data, actions[i]) == Success(values[i])
    ensures Execute(actions, data) == Success(Lines.Join(EscapeAll(values)))
    decreases |actions|
  {
    if |actions| > 1 {
      assert forall i :: 1 <= i < |actions| ==> actions[i] == actions[1..][i - 1] && values[i] == values[1..][i - 1];
      ExecuteJoins(actions[1..], data, values[1..]);
      assert EscapeAll(values)[1..] == EscapeAll(values[1..]);
    }
  }
}
