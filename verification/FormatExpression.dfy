/**
Text with embedded expressions, compiled to the `format('...', a, b)` call the upstream runner
evaluates.  The compiler doubles braces and quotes; the runner reads the quoted text back, then
formats it from left to right.  This file models both and proves they meet.
*/
module FormatExpression {
  import opened Wrappers
  import opened Text

  /** One embedded expression: where `${{ ... }}` stands in the text, and the expression inside. */
  datatype Match = Match(start: nat, end: nat, expression: string)

  /** What a scan from left to right yields: inside the text, in order, not overlapping. */
  predicate Scanned(value: string, matches: seq<Match>, position: nat)
    decreases |matches|
  {
    if matches == [] then position <= |value|
    else
      && position <= matches[0].start <= matches[0].end <= |value|
      && Scanned(value, matches[1..], matches[0].end)
  }

  // ---------------------------------------------------------------- the compiler

  function EscapedBraces(literal: string): string {
    Doubled(Doubled(literal, '{'), '}')
  }

  /** The template from a position on, its placeholders numbered from `first`. */
  function Template(value: string, matches: seq<Match>, position: nat, first: nat): string
    requires Scanned(value, matches, position)
    decreases |matches|
  {
    if matches == [] then EscapedBraces(value[position..])
    else
      EscapedBraces(value[position..matches[0].start]) + "{" + Decimal(first) + "}"
      + Template(value, matches[1..], matches[0].end, first + 1)
  }

  function Expressions(matches: seq<Match>): seq<string> {
    seq(|matches|, i requires 0 <= i < |matches| => matches[i].expression)
  }

  function CallText(template: string, arguments: seq<string>): string {
    "format('" + Doubled(template, '\'') + "', " + Join(", ", arguments) + ")"
  }

  method Compile(value: string, matches: seq<Match>) returns (call: Option<string>)
    requires Scanned(value, matches, 0)
    ensures call.None? <==> matches == []
    ensures call.Some? ==> call.value == CallText(Template(value, matches, 0, 0), Expressions(matches))
  {
    var pieces := "";
    var arguments: seq<string> := [];
    var position: nat := 0;
    ghost var whole := Template(value, matches, 0, 0);
    assert matches[0..] == matches && "" + whole == whole;
    for i := 0 to |matches|
      invariant Scanned(value, matches[i..], position)
      invariant |arguments| == i && forall k :: 0 <= k < i ==> arguments[k] == matches[k].expression
      invariant pieces + Template(value, matches[i..], position, i) == whole
    {
      var m := matches[i];
      assert matches[i..][0] == m && matches[i..][1..] == matches[i + 1..];
      NextHole(pieces, value, matches[i..], position, i);
      pieces := pieces + Doubled(Doubled(value[position..m.start], '{'), '}');
      pieces := pieces + ("{" + Decimal(|arguments|) + "}");
      arguments := arguments + [m.expression];
      position := m.end;
    }
    assert matches[|matches|..] == [];
    assert arguments == Expressions(matches);
    if |arguments| == 0 {
      return None;
    }
    pieces := pieces + Doubled(Doubled(value[position..], '{'), '}');
    return Some("format('" + Doubled(pieces, '\'') + "', " + Join(", ", arguments) + ")");
  }

  lemma NextHole(pieces: string, value: string, matches: seq<Match>, position: nat, first: nat)
    requires Scanned(value, matches, position) && matches != []
    ensures pieces + Template(value, matches, position, first)
         == pieces + EscapedBraces(value[position..matches[0].start]) + ("{" + Decimal(first) + "}")
            + Template(value, matches[1..], matches[0].end, first + 1)
  {
    var literal := EscapedBraces(value[position..matches[0].start]);
    var rest := Template(value, matches[1..], matches[0].end, first + 1);
    assert Template(value, matches, position, first) == literal + "{" + Decimal(first) + "}" + rest;
    HoleAssociates(pieces, literal, Decimal(first), rest);
  }

  lemma HoleAssociates(pieces: string, literal: string, number: string, rest: string)
    ensures pieces + (literal + "{" + number + "}" + rest) == pieces + literal + ("{" + number + "}") + rest
  {
    Associative(literal, "{", number);
    Associative(literal, "{" + number, "}");
    Associative(pieces, literal, "{" + number + "}");
    Associative(pieces, literal + ("{" + number + "}"), rest);
  }

  // ---------------------------------------------------------------- the runner

  /** Read a quoted string after its opening quote: its contents, and what follows the closing quote. */
  function ReadQuoted(s: string): Option<(string, string)>
    decreases |s|
  {
    if s == "" then None
    else if s[0] != '\'' then
      var r := ReadQuoted(s[1..]);
      if r.Some? then Some(([s[0]] + r.value.0, r.value.1)) else None
    else if |s| > 1 && s[1] == '\'' then
      var r := ReadQuoted(s[2..]);
      if r.Some? then Some((['\''] + r.value.0, r.value.1)) else None
    else Some(("", s[1..]))
  }

  datatype Call = Call(template: string, arguments: string)

  /** Read a format call: its template, and the source text of its arguments. */
  function ReadCall(s: string): Option<Call> {
    if !StartsWith(s, "format('") then None
    else
      var quoted := ReadQuoted(s[8..]);
      if quoted.None? then None
      else
        var rest := quoted.value.1;
        if StartsWith(rest, ", ") && |rest| > 2 && rest[|rest| - 1] == ')'
        then Some(Call(quoted.value.0, rest[2..|rest| - 1])) else None
  }

  function DigitRun(s: string): (n: nat)
    ensures n <= |s| && forall k :: 0 <= k < n ==> IsDigit(s[k])
  {
    if s == "" || !IsDigit(s[0]) then 0 else 1 + DigitRun(s[1..])
  }

  /** Evaluate a template: doubled braces are braces, `{N}` is argument N, a lone brace is an error. */
  function Evaluate(template: string, values: seq<string>): Option<string>
    decreases |template|
  {
    if template == "" then Some("")
    else if template[0] == '{' then
      if |template| > 1 && template[1] == '{' then Prepend("{", Evaluate(template[2..], values))
      else
        var n := DigitRun(template[1..]);
        if n == 0 || n + 1 >= |template| || template[n + 1] != '}' then None
        else
          var index := ParseDecimal(template[1..n + 1]);
          if index >= |values| then None
          else Prepend(values[index], Evaluate(template[n + 2..], values))
    else if template[0] == '}' then
      if |template| > 1 && template[1] == '}' then Prepend("}", Evaluate(template[2..], values)) else None
    else Prepend([template[0]], Evaluate(template[1..], values))
  }

  function Prepend(s: string, r: Option<string>): Option<string> {
    if r.Some? then Some(s + r.value) else None
  }

  lemma PrependTwice(a: string, b: string, r: Option<string>)
    ensures Prepend(a, Prepend(b, r)) == Prepend(a + b, r)
  {
    if r.Some? { assert a + (b + r.value) == (a + b) + r.value; }
  }

  /** The meaning of the text: its literals, with each expression replaced by its value. */
  function Substituted(value: string, matches: seq<Match>, position: nat, values: seq<string>): string
    requires Scanned(value, matches, position) && |values| == |matches|
    decreases |matches|
  {
    if matches == [] then value[position..]
    else
      value[position..matches[0].start] + values[0]
      + Substituted(value, matches[1..], matches[0].end, values[1..])
  }

  // ---------------------------------------------------------------- they meet

  lemma {:induction false} QuotedReadsBack(text: string, rest: string)
    requires rest == "" || rest[0] != '\''
    ensures ReadQuoted(Doubled(text, '\'') + "'" + rest) == Some((text, rest))
    decreases |text|
  {
    var s := Doubled(text, '\'') + "'" + rest;
    if text == "" {
      assert s == "'" + rest;
      assert s[1..] == rest;
    } else {
      var tail := Doubled(text[1..], '\'') + "'" + rest;
      QuotedReadsBack(text[1..], rest);
      assert text == [text[0]] + text[1..];
      if text[0] == '\'' {
        assert s == "''" + tail;
        assert s[2..] == tail;
      } else {
        assert s == [text[0]] + tail;
        assert s[1..] == tail;
      }
    }
  }

  /** The runner reads back the template and the arguments' source exactly, whatever quotes the text holds. */
  lemma CallReadsBack(template: string, arguments: seq<string>)
    requires arguments != []
    ensures ReadCall(CallText(template, arguments)) == Some(Call(template, Join(", ", arguments)))
  {
    var s := CallText(template, arguments);
    var rest := ", " + Join(", ", arguments) + ")";
    assert s == "format('" + (Doubled(template, '\'') + "'" + rest);
    assert s[8..] == Doubled(template, '\'') + "'" + rest;
    QuotedReadsBack(template, rest);
    assert rest[2..|rest| - 1] == Join(", ", arguments);
  }

  lemma {:induction false} EscapedLiteralEvaluates(literal: string, rest: string, values: seq<string>)
    ensures Evaluate(EscapedBraces(literal) + rest, values) == Prepend(literal, Evaluate(rest, values))
    decreases |literal|
  {
    if literal == "" {
      assert EscapedBraces(literal) + rest == rest;
      if Evaluate(rest, values).Some? { assert "" + Evaluate(rest, values).value == Evaluate(rest, values).value; }
    } else {
      var c, tail := literal[0], literal[1..];
      EscapedLiteralEvaluates(tail, rest, values);
      EscapedHead(literal);
      var follows := EscapedBraces(tail) + rest;
      var t := EscapedBraces(literal) + rest;
      assert literal == [c] + tail;
      PrependTwice([c], tail, Evaluate(rest, values));
      if c == '{' || c == '}' {
        assert t == [c, c] + follows;
        assert t[2..] == follows;
      } else {
        assert t == [c] + follows;
        assert t[1..] == follows;
      }
    }
  }

  lemma EscapedHead(literal: string)
    requires literal != ""
    ensures EscapedBraces(literal)
         == (if literal[0] == '{' then "{{" else if literal[0] == '}' then "}}" else [literal[0]])
           + EscapedBraces(literal[1..])
  {
    var head := if literal[0] == '{' then "{{" else [literal[0]];
    assert Doubled(literal, '{') == head + Doubled(literal[1..], '{');
    DoubledConcat(head, Doubled(literal[1..], '{'), '}');
    if literal[0] == '{' {
      assert Doubled("{{", '}') == ['{'] + Doubled("{{"[1..], '}');
      assert "{{"[1..] == "{";
      assert Doubled("{", '}') == "{" + Doubled("{"[1..], '}');
    } else {
      assert [literal[0]][1..] == "";
    }
  }

  lemma {:induction false} DigitRunStopsAtBrace(digits: string, rest: string)
    requires forall k :: 0 <= k < |digits| ==> IsDigit(digits[k])
    ensures DigitRun(digits + "}" + rest) == |digits|
    decreases |digits|
  {
    var s := digits + "}" + rest;
    if digits != "" {
      assert s[1..] == digits[1..] + "}" + rest;
      DigitRunStopsAtBrace(digits[1..], rest);
    }
  }

  lemma PlaceholderEvaluates(index: nat, rest: string, values: seq<string>)
    requires index < |values|
    ensures Evaluate("{" + Decimal(index) + "}" + rest, values) == Prepend(values[index], Evaluate(rest, values))
  {
    var digits := Decimal(index);
    var t := "{" + digits + "}" + rest;
    assert t[1..] == digits + "}" + rest;
    DigitRunStopsAtBrace(digits, rest);
    assert t[1] == digits[0];
    assert t[1..|digits| + 1] == digits && t[|digits| + 1] == '}' && t[|digits| + 2..] == rest;
    ParseOfDecimal(index);
  }

  lemma {:induction false} TemplateEvaluates(value: string, matches: seq<Match>, position: nat, values: seq<string>,
                                             first: nat)
    requires Scanned(value, matches, position) && first + |matches| == |values|
    ensures Evaluate(Template(value, matches, position, first), values)
         == Some(Substituted(value, matches, position, values[first..]))
    decreases |matches|
  {
    if matches == [] {
      var literal := value[position..];
      EscapedLiteralEvaluates(literal, "", values);
      assert EscapedBraces(literal) + "" == EscapedBraces(literal);
      assert literal + "" == literal;
    } else {
      var literal := value[position..matches[0].start];
      var rest := Template(value, matches[1..], matches[0].end, first + 1);
      var hole := "{" + Decimal(first) + "}" + rest;
      assert Template(value, matches, position, first) == EscapedBraces(literal) + hole;
      EscapedLiteralEvaluates(literal, hole, values);
      PlaceholderEvaluates(first, rest, values);
      TemplateEvaluates(value, matches[1..], matches[0].end, values, first + 1);
      assert values[first..][1..] == values[first + 1..];
      PrependTwice(literal, values[first], Evaluate(rest, values));
    }
  }

  // ---------------------------------------------------------------- the arguments

  function OnFirst(c: char, pieces: Option<seq<string>>): Option<seq<string>> {
    if pieces.None? || pieces.value == [] then None
    else Some([[c] + pieces.value[0]] + pieces.value[1..])
  }

  /**
  Cut argument text at its commas, but not inside quotes or parentheses.  None stands for the error of
  a parenthesis that closes nothing, or of text that ends inside quotes or parentheses.
  */
  function Cut(s: string, depth: nat, quoted: bool): (pieces: Option<seq<string>>)
    ensures pieces.Some? ==> pieces.value != []
    decreases |s|
  {
    if s == "" then if depth == 0 && !quoted then Some([""]) else None
    else if quoted then OnFirst(s[0], Cut(s[1..], depth, s[0] != '\''))
    else if s[0] == '\'' then OnFirst(s[0], Cut(s[1..], depth, true))
    else if s[0] == '(' then OnFirst(s[0], Cut(s[1..], depth + 1, false))
    else if s[0] == ')' then if depth == 0 then None else OnFirst(s[0], Cut(s[1..], depth - 1, false))
    else if s[0] == ',' && depth == 0 then
      var rest := Cut(s[1..], 0, false);
      if rest.None? then None else Some([""] + rest.value)
    else OnFirst(s[0], Cut(s[1..], depth, false))
  }

  function DropSpace(piece: string): string {
    if piece != "" && piece[0] == ' ' then piece[1..] else piece
  }

  /** The space after each comma is dropped. */
  function Trimmed(pieces: seq<string>): (r: seq<string>)
    ensures |r| == |pieces|
  {
    seq(|pieces|, i requires 0 <= i < |pieces| => if i == 0 then pieces[0] else DropSpace(pieces[i]))
  }

  /** The arguments of a call: the pieces of its text. */
  function SplitArguments(s: string): Option<seq<string>> {
    var pieces := Cut(s, 0, false);
    if pieces.None? then None else Some(Trimmed(pieces.value))
  }

  /** An expression that stands as one argument: quotes and parentheses close, and no comma is outside them. */
  predicate OneArgument(s: string, depth: nat, quoted: bool)
    decreases |s|
  {
    if s == "" then depth == 0 && !quoted
    else if quoted then OneArgument(s[1..], depth, s[0] != '\'')
    else if s[0] == '\'' then OneArgument(s[1..], depth, true)
    else if s[0] == '(' then OneArgument(s[1..], depth + 1, false)
    else if s[0] == ')' then depth > 0 && OneArgument(s[1..], depth - 1, false)
    else (s[0] == ',' ==> depth > 0) && OneArgument(s[1..], depth, false)
  }

  predicate Standing(expression: string) {
    OneArgument(expression, 0, false)
  }

  /** Every argument stands as one. */
  predicate AllStand(arguments: seq<string>) {
    forall i :: 0 <= i < |arguments| ==> Standing(arguments[i])
  }

  /** Whatever the text, each piece of a cut stands as one argument, the first from where the cut began. */
  lemma {:induction false} PiecesStand(s: string, depth: nat, quoted: bool)
    requires Cut(s, depth, quoted).Some?
    ensures var pieces := Cut(s, depth, quoted).value;
            OneArgument(pieces[0], depth, quoted) && forall i :: 1 <= i < |pieces| ==> Standing(pieces[i])
    decreases |s|
  {
    if s != "" {
      var pieces := Cut(s, depth, quoted).value;
      if !quoted && s[0] == ',' && depth == 0 {
        PiecesStand(s[1..], 0, false);
      } else {
        var next := if !quoted && s[0] == '(' then depth + 1 else if !quoted && s[0] == ')' then depth - 1 else depth;
        var inside := if quoted then s[0] != '\'' else s[0] == '\'';
        PiecesStand(s[1..], next, inside);
        var rest := Cut(s[1..], next, inside).value;
        assert pieces == [[s[0]] + rest[0]] + rest[1..];
        assert pieces[0][1..] == rest[0];
      }
    }
  }

  lemma OnFirstOnly(c: char, only: string)
    ensures OnFirst(c, Some([only])) == Some([[c] + only])
  {
    assert [only][1..] == [];
    assert [[c] + only] + [] == [[c] + only];
  }

  /** An argument that stands is not cut; a comma after it is. */
  lemma {:induction false} StandingIsOnePiece(s: string, depth: nat, quoted: bool, rest: string)
    requires OneArgument(s, depth, quoted)
    ensures Cut(s, depth, quoted) == Some([s])
    ensures Cut(s + ("," + rest), depth, quoted)
         == if Cut(rest, 0, false).None? then None else Some([s] + Cut(rest, 0, false).value)
    decreases |s|
  {
    var tail := "," + rest;
    if s == "" {
      assert s + tail == tail && tail[1..] == rest;
    } else {
      assert (s + tail)[1..] == s[1..] + tail;
      var next := if !quoted && s[0] == '(' then depth + 1 else if !quoted && s[0] == ')' then depth - 1 else depth;
      var inside := if quoted then s[0] != '\'' else s[0] == '\'';
      StandingIsOnePiece(s[1..], next, inside, rest);
      assert [s[0]] + s[1..] == s;
      OnFirstOnly(s[0], s[1..]);
      if Cut(rest, 0, false).Some? {
        assert ([s[1..]] + Cut(rest, 0, false).value)[1..] == Cut(rest, 0, false).value;
      }
    }
  }

  /** The pieces after the first, each with the space that followed its comma. */
  function Spaced(arguments: seq<string>): (r: seq<string>)
    ensures |r| == |arguments|
  {
    seq(|arguments|, i requires 0 <= i < |arguments| => " " + arguments[i])
  }

  lemma SpaceStands(expression: string)
    ensures Standing(" " + expression) <==> Standing(expression)
  {
    assert (" " + expression)[1..] == expression;
  }

  lemma SpaceJoined(others: seq<string>)
    requires others != []
    ensures " " + Join(", ", others) == Join(", ", [" " + others[0]] + others[1..])
  {
    var first, rest := others[0], others[1..];
    assert others == [first] + rest;
    JoinCons(", ", first, rest);
    JoinCons(", ", " " + first, rest);
    if rest != [] {
      Associative(" ", first, ", ");
      Associative(" ", first + ", ", Join(", ", rest));
    }
  }

  lemma JoinedStep(first: string, others: seq<string>)
    requires others != []
    ensures Join(", ", [first] + others) == first + ("," + Join(", ", [" " + others[0]] + others[1..]))
  {
    var text := Join(", ", others);
    JoinCons(", ", first, others);
    Associative(first, ", ", text);
    assert ", " == "," + " ";
    Associative(",", " ", text);
    SpaceJoined(others);
  }

  lemma {:induction false} JoinedIsCut(first: string, others: seq<string>)
    requires Standing(first) && AllStand(others)
    ensures Cut(Join(", ", [first] + others), 0, false) == Some([first] + Spaced(others))
    decreases |others|
  {
    if others == [] {
      StandingIsOnePiece(first, 0, false, "");
      assert [first] + others == [first] == [first] + Spaced(others);
    } else {
      var next, rest := " " + others[0], others[1..];
      SpaceStands(others[0]);
      JoinedStep(first, others);
      JoinedIsCut(next, rest);
      StandingIsOnePiece(first, 0, false, Join(", ", [next] + rest));
      assert [next] + Spaced(rest) == Spaced(others);
    }
  }

  lemma SpacedIsTrimmed(first: string, rest: seq<string>)
    ensures Trimmed([first] + Spaced(rest)) == [first] + rest
  {
    forall i | 0 <= i < |rest| ensures DropSpace(Spaced(rest)[i]) == rest[i] {
      assert (" " + rest[i])[1..] == rest[i];
    }
  }

  lemma AllStandFirst(arguments: seq<string>)
    requires arguments != [] && AllStand(arguments)
    ensures Standing(arguments[0]) && AllStand(arguments[1..])
  {
    var rest := arguments[1..];
    forall i | 0 <= i < |rest| ensures Standing(rest[i]) {
      var k := i + 1;
      assert Standing(arguments[k]);
    }
  }

  lemma StandingReadBack(first: string, rest: seq<string>)
    requires Standing(first) && AllStand(rest)
    ensures SplitArguments(Join(", ", [first] + rest)) == Some([first] + rest)
  {
    JoinedIsCut(first, rest);
    SpacedIsTrimmed(first, rest);
  }

  lemma ReadBackStands(text: string, arguments: seq<string>)
    requires SplitArguments(text) == Some(arguments)
    ensures AllStand(arguments)
  {
    PiecesStand(text, 0, false);
    var pieces := Cut(text, 0, false).value;
    forall i | 0 <= i < |arguments| ensures Standing(arguments[i]) {
      if i > 0 && pieces[i] != "" && pieces[i][0] == ' ' {
        assert pieces[i] == " " + pieces[i][1..];
        SpaceStands(pieces[i][1..]);
      }
    }
  }

  /** The runner finds the expressions again in the argument text exactly when each stands as one argument. */
  lemma ArgumentsReadBackIff(arguments: seq<string>)
    requires arguments != []
    ensures SplitArguments(Join(", ", arguments)) == Some(arguments)
       <==> AllStand(arguments)
  {
    if AllStand(arguments) {
      AllStandFirst(arguments);
      StandingReadBack(arguments[0], arguments[1..]);
      assert arguments == [arguments[0]] + arguments[1..];
    }
    if SplitArguments(Join(", ", arguments)) == Some(arguments) {
      ReadBackStands(Join(", ", arguments), arguments);
    }
  }

  // ---------------------------------------------------------------- the whole call

  function Values(arguments: seq<string>, value: string -> string): (r: seq<string>)
    ensures |r| == |arguments|
  {
    seq(|arguments|, i requires 0 <= i < |arguments| => value(arguments[i]))
  }

  /** What the runner makes of a call: it reads it, splits its arguments, evaluates each, and formats. */
  function RunCall(s: string, value: string -> string): Option<string> {
    var call := ReadCall(s);
    if call.None? then None
    else
      var arguments := SplitArguments(call.value.arguments);
      if arguments.None? then None else Evaluate(call.value.template, Values(arguments.value, value))
  }

  predicate AllStanding(matches: seq<Match>) {
    forall i :: 0 <= i < |matches| ==> Standing(matches[i].expression)
  }

  lemma StandingExpressions(matches: seq<Match>)
    ensures AllStanding(matches) <==> AllStand(Expressions(matches))
  {
    forall i | 0 <= i < |matches| ensures Expressions(matches)[i] == matches[i].expression {
    }
  }

  /**
  Compiling preserves meaning.  For every text and whatever braces and quotes stand next to a
  placeholder, the runner reads one template back, and it finds the expressions exactly when each stands
  as one argument; the template on their values, and so the call, then gives the text with each
  expression replaced by its value.
  */
  lemma CompilingPreservesMeaning(text: string, matches: seq<Match>, value: string -> string)
    requires Scanned(text, matches, 0) && matches != []
    ensures var compiled := CallText(Template(text, matches, 0, 0), Expressions(matches));
            var meaning := Substituted(text, matches, 0, Values(Expressions(matches), value));
            var call := ReadCall(compiled);
            && call.Some?
            && (SplitArguments(call.value.arguments) == Some(Expressions(matches)) <==> AllStanding(matches))
            && Evaluate(call.value.template, Values(Expressions(matches), value)) == Some(meaning)
            && (AllStanding(matches) ==> RunCall(compiled, value) == Some(meaning))
  {
    var values := Values(Expressions(matches), value);
    CallReadsBack(Template(text, matches, 0, 0), Expressions(matches));
    ArgumentsReadBackIff(Expressions(matches));
    StandingExpressions(matches);
    TemplateEvaluates(text, matches, 0, values, 0);
    assert values[0..] == values;
  }
}
