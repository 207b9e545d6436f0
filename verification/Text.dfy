/** Strings as Python sees them: prefixes, splitting, joining, doubling a character, decimal numbers. */
module Text {
  predicate StartsWith(s: string, prefix: string) {
    |prefix| <= |s| && s[..|prefix|] == prefix
  }

  /** `s.lower()`, of letters without diacritics. */
  function ToLower(s: string): (r: string) {
    seq(|s|, i requires 0 <= i < |s| => ToLowerChar(s[i]))
  }

  function ToLowerChar(c: char): char {
    if 'A' <= c <= 'Z' then c - 'A' + 'a' else c
  }

  function Join(separator: string, parts: seq<string>): string {
    if parts == [] then ""
    else if |parts| == 1 then parts[0]
    else parts[0] + separator + Join(separator, parts[1..])
  }

  /** `s.replace(c, cc)`. */
  function Doubled(s: string, c: char): string {
    if s == "" then "" else (if s[0] == c then [c, c] else [s[0]]) + Doubled(s[1..], c)
  }

  lemma {:induction false} DoubledConcat(a: string, b: string, c: char)
    ensures Doubled(a + b, c) == Doubled(a, c) + Doubled(b, c)
    decreases |a|
  {
    if a == "" {
      assert a + b == b;
    } else {
      assert (a + b)[0] == a[0] && (a + b)[1..] == a[1..] + b;
      DoubledConcat(a[1..], b, c);
    }
  }

  // ---------------------------------------------------------------- lines

  /** `s.split("\n")`: always at least one piece. */
  function SplitLines(s: string): (lines: seq<string>)
    ensures |lines| >= 1
    ensures forall k :: 0 <= k < |lines| ==> '\n' !in lines[k]
  {
    if s == "" then [""]
    else
      var rest := SplitLines(s[1..]);
      if s[0] == '\n' then [""] + rest else [[s[0]] + rest[0]] + rest[1..]
  }

  lemma JoinCons(separator: string, first: string, parts: seq<string>)
    ensures Join(separator, [first] + parts)
         == if parts == [] then first else first + separator + Join(separator, parts)
  {
    assert ([first] + parts)[1..] == parts;
  }

  lemma Associative(a: string, b: string, c: string)
    ensures (a + b) + c == a + (b + c)
  {
  }

  /** Putting one character in front of the first of several lines puts it in front of the joined text. */
  lemma JoinFirstChar(c: char, lines: seq<string>)
    requires lines != []
    ensures Join("\n", [[c] + lines[0]] + lines[1..]) == [c] + Join("\n", lines)
  {
    var first, rest := lines[0], lines[1..];
    assert lines == [first] + rest;
    JoinCons("\n", [c] + first, rest);
    JoinCons("\n", first, rest);
    if rest != [] {
      Associative([c], first, "\n");
      Associative([c], first + "\n", Join("\n", rest));
    }
  }

  lemma {:induction false} JoinSplit(s: string)
    ensures Join("\n", SplitLines(s)) == s
    decreases |s|
  {
    if s != "" {
      JoinSplit(s[1..]);
      var rest := SplitLines(s[1..]);
      assert s == [s[0]] + s[1..];
      if s[0] == '\n' {
        JoinCons("\n", "", rest);
        assert "" + "\n" + Join("\n", rest) == ['\n'] + s[1..];
      } else {
        JoinFirstChar(s[0], rest);
      }
    }
  }

  lemma {:induction false} JoinConcat(separator: string, a: seq<string>, b: seq<string>)
    requires a != [] && b != []
    ensures Join(separator, a + b) == Join(separator, a) + separator + Join(separator, b)
    decreases |a|
  {
    assert a == [a[0]] + a[1..];
    assert a + b == [a[0]] + (a[1..] + b);
    JoinCons(separator, a[0], a[1..] + b);
    JoinCons(separator, a[0], a[1..]);
    if |a| > 1 {
      JoinConcat(separator, a[1..], b);
    } else {
      assert a[1..] + b == b;
    }
  }

  // ---------------------------------------------------------------- decimal numbers

  function Digit(d: nat): char
    requires d < 10
  {
    '0' + d as char
  }

  predicate IsDigit(c: char) {
    '0' <= c <= '9'
  }

  function DigitValue(c: char): nat
    requires IsDigit(c)
  {
    (c - '0') as nat
  }

  /** `str(n)`. */
  function Decimal(n: nat): (s: string)
    ensures |s| > 0 && forall k :: 0 <= k < |s| ==> IsDigit(s[k])
  {
    if n < 10 then [Digit(n)] else Decimal(n / 10) + [Digit(n % 10)]
  }

  /** `int(s)` for a run of digits. */
  function ParseDecimal(s: string): nat
    requires forall k :: 0 <= k < |s| ==> IsDigit(s[k])
  {
    if s == "" then 0 else 10 * ParseDecimal(s[..|s| - 1]) + DigitValue(s[|s| - 1])
  }

  lemma {:induction false} ParseOfDecimal(n: nat)
    ensures ParseDecimal(Decimal(n)) == n
    decreases n
  {
    if n >= 10 {
      ParseOfDecimal(n / 10);
      var s := Decimal(n);
      assert s[..|s| - 1] == Decimal(n / 10);
    }
  }
}
