// `src/parser.rs`: a character parser with backtracking combinators. A parse function
// maps a parser state to its result and the state it leaves behind; the combinators
// compose such functions exactly as the methods on `&mut Parser` do.

module Parsing {
  import opened Wrappers
  import opened Bytes

  datatype ParseError = NonAsciiProgram | UnexpectedEnd | FilterFailed | NotFound(what: string)

  /** The characters of the script and the index of the next one to read. */
  datatype Parser = Parser(characters: string, pointer: nat)

  /** What a parse function returns, together with the state it leaves. */
  datatype Step<+A> = Step(result: Result<A, ParseError>, state: Parser)

  /** The pointer never passes the end of the characters. */
  predicate Valid(p: Parser)
  {
    p.pointer <= |p.characters|
  }

  predicate IsAscii(s: string)
  {
    forall i :: 0 <= i < |s| ==> s[i] as int < 128
  }

  predicate IsAsciiDigit(c: char)
  {
    '0' <= c <= '9'
  }

  /** `char::is_whitespace` on ASCII: space and the controls from tab to carriage return. */
  predicate IsWhitespace(c: char)
  {
    c == ' ' || '\t' <= c <= '\r'
  }

  /** `Parser::new`: an ASCII script, read from its first character. */
  function New(script: string): (r: Result<Parser, ParseError>)
    ensures r.Err? <==> exists i :: 0 <= i < |script| && script[i] as int >= 128
    ensures r.Err? ==> r.error == NonAsciiProgram
    ensures r.Ok? ==> Valid(r.value) && r.value.pointer == 0 && r.value.characters == script
  {
    if !IsAscii(script) then Err(NonAsciiProgram) else Ok(Parser(script, 0))
  }

  /** `char`: the next character, or `UnexpectedEnd` without moving. */
  function Char(p: Parser): (r: Step<char>)
    ensures r.result.Ok? <==> p.pointer < |p.characters|
    ensures r.result.Ok? ==> r.result.value == p.characters[p.pointer] && r.state == p.(pointer := p.pointer + 1)
    ensures r.result.Err? ==> r.result.error == UnexpectedEnd && r.state == p
  {
    if p.pointer < |p.characters| then Step(Ok(p.characters[p.pointer]), p.(pointer := p.pointer + 1))
    else Step(Err(UnexpectedEnd), p)
  }

  /** `optional`: a failed parse is undone by restoring the pointer. */
  function Optional<A>(f: Parser -> Step<A>, p: Parser): (r: (Option<A>, Parser))
    ensures r.0.None? <==> f(p).result.Err?
    ensures r.0.None? ==> r.1 == p
    ensures r.0.Some? ==> r.0.value == f(p).result.value && r.1 == f(p).state
  {
    var s := f(p);
    if s.result.Ok? then (Some(s.result.value), s.state) else (None, p)
  }

  /** A successful parse stays on the same characters and consumes at least one. */
  ghost predicate Advancing<A>(f: Parser -> Step<A>)
  {
    forall p :: Valid(p) && f(p).result.Ok? ==>
      f(p).state.characters == p.characters && p.pointer < f(p).state.pointer <= |p.characters|
  }

  /** Running `f` from `p` succeeds once for each element of `xs`, producing them in
      order, and ends in `q`. */
  predicate Chain<A(==)>(f: Parser -> Step<A>, p: Parser, xs: seq<A>, q: Parser)
    decreases |xs|
  {
    if xs == [] then q == p
    else f(p).result == Ok(xs[0]) && Chain(f, f(p).state, xs[1..], q)
  }

  /** `repeat`: never fails; collects successive successes until the first failure,
      which is undone. */
  function Repeat<A(==)>(f: Parser -> Step<A>, p: Parser): (r: (seq<A>, Parser))
    requires Valid(p) && Advancing(f)
    ensures Chain(f, p, r.0, r.1) && f(r.1).result.Err?
    ensures Valid(r.1) && r.1.characters == p.characters && r.1.pointer >= p.pointer
    decreases |p.characters| - p.pointer
  {
    var (x, q) := Optional(f, p);
    if x.None? then ([], p)
    else
      var (rest, last) := Repeat(f, q);
      ([x.value] + rest, last)
  }

  /** `one_or_more`: fails as the first parse fails; otherwise at least one element,
      followed by what `repeat` collects. */
  function OneOrMore<A(==)>(f: Parser -> Step<A>, p: Parser): (r: Step<seq<A>>)
    requires Valid(p) && Advancing(f)
    ensures r.result.Ok? <==> f(p).result.Ok?
    ensures r.result.Err? ==> r.result.error == f(p).result.error && r.state == f(p).state
    ensures r.result.Ok? ==> |r.result.value| >= 1 && r.result.value[0] == f(p).result.value
    ensures r.result.Ok? ==> Chain(f, p, r.result.value, r.state) && f(r.state).result.Err?
    ensures r.result.Ok? ==> Valid(r.state) && r.state.characters == p.characters
  {
    var first := f(p);
    if first.result.Err? then Step(Err(first.result.error), first.state)
    else
      var (rest, last) := Repeat(f, first.state);
      assert [first.result.value] + rest == [first.result.value] + rest;
      Step(Ok([first.result.value] + rest), last)
  }

  /** `filter`: the parse must succeed and its result satisfy `keep`; a rejected result
      fails with `FilterFailed` and the pointer stays where the parse left it. */
  function Filter<A>(f: Parser -> Step<A>, keep: A -> bool, p: Parser): (r: Step<A>)
    ensures r.result.Ok? <==> f(p).result.Ok? && keep(f(p).result.value)
    ensures r.result.Ok? ==> r.result.value == f(p).result.value
    ensures f(p).result.Err? ==> r.result.error == f(p).result.error
    ensures f(p).result.Ok? && !keep(f(p).result.value) ==> r.result.error == FilterFailed
    ensures r.state == f(p).state
  {
    var s := f(p);
    if s.result.Err? then s
    else if keep(s.result.value) then s
    else Step(Err(FilterFailed), s.state)
  }

  /** `digit`: an ASCII digit and its value. */
  function Digit(p: Parser): (r: Step<U8>)
    ensures r.result.Ok? <==> p.pointer < |p.characters| && IsAsciiDigit(p.characters[p.pointer])
    ensures r.result.Ok? ==> r.result.value < 10
    ensures r.result.Ok? ==> r.result.value == DigitValue(p.characters[p.pointer])
    ensures r.result.Ok? ==> r.state == p.(pointer := p.pointer + 1)
  {
    var s := Filter(Char, IsAsciiDigit, p);
    if s.result.Err? then Step(Err(s.result.error), s.state)
    else Step(Ok(s.result.value as int - '0' as int), s.state)
  }

  /** The characters of `lit` one by one, each through `filter` on `char`. */
  function LiteralChars(lit: string, p: Parser): (r: Step<string>)
    requires Valid(p)
    ensures r.result.Ok? <==> p.pointer + |lit| <= |p.characters| && p.characters[p.pointer..p.pointer + |lit|] == lit
    ensures r.result.Ok? ==> r.result.value == lit && r.state == p.(pointer := p.pointer + |lit|)
    decreases |lit|
  {
    if lit == [] then Step(Ok(lit), p)
    else
      var s := Filter(Char, c => c == lit[0], p);
      if s.result.Err? then Step(Err(s.result.error), s.state)
      else
        var r := LiteralChars(lit[1..], s.state);
        assert r.result.Ok? ==> p.characters[p.pointer..p.pointer + |lit|] == [lit[0]] + lit[1..];
        if r.result.Ok? then Step(Ok(lit), r.state) else r
  }

  /** `literal`: the next `|lit|` characters are exactly `lit`. */
  function Literal(lit: string, p: Parser): (r: Step<string>)
    requires Valid(p)
    ensures r.result.Ok? <==>
      IsAscii(lit) && p.pointer + |lit| <= |p.characters| && p.characters[p.pointer..p.pointer + |lit|] == lit
    ensures r.result.Ok? ==> r.result.value == lit && r.state.pointer == p.pointer + |lit|
    ensures !IsAscii(lit) ==> r == Step(Err(NonAsciiProgram), p)
  {
    if !IsAscii(lit) then Step(Err(NonAsciiProgram), p) else LiteralChars(lit, p)
  }

  /** One whitespace character, as `whitespace` filters them. */
  function WhitespaceChar(p: Parser): (r: Step<char>)
    ensures r.result.Ok? <==> p.pointer < |p.characters| && IsWhitespace(p.characters[p.pointer])
    ensures r.result.Ok? ==> r.state == p.(pointer := p.pointer + 1)
  {
    Filter(Char, IsWhitespace, p)
  }

  lemma {:induction false} WhitespaceChain(p: Parser, xs: seq<char>, q: Parser)
    requires Valid(p) && Chain(WhitespaceChar, p, xs, q)
    ensures q.characters == p.characters && q.pointer == p.pointer + |xs| && Valid(q)
    ensures forall j :: p.pointer <= j < q.pointer ==> IsWhitespace(p.characters[j])
    decreases |xs|
  {
    if xs != [] {
      WhitespaceChain(WhitespaceChar(p).state, xs[1..], q);
    }
  }

  /** `whitespace`: one or more whitespace characters, as many as there are. */
  function Whitespace(p: Parser): (r: Step<()>)
    requires Valid(p)
    ensures r.result.Ok? <==> p.pointer < |p.characters| && IsWhitespace(p.characters[p.pointer])
    ensures r.result.Ok? ==> p.pointer < r.state.pointer <= |p.characters| && r.state.characters == p.characters
    ensures r.result.Ok? ==> forall j :: p.pointer <= j < r.state.pointer ==> IsWhitespace(p.characters[j])
    ensures r.result.Ok? ==> r.state.pointer == |p.characters| || !IsWhitespace(p.characters[r.state.pointer])
  {
    assert Advancing(WhitespaceChar);
    var s := OneOrMore(WhitespaceChar, p);
    if s.result.Err? then Step(Err(s.result.error), s.state)
    else
      WhitespaceChain(p, s.result.value, s.state);
      Step(Ok(()), s.state)
  }

  // ---------------------------------------------------------------------------
  // Numbers

  function DigitValue(c: char): (d: nat)
    requires IsAsciiDigit(c)
    ensures d < 10
  {
    c as int - '0' as int
  }

  /** The value of a string of decimal digits, most significant first. */
  function Decimal(s: string): nat
    requires forall i :: 0 <= i < |s| ==> IsAsciiDigit(s[i])
  {
    if s == [] then 0 else Decimal(s[..|s| - 1]) * 10 + DigitValue(s[|s| - 1])
  }

  /** How many digits `parse_u8` reads: the run of digits at the pointer, at most three. */
  function DigitRun(p: Parser): (n: nat)
    requires Valid(p)
    ensures n <= 3 && p.pointer + n <= |p.characters|
    ensures forall j :: p.pointer <= j < p.pointer + n ==> IsAsciiDigit(p.characters[j])
    ensures n < 3 ==> p.pointer + n == |p.characters| || !IsAsciiDigit(p.characters[p.pointer + n])
  {
    var c := p.characters;
    var i := p.pointer;
    if !(i < |c| && IsAsciiDigit(c[i])) then 0
    else if !(i + 1 < |c| && IsAsciiDigit(c[i + 1])) then 1
    else if !(i + 2 < |c| && IsAsciiDigit(c[i + 2])) then 2
    else 3
  }

  /** The digits `parse_u8` reads. */
  function Numeral(p: Parser): (s: string)
    requires Valid(p)
    ensures forall i :: 0 <= i < |s| ==> IsAsciiDigit(s[i])
  {
    p.characters[p.pointer..p.pointer + DigitRun(p)]
  }

  lemma NumeralStep(p: Parser, k: nat)
    requires Valid(p) && 1 <= k <= DigitRun(p)
    ensures Decimal(p.characters[p.pointer..p.pointer + k])
         == Decimal(p.characters[p.pointer..p.pointer + k - 1]) * 10 + DigitValue(p.characters[p.pointer + k - 1])
  {
    assert p.characters[p.pointer..p.pointer + k][..k - 1] == p.characters[p.pointer..p.pointer + k - 1];
  }

  /** The value of the digits read, spelled out by how many there are. */
  lemma NumeralValue(p: Parser)
    requires Valid(p)
    ensures var c, i := p.characters, p.pointer;
      && (DigitRun(p) >= 1 ==> Decimal(c[i..i + 1]) == DigitValue(c[i]))
      && (DigitRun(p) >= 2 ==> Decimal(c[i..i + 2]) == DigitValue(c[i]) * 10 + DigitValue(c[i + 1]))
      && (DigitRun(p) == 3 ==> Decimal(c[i..i + 3]) == (DigitValue(c[i]) * 10 + DigitValue(c[i + 1])) * 10 + DigitValue(c[i + 2]))
  {
    if DigitRun(p) >= 1 {
      NumeralStep(p, 1);
      assert p.characters[p.pointer..p.pointer] == [];
    }
    if DigitRun(p) >= 2 {
      NumeralStep(p, 2);
    }
    if DigitRun(p) == 3 {
      NumeralStep(p, 3);
    }
  }

  /** The digit loop of `parse_u8` without a bound on the accumulator: a first digit,
      then up to two more, each taken by `optional` and multiplied in. */
  function ParseNumber(p: Parser): (r: Step<nat>)
    requires Valid(p)
    ensures r.result.Ok? <==> DigitRun(p) >= 1
    ensures r.result.Ok? ==> r.result.value == Decimal(Numeral(p))
    ensures r.result.Ok? ==> r.state == p.(pointer := p.pointer + DigitRun(p))
  {
    var first := Digit(p);
    if first.result.Err? then Step(Err(first.result.error), first.state)
    else
      var (d2, p2) := Optional(Digit, first.state);
      var n2 := if d2.Some? then first.result.value * 10 + d2.value else first.result.value;
      var (d3, p3) := Optional(Digit, p2);
      var n3 := if d3.Some? then n2 * 10 + d3.value else n2;
      NumeralValue(p);
      Step(Ok(n3), p3)
  }

  /** `parse_u8` as written: the accumulator is a `u8`, so `number *= 10` or
      `number += digit` overflows, which panics, whenever the digits read exceed 255.
      `None` stands for that panic. */
  function ParseU8AsWritten(p: Parser): (r: Option<Step<U8>>)
    requires Valid(p)
    ensures r.None? <==> DigitRun(p) >= 1 && Decimal(Numeral(p)) > 255
    ensures r.Some? && r.value.result.Ok? ==> r.value.result.value == Decimal(Numeral(p))
    ensures r.Some? ==> (r.value.result.Ok? <==> DigitRun(p) >= 1)
  {
    var first := Digit(p);
    if first.result.Err? then Some(Step(Err(first.result.error), first.state))
    else
      var (d2, p2) := Optional(Digit, first.state);
      var m2 := if d2.Some? then first.result.value * 10 else first.result.value;
      var n2 := if d2.Some? then m2 + d2.value else m2;
      var (d3, p3) := Optional(Digit, p2);
      var m3 := if d3.Some? then n2 * 10 else n2;
      var n3 := if d3.Some? then m3 + d3.value else m3;
      assert ParseNumber(p).result == Ok(n3);
      if m2 > 255 || n2 > 255 || m3 > 255 || n3 > 255 then None
      else Some(Step(Ok(n3), p3))
  }

  /** `parse_u8` with the overflow ruled out: digits whose value exceeds 255 are
      rejected as by `filter`, instead of overflowing. */
  function ParseU8(p: Parser): (r: Step<U8>)
    requires Valid(p)
    ensures r.result.Ok? <==> DigitRun(p) >= 1 && Decimal(Numeral(p)) <= 255
    ensures r.result.Ok? ==> r.result.value == Decimal(Numeral(p))
    ensures r.result.Ok? ==> r.state == p.(pointer := p.pointer + DigitRun(p))
    ensures DigitRun(p) >= 1 && Decimal(Numeral(p)) > 255 ==> r.result.error == FilterFailed
  {
    var n := ParseNumber(p);
    if n.result.Err? then Step(Err(n.result.error), n.state)
    else if n.result.value > 255 then Step(Err(FilterFailed), n.state)
    else Step(Ok(n.result.value), n.state)
  }

  /** Wherever the source does not overflow, it agrees with `ParseU8`. */
  lemma AsWrittenAgrees(p: Parser)
    requires Valid(p) && ParseU8AsWritten(p).Some?
    ensures ParseU8AsWritten(p).value == ParseU8(p)
  {
  }

  /** The three digits of "256" are read, and the accumulator overflows on the last. */
  lemma ParseU8Overflows()
    ensures DigitRun(Parser("256", 0)) == 3 && Decimal(Numeral(Parser("256", 0))) == 256
    ensures ParseU8AsWritten(Parser("256", 0)).None?
    ensures ParseU8(Parser("256", 0)).result == Err(FilterFailed)
  {
    var p := Parser("256", 0);
    assert Numeral(p) == "256";
    NumeralValue(p);
  }
}
