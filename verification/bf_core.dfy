// The Brainfuck token/tree layer of the `bf_core` crate: the eight-symbol
// tokenizer, token emission from the tree form, the run-length-merging and
// bracket-matching tree parser, and the wrapping-cell tape interpreter
// (with fuel for loops and abstract input/output streams).

module BfCore {
  import opened Wrappers
  import opened Bytes

  // ---------------------------------------------------------------------------
  // Tokens

  datatype Token = Left | Right | Inc | Dec | Write | Read | BeginLoop | EndLoop

  /** The eight characters that are Brainfuck commands; every other character is a comment. */
  predicate IsCommand(c: char)
  {
    c == '<' || c == '>' || c == '+' || c == '-' || c == '.' || c == ',' || c == '[' || c == ']'
  }

  function FromChar(c: char): (r: Option<Token>)
    ensures r.Some? <==> IsCommand(c)
  {
    match c
    case '<' => Some(Left)
    case '>' => Some(Right)
    case '+' => Some(Inc)
    case '-' => Some(Dec)
    case '.' => Some(Token.Write)
    case ',' => Some(Token.Read)
    case '[' => Some(BeginLoop)
    case ']' => Some(EndLoop)
    case _ => None
  }

  /** Every token prints as a command character that reads back as the same token. */
  function ToChar(t: Token): (c: char)
    ensures IsCommand(c)
    ensures FromChar(c) == Some(t)
  {
    match t
    case Left => '<'
    case Right => '>'
    case Inc => '+'
    case Dec => '-'
    case Write => '.'
    case Read => ','
    case BeginLoop => '['
    case EndLoop => ']'
  }

  /** Distinct characters that both read as tokens read as distinct tokens. */
  lemma FromCharInjective(c: char, d: char)
    requires FromChar(c).Some? && FromChar(c) == FromChar(d)
    ensures c == d
  {
  }

  /** The command characters of `text`, in order. */
  function Commands(text: string): string
  {
    if text == [] then [] else (if IsCommand(text[0]) then [text[0]] else []) + Commands(text[1..])
  }

  function Stringify(tokens: seq<Token>): (s: string)
    ensures |s| == |tokens|
    ensures forall i :: 0 <= i < |s| ==> s[i] == ToChar(tokens[i])
  {
    seq(|tokens|, i requires 0 <= i < |tokens| => ToChar(tokens[i]))
  }

  /** `tokenize_bf`: keeps exactly the command characters of `text`, in order. */
  function Tokenize(text: string): (tokens: seq<Token>)
    ensures |tokens| <= |text|
    ensures Stringify(tokens) == Commands(text)
  {
    if text == [] then []
    else
      var rest := Tokenize(text[1..]);
      match FromChar(text[0])
      case Some(t) => [t] + rest
      case None => rest
  }

  /** Printing tokens and tokenizing the text gives the tokens back. */
  lemma {:induction false} TokenizeStringify(tokens: seq<Token>)
    ensures Tokenize(Stringify(tokens)) == tokens
  {
    if tokens != [] {
      var s := Stringify(tokens);
      assert s[1..] == Stringify(tokens[1..]);
      TokenizeStringify(tokens[1..]);
    }
  }

  /** Text without comment characters survives tokenizing and printing unchanged. */
  lemma StringifyTokenize(text: string)
    requires forall i :: 0 <= i < |text| ==> IsCommand(text[i])
    ensures Stringify(Tokenize(text)) == text
  {
    CommandsOfCommands(text);
  }

  lemma {:induction false} CommandsOfCommands(text: string)
    requires forall i :: 0 <= i < |text| ==> IsCommand(text[i])
    ensures Commands(text) == text
  {
    if text != [] {
      CommandsOfCommands(text[1..]);
    }
  }

  // ---------------------------------------------------------------------------
  // Bracket balance

  function Delta(t: Token): int
  {
    if t == BeginLoop then 1 else if t == EndLoop then -1 else 0
  }

  /** Number of `[` minus number of `]`. */
  function Depth(tokens: seq<Token>): int
  {
    if tokens == [] then 0 else Delta(tokens[0]) + Depth(tokens[1..])
  }

  /** Every prefix opens at least as many loops as it closes, and the whole closes all. */
  predicate Balanced(tokens: seq<Token>)
  {
    && Depth(tokens) == 0
    && forall k :: 0 <= k <= |tokens| ==> Depth(tokens[..k]) >= 0
  }

  lemma {:induction false} DepthConcat(a: seq<Token>, b: seq<Token>)
    ensures Depth(a + b) == Depth(a) + Depth(b)
  {
    if a != [] {
      assert (a + b)[1..] == a[1..] + b;
      DepthConcat(a[1..], b);
    } else {
      assert a + b == b;
    }
  }

  lemma BalancedConcat(a: seq<Token>, b: seq<Token>)
    requires Balanced(a) && Balanced(b)
    ensures Balanced(a + b)
  {
    DepthConcat(a, b);
    forall k | 0 <= k <= |a + b|
      ensures Depth((a + b)[..k]) >= 0
    {
      if k <= |a| {
        assert (a + b)[..k] == a[..k];
      } else {
        assert (a + b)[..k] == a + b[..k - |a|];
        DepthConcat(a, b[..k - |a|]);
      }
    }
  }

  lemma BalancedWrap(a: seq<Token>)
    requires Balanced(a)
    ensures Balanced([BeginLoop] + a + [EndLoop])
  {
    var w := [BeginLoop] + a + [EndLoop];
    DepthConcat([BeginLoop] + a, [EndLoop]);
    DepthConcat([BeginLoop], a);
    forall k | 0 <= k <= |w|
      ensures Depth(w[..k]) >= 0
    {
      if k == 0 {
        assert w[..k] == [];
      } else if k <= |a| + 1 {
        assert w[..k] == [BeginLoop] + a[..k - 1];
        DepthConcat([BeginLoop], a[..k - 1]);
      } else {
        assert w[..k] == w;
      }
    }
  }

  /** A token sequence without brackets is balanced. */
  lemma {:induction false} BalancedPlain(a: seq<Token>)
    requires forall i :: 0 <= i < |a| ==> a[i] != BeginLoop && a[i] != EndLoop
    ensures Balanced(a)
    ensures Depth(a) == 0
  {
    if a != [] {
      BalancedPlain(a[1..]);
      forall k | 0 <= k <= |a|
        ensures Depth(a[..k]) >= 0
      {
        if k > 0 {
          assert a[..k][1..] == a[1..][..k - 1];
        }
      }
    }
  }

  // ---------------------------------------------------------------------------
  // Trees and token emission

  datatype Tree = Move(offset: int) | Add(amount: U8) | Write | Read | Loop(body: seq<Tree>)

  function Repeat(t: Token, n: nat): (r: seq<Token>)
    ensures |r| == n
    ensures forall i :: 0 <= i < n ==> r[i] == t
  {
    seq(n, _ => t)
  }

  /** `to_tokens_impl` over a sequence of trees (`BFProgram::to_bf_tokens`). */
  function ToTokens(trees: seq<Tree>): seq<Token>
  {
    if trees == [] then []
    else
      var head :=
        match trees[0]
        case Move(n) => if n < 0 then Repeat(Left, -n) else Repeat(Right, n)
        case Add(a) => if a > 127 then Repeat(Dec, 255 - a + 1) else Repeat(Inc, a)
        case Write => [Token.Write]
        case Read => [Token.Read]
        case Loop(body) => [BeginLoop] + ToTokens(body) + [EndLoop];
      head + ToTokens(trees[1..])
  }

  /** `BFTree::to_tokens` for a single tree. */
  function TreeTokens(t: Tree): seq<Token>
  {
    ToTokens([t])
  }

  function Count(tokens: seq<Token>, t: Token): nat
  {
    if tokens == [] then 0 else (if tokens[0] == t then 1 else 0) + Count(tokens[1..], t)
  }

  lemma {:induction false} CountRepeat(t: Token, n: nat, u: Token)
    ensures Count(Repeat(t, n), u) == if t == u then n else 0
  {
    if n > 0 {
      assert Repeat(t, n)[1..] == Repeat(t, n - 1);
      CountRepeat(t, n - 1, u);
    }
  }

  /** A `Move(n)` prints as |n| moves in the direction of its sign; net displacement is n. */
  lemma MoveTokens(n: int)
    ensures TreeTokens(Move(n)) == if n < 0 then Repeat(Left, -n) else Repeat(Right, n)
    ensures Count(TreeTokens(Move(n)), Right) - Count(TreeTokens(Move(n)), Left) == n
  {
    var r := if n < 0 then Repeat(Left, -n) else Repeat(Right, n);
    assert [Move(n)][1..] == [];
    assert TreeTokens(Move(n)) == r + ToTokens([]);
    assert r + [] == r;
    CountRepeat(if n < 0 then Left else Right, Abs(n), Right);
    CountRepeat(if n < 0 then Left else Right, Abs(n), Left);
  }

  /** An `Add(a)` prints as `a` increments when a <= 127, else 256 - a decrements,
      so the net count of increments is `a` modulo 256. */
  lemma AddTokens(a: U8)
    ensures TreeTokens(Add(a)) == if a > 127 then Repeat(Dec, 256 - a) else Repeat(Inc, a)
    ensures |TreeTokens(Add(a))| <= 128
    ensures (Count(TreeTokens(Add(a)), Inc) - Count(TreeTokens(Add(a)), Dec)) % 256 == a
  {
    AddTokensShape(a);
    var net := Count(TreeTokens(Add(a)), Inc) - Count(TreeTokens(Add(a)), Dec);
    if a > 127 {
      CountRepeat(Dec, 256 - a, Inc);
      CountRepeat(Dec, 256 - a, Dec);
      assert net == a - 256;
    } else {
      CountRepeat(Inc, a, Inc);
      CountRepeat(Inc, a, Dec);
      assert net == a;
    }
    NetModulo(a, net);
  }

  lemma NetModulo(a: U8, net: int)
    requires net == if a > 127 then a - 256 else a
    ensures net % 256 == a
  {
  }

  lemma AddTokensShape(a: U8)
    ensures TreeTokens(Add(a)) == if a > 127 then Repeat(Dec, 256 - a) else Repeat(Inc, a)
  {
    var r := if a > 127 then Repeat(Dec, 256 - a) else Repeat(Inc, a);
    assert [Add(a)][1..] == [];
    assert TreeTokens(Add(a)) == r + ToTokens([]);
    assert r + [] == r;
  }

  /** A loop prints as `[`, its body, then `]`. */
  lemma LoopTokens(body: seq<Tree>)
    ensures TreeTokens(Loop(body)) == [BeginLoop] + ToTokens(body) + [EndLoop]
  {
    assert [Loop(body)][1..] == [];
    assert TreeTokens(Loop(body)) == [BeginLoop] + ToTokens(body) + [EndLoop] + ToTokens([]);
  }

  lemma {:induction false} ToTokensConcat(a: seq<Tree>, b: seq<Tree>)
    ensures ToTokens(a + b) == ToTokens(a) + ToTokens(b)
  {
    if a == [] {
      assert a + b == b;
    } else {
      assert (a + b)[0] == a[0];
      assert (a + b)[1..] == a[1..] + b;
      ToTokensConcat(a[1..], b);
    }
  }

  /** Token output of any tree program is bracket-balanced. */
  lemma {:induction false} ToTokensBalanced(trees: seq<Tree>)
    ensures Balanced(ToTokens(trees))
  {
    if trees == [] {
      assert Balanced([]) by { assert Depth([]) == 0; }
    } else {
      ToTokensBalanced(trees[1..]);
      match trees[0]
      case Loop(body) =>
        ToTokensBalanced(body);
        BalancedWrap(ToTokens(body));
        BalancedConcat([BeginLoop] + ToTokens(body) + [EndLoop], ToTokens(trees[1..]));
      case Move(n) =>
        var h := if n < 0 then Repeat(Left, -n) else Repeat(Right, n);
        BalancedPlain(h);
        BalancedConcat(h, ToTokens(trees[1..]));
      case Add(a) =>
        var h := if a > 127 then Repeat(Dec, 255 - a + 1) else Repeat(Inc, a);
        BalancedPlain(h);
        BalancedConcat(h, ToTokens(trees[1..]));
      case Write =>
        BalancedPlain([Token.Write]);
        BalancedConcat([Token.Write], ToTokens(trees[1..]));
      case Read =>
        BalancedPlain([Token.Read]);
        BalancedConcat([Token.Read], ToTokens(trees[1..]));
    }
  }

  // ---------------------------------------------------------------------------
  // Parsing

  datatype ParseError = UnmatchedBrackets

  /** `acc` with one more `<` (or `>`, with `step` = 1) merged into a trailing `Move`. */
  function PushMove(acc: seq<Tree>, step: int): seq<Tree>
  {
    if |acc| > 0 && acc[|acc| - 1].Move? then acc[..|acc| - 1] + [Move(acc[|acc| - 1].offset + step)]
    else acc + [Move(step)]
  }

  /** `acc` with one more `+` (`step` = 1) or `-` (`step` = -1) merged into a trailing `Add`. */
  function PushAdd(acc: seq<Tree>, step: int): seq<Tree>
  {
    if |acc| > 0 && acc[|acc| - 1].Add? then acc[..|acc| - 1] + [Add(WrapU8(acc[|acc| - 1].amount + step))]
    else acc + [Add(WrapU8(step))]
  }

  function Remaining(tokens: seq<Token>, index: nat): nat
  {
    if index <= |tokens| then |tokens| - index + 1 else 0
  }

  /** `parse_bf_tokens_impl`: parses trees from `index` until an unmatched `]` or the end,
      returning the trees and the final value of the shared index. */
  function ParseImpl(tokens: seq<Token>, index: nat, acc: seq<Tree>): (r: (seq<Tree>, nat))
    ensures r.1 >= index
    decreases Remaining(tokens, index)
  {
    if index >= |tokens| then (acc, index)
    else
      match tokens[index]
      case Left => ParseImpl(tokens, index + 1, PushMove(acc, -1))
      case Right => ParseImpl(tokens, index + 1, PushMove(acc, 1))
      case Inc => ParseImpl(tokens, index + 1, PushAdd(acc, 1))
      case Dec => ParseImpl(tokens, index + 1, PushAdd(acc, -1))
      case Write => ParseImpl(tokens, index + 1, acc + [Tree.Write])
      case Read => ParseImpl(tokens, index + 1, acc + [Tree.Read])
      case BeginLoop =>
        var inner := ParseImpl(tokens, index + 1, []);
        ParseImpl(tokens, inner.1 + 1, acc + [Loop(inner.0)])
      case EndLoop => (acc, index)
  }

  function ParseTokens(tokens: seq<Token>): Result<seq<Tree>, ParseError>
  {
    var (trees, index) := ParseImpl(tokens, 0, []);
    if index != |tokens| then Err(UnmatchedBrackets) else Ok(trees)
  }

  function Parse(script: string): Result<seq<Tree>, ParseError>
  {
    ParseTokens(Tokenize(script))
  }

  /** Where the parser's index ends up when started at `j` inside `d` still-open loops:
      at the first `]` that closes below the starting level, or past the end by one
      per loop left open. */
  function EndScan(tokens: seq<Token>, j: nat, d: nat): (r: nat)
    ensures r >= j
    decreases |tokens| - j
  {
    if j >= |tokens| then j + d
    else if tokens[j] == BeginLoop then EndScan(tokens, j + 1, d + 1)
    else if tokens[j] == EndLoop then (if d == 0 then j else EndScan(tokens, j + 1, d - 1))
    else EndScan(tokens, j + 1, d)
  }

  lemma {:induction false} EndScanNest(tokens: seq<Token>, k: nat, d: nat)
    ensures EndScan(tokens, k, d + 1) == EndScan(tokens, EndScan(tokens, k, 0) + 1, d)
    decreases |tokens| - k
  {
    if k < |tokens| {
      if tokens[k] == BeginLoop {
        var m := EndScan(tokens, k + 1, 0) + 1;
        EndScanNest(tokens, k + 1, d + 1);
        EndScanNest(tokens, m, d);
        EndScanNest(tokens, k + 1, 0);
      } else if tokens[k] == EndLoop {
      } else {
        EndScanNest(tokens, k + 1, d);
      }
    }
  }

  /** The parser's final index is the bracket scan's end point. */
  lemma {:induction false} ParseImplIndex(tokens: seq<Token>, index: nat, acc: seq<Tree>)
    ensures ParseImpl(tokens, index, acc).1 == EndScan(tokens, index, 0)
    decreases Remaining(tokens, index)
  {
    if index < |tokens| {
      match tokens[index]
      case Left => ParseImplIndex(tokens, index + 1, PushMove(acc, -1));
      case Right => ParseImplIndex(tokens, index + 1, PushMove(acc, 1));
      case Inc => ParseImplIndex(tokens, index + 1, PushAdd(acc, 1));
      case Dec => ParseImplIndex(tokens, index + 1, PushAdd(acc, -1));
      case Write => ParseImplIndex(tokens, index + 1, acc + [Tree.Write]);
      case Read => ParseImplIndex(tokens, index + 1, acc + [Tree.Read]);
      case BeginLoop =>
        var inner := ParseImpl(tokens, index + 1, []);
        ParseImplIndex(tokens, index + 1, []);
        ParseImplIndex(tokens, inner.1 + 1, acc + [Loop(inner.0)]);
        EndScanNest(tokens, index + 1, 0);
      case EndLoop =>
    }
  }

  lemma SliceStep(tokens: seq<Token>, k: nat, m: nat)
    requires k < m <= |tokens|
    ensures Depth(tokens[k..m]) == Delta(tokens[k]) + Depth(tokens[k + 1..m])
  {
    assert tokens[k..m][1..] == tokens[k + 1..m];
  }

  /** The scan reaches exactly the end iff, from `k` and depth `d`, no running depth goes
      negative and the total depth returns to zero. */
  lemma {:induction false} EndScanBalanced(tokens: seq<Token>, k: nat, d: nat)
    requires k <= |tokens|
    ensures EndScan(tokens, k, d) == |tokens| <==>
              (d + Depth(tokens[k..]) == 0 && forall m :: k <= m <= |tokens| ==> d + Depth(tokens[k..m]) >= 0)
    decreases |tokens| - k
  {
    if k == |tokens| {
      assert tokens[k..] == [];
      assert forall m :: k <= m <= |tokens| ==> tokens[k..m] == [];
    } else {
      var k1 := k + 1;
      var nd := d + Delta(tokens[k]);
      SliceStep(tokens, k, |tokens|);
      assert tokens[k..] == tokens[k..|tokens|];
      assert tokens[k1..] == tokens[k1..|tokens|];
      assert tokens[k..k] == [];
      forall m | k1 <= m <= |tokens|
        ensures d + Depth(tokens[k..m]) == nd + Depth(tokens[k1..m])
      {
        SliceStep(tokens, k, m);
      }
      if tokens[k] == EndLoop && d == 0 {
        assert d + Depth(tokens[k..k1]) == -1 by {
          SliceStep(tokens, k, k1);
          assert tokens[k1..k1] == [];
        }
      } else {
        EndScanBalanced(tokens, k1, nd);
        if forall m :: k1 <= m <= |tokens| ==> nd + Depth(tokens[k1..m]) >= 0 {
          forall m | k <= m <= |tokens|
            ensures d + Depth(tokens[k..m]) >= 0
          {
            if m > k {
              assert nd + Depth(tokens[k1..m]) >= 0;
            }
          }
        }
      }
    }
  }

  /** `parse_bf_tokens` fails with `UnmatchedBrackets` iff the brackets do not balance. */
  lemma ParseTokensBalanced(tokens: seq<Token>)
    ensures ParseTokens(tokens).Ok? <==> Balanced(tokens)
    ensures ParseTokens(tokens).Err? ==> ParseTokens(tokens).error == UnmatchedBrackets
  {
    ParseImplIndex(tokens, 0, []);
    EndScanBalanced(tokens, 0, 0);
    assert tokens[0..] == tokens;
    assert forall m :: 0 <= m <= |tokens| ==> tokens[0..m] == tokens[..m];
  }

  /** Printed tree programs always parse. */
  lemma ToTokensParse(trees: seq<Tree>)
    ensures ParseTokens(ToTokens(trees)).Ok?
  {
    ToTokensBalanced(trees);
    ParseTokensBalanced(ToTokens(trees));
  }

  predicate IsMoveToken(t: Token) { t == Left || t == Right }
  predicate IsAddToken(t: Token) { t == Inc || t == Dec }

  function NetMove(tokens: seq<Token>): int
  {
    if tokens == [] then 0 else (if tokens[0] == Right then 1 else if tokens[0] == Left then -1 else 0) + NetMove(tokens[1..])
  }

  function NetAdd(tokens: seq<Token>): int
  {
    if tokens == [] then 0 else (if tokens[0] == Inc then 1 else if tokens[0] == Dec then -1 else 0) + NetAdd(tokens[1..])
  }

  /** A run of `<`/`>` after a `Move` folds into that `Move`, adding the run's net offset. */
  lemma {:induction false} ParseMoveRun(tokens: seq<Token>, acc: seq<Tree>, n: int)
    requires forall i :: 0 <= i < |tokens| ==> IsMoveToken(tokens[i])
    ensures ParseImpl(tokens, 0, acc + [Move(n)]) == (acc + [Move(n + NetMove(tokens))], |tokens|)
    decreases |tokens|
  {
    if tokens != [] {
      var step := if tokens[0] == Right then 1 else -1;
      assert PushMove(acc + [Move(n)], step) == acc + [Move(n + step)];
      assert ParseImpl(tokens, 0, acc + [Move(n)]) == ParseImpl(tokens, 1, acc + [Move(n + step)]);
      ParseShift(tokens, 0, acc + [Move(n + step)]);
      ParseMoveRun(tokens[1..], acc, n + step);
      assert NetMove(tokens) == step + NetMove(tokens[1..]);
    }
  }

  /** A run of `+`/`-` after an `Add` folds into that `Add`, adding the run's net count
      with wrap-around. */
  lemma {:induction false} ParseAddRun(tokens: seq<Token>, acc: seq<Tree>, a: U8)
    requires forall i :: 0 <= i < |tokens| ==> IsAddToken(tokens[i])
    ensures ParseImpl(tokens, 0, acc + [Add(a)]) == (acc + [Add(WrapU8(a + NetAdd(tokens)))], |tokens|)
    decreases |tokens|
  {
    if tokens == [] {
      assert WrapU8(a + NetAdd(tokens)) == a;
    } else {
      var step := if tokens[0] == Inc then 1 else -1;
      var b := WrapU8(a + step);
      assert PushAdd(acc + [Add(a)], step) == acc + [Add(b)];
      assert ParseImpl(tokens, 0, acc + [Add(a)]) == ParseImpl(tokens, 1, acc + [Add(b)]);
      ParseShift(tokens, 0, acc + [Add(b)]);
      ParseAddRun(tokens[1..], acc, b);
      assert NetAdd(tokens) == step + NetAdd(tokens[1..]);
      WrapTwice(a + step, NetAdd(tokens[1..]));
    }
  }

  /** Parsing from index i + 1 of `tokens` is parsing `tokens[1..]` from i, shifted by one. */
  lemma {:induction false} ParseShift(tokens: seq<Token>, i: nat, acc: seq<Tree>)
    requires |tokens| > 0
    ensures ParseImpl(tokens, i + 1, acc) == (ParseImpl(tokens[1..], i, acc).0, ParseImpl(tokens[1..], i, acc).1 + 1)
    decreases Remaining(tokens, i + 1)
  {
    var t := tokens[1..];
    if i + 1 < |tokens| {
      assert tokens[i + 1] == t[i];
      match tokens[i + 1]
      case Left => ParseShift(tokens, i + 1, PushMove(acc, -1));
      case Right => ParseShift(tokens, i + 1, PushMove(acc, 1));
      case Inc => ParseShift(tokens, i + 1, PushAdd(acc, 1));
      case Dec => ParseShift(tokens, i + 1, PushAdd(acc, -1));
      case Write => ParseShift(tokens, i + 1, acc + [Tree.Write]);
      case Read => ParseShift(tokens, i + 1, acc + [Tree.Read]);
      case BeginLoop =>
        ParseShift(tokens, i + 1, []);
        var inner := ParseImpl(t, i + 1, []);
        ParseShift(tokens, inner.1 + 1, acc + [Loop(inner.0)]);
      case EndLoop =>
    }
  }

  /** A nonempty run of `<`/`>` parses to a single `Move` carrying the net offset. */
  lemma {:induction false} ParseMoves(tokens: seq<Token>)
    requires |tokens| > 0
    requires forall i :: 0 <= i < |tokens| ==> IsMoveToken(tokens[i])
    ensures ParseTokens(tokens) == Ok([Move(NetMove(tokens))])
  {
    ParseMovesImpl(tokens);
  }

  lemma {:induction false} ParseMovesImpl(tokens: seq<Token>)
    requires |tokens| > 0
    requires forall i :: 0 <= i < |tokens| ==> IsMoveToken(tokens[i])
    ensures ParseImpl(tokens, 0, []) == ([Move(NetMove(tokens))], |tokens|)
  {
    var step := if tokens[0] == Right then 1 else -1;
    var first: seq<Tree> := [] + [Move(step)];
    ParseFirstMove(tokens);
    ParseShift(tokens, 0, first);
    ParseMoveRun(tokens[1..], [], step);
    NetMoveFront(tokens);
    var n := NetMove(tokens);
    assert [] + [Move(n)] == [Move(n)];
  }

  lemma NetMoveFront(tokens: seq<Token>)
    requires |tokens| > 0 && IsMoveToken(tokens[0])
    ensures (if tokens[0] == Right then 1 else -1) + NetMove(tokens[1..]) == NetMove(tokens)
  {
  }

  lemma ParseFirstMove(tokens: seq<Token>)
    requires |tokens| > 0 && IsMoveToken(tokens[0])
    ensures ParseImpl(tokens, 0, []) == ParseImpl(tokens, 1, [] + [Move(if tokens[0] == Right then 1 else -1)])
  {
    var step := if tokens[0] == Right then 1 else -1;
    assert PushMove([], step) == [] + [Move(step)];
  }

  /** A nonempty run of `+`/`-` parses to a single wrapping `Add`. */
  lemma {:induction false} ParseAdds(tokens: seq<Token>)
    requires |tokens| > 0
    requires forall i :: 0 <= i < |tokens| ==> IsAddToken(tokens[i])
    ensures ParseTokens(tokens) == Ok([Add(WrapU8(NetAdd(tokens)))])
  {
    ParseAddsImpl(tokens);
  }

  lemma {:induction false} ParseAddsImpl(tokens: seq<Token>)
    requires |tokens| > 0
    requires forall i :: 0 <= i < |tokens| ==> IsAddToken(tokens[i])
    ensures ParseImpl(tokens, 0, []) == ([Add(WrapU8(NetAdd(tokens)))], |tokens|)
  {
    var step := if tokens[0] == Inc then 1 else -1;
    var w := WrapU8(step);
    var first: seq<Tree> := [] + [Add(w)];
    ParseFirstAdd(tokens);
    ParseShift(tokens, 0, first);
    ParseAddRun(tokens[1..], [], w);
    NetAddFront(tokens);
    var x := WrapU8(NetAdd(tokens));
    assert [] + [Add(x)] == [Add(x)];
  }

  lemma ParseFirstAdd(tokens: seq<Token>)
    requires |tokens| > 0 && IsAddToken(tokens[0])
    ensures ParseImpl(tokens, 0, []) == ParseImpl(tokens, 1, [] + [Add(WrapU8(if tokens[0] == Inc then 1 else -1))])
  {
    if tokens[0] == Inc {
      assert PushAdd([], 1) == [] + [Add(1)];
    } else {
      assert PushAdd([], -1) == [] + [Add(255)];
    }
  }

  lemma NetAddFront(tokens: seq<Token>)
    requires |tokens| > 0 && IsAddToken(tokens[0])
    ensures WrapU8(WrapU8(if tokens[0] == Inc then 1 else -1) + NetAdd(tokens[1..])) == WrapU8(NetAdd(tokens))
  {
    var step := if tokens[0] == Inc then 1 else -1;
    assert NetAdd(tokens) == step + NetAdd(tokens[1..]);
    WrapTwice(step, NetAdd(tokens[1..]));
  }

  /** A lone `-` parses to `Add(255)`. */
  lemma ParseLoneDec()
    ensures ParseTokens([Dec]) == Ok([Add(255)])
  {
    ParseAdds([Dec]);
    assert NetAdd([Dec]) == -1 by { assert [Dec][1..] == []; }
  }

  // ---------------------------------------------------------------------------
  // Interpreter

  /** Tape of wrapping cells (absent cells hold 0), the cursor, and the byte streams. */
  datatype Machine = Machine(tape: map<int, U8>, pointer: int, input: seq<U8>, output: seq<U8>)
  {
    function Current(): U8
    {
      if pointer in tape then tape[pointer] else 0
    }

    function SetCurrent(v: U8): Machine
    {
      this.(tape := tape[pointer := v])
    }
  }

  datatype RunError = OutOfFuel | EndOfInput

  const CarriageReturn: U8 := 13

  /** One non-loop instruction. Reading a carriage return skips it and takes the next byte. */
  function Basic(t: Tree, m: Machine): Result<Machine, RunError>
    requires !t.Loop?
  {
    match t
    case Move(n) => Ok(m.(pointer := m.pointer + n))
    case Add(a) => Ok(m.SetCurrent(WrapU8(m.Current() + a)))
    case Write => Ok(m.(output := m.output + [m.Current()]))
    case Read =>
      if |m.input| == 0 then Err(EndOfInput)
      else if m.input[0] == CarriageReturn then
        (if |m.input| < 2 then Err(EndOfInput) else Ok(m.SetCurrent(m.input[1]).(input := m.input[2..])))
      else Ok(m.SetCurrent(m.input[0]).(input := m.input[1..]))
  }

  /** `run_instructions`, with one unit of fuel spent per loop iteration. */
  function Run(trees: seq<Tree>, m: Machine, fuel: nat): Result<Machine, RunError>
    decreases fuel, trees, 1
  {
    if trees == [] then Ok(m)
    else
      var next := if trees[0].Loop? then RunLoop(trees[0].body, m, fuel) else Basic(trees[0], m);
      match next
      case Ok(m') => Run(trees[1..], m', fuel)
      case Err(e) => Err(e)
  }

  /** The `loop { if current == 0 { break } run(body) }` of a `Loop` node. */
  function RunLoop(body: seq<Tree>, m: Machine, fuel: nat): Result<Machine, RunError>
    decreases fuel, body, 0
  {
    if m.Current() == 0 then Ok(m)
    else if fuel == 0 then Err(OutOfFuel)
    else
      match Run(body, m, fuel - 1)
      case Ok(m') => RunLoop(body, m', fuel - 1)
      case Err(e) => Err(e)
  }

  /** `Add` changes only the current cell, by wrapping addition. */
  lemma RunAdd(a: U8, m: Machine, fuel: nat)
    ensures Run([Add(a)], m, fuel).Ok?
    ensures Run([Add(a)], m, fuel).value.Current() == (m.Current() + a) % 256
    ensures Run([Add(a)], m, fuel).value == m.(tape := m.tape[m.pointer := (m.Current() + a) % 256])
  {
    assert [Add(a)][1..] == [];
  }

  /** A loop that finishes leaves the current cell zero. */
  lemma {:induction false} RunLoopExitsOnZero(body: seq<Tree>, m: Machine, fuel: nat)
    requires RunLoop(body, m, fuel).Ok?
    ensures RunLoop(body, m, fuel).value.Current() == 0
    decreases fuel
  {
    if m.Current() != 0 {
      RunLoopExitsOnZero(body, Run(body, m, fuel - 1).value, fuel - 1);
    }
  }

  lemma RunSingleLoop(body: seq<Tree>, m: Machine, fuel: nat)
    requires Run([Loop(body)], m, fuel).Ok?
    ensures Run([Loop(body)], m, fuel).value.Current() == 0
  {
    assert [Loop(body)][1..] == [];
    RunLoopExitsOnZero(body, m, fuel);
  }

  /** Output only grows and input is only consumed from the front. */
  predicate Progressed(m: Machine, m': Machine)
  {
    && |m.output| <= |m'.output| && m'.output[..|m.output|] == m.output
    && |m'.input| <= |m.input| && m.input[|m.input| - |m'.input|..] == m'.input
  }

  lemma ProgressedTrans(a: Machine, b: Machine, c: Machine)
    requires Progressed(a, b) && Progressed(b, c)
    ensures Progressed(a, c)
  {
    assert c.output[..|a.output|] == c.output[..|b.output|][..|a.output|];
    assert a.input[|a.input| - |c.input|..] == a.input[|a.input| - |b.input|..][|b.input| - |c.input|..];
  }

  lemma BasicProgress(t: Tree, m: Machine)
    requires !t.Loop? && Basic(t, m).Ok?
    ensures Progressed(m, Basic(t, m).value)
  {
  }

  lemma {:induction false} RunProgress(trees: seq<Tree>, m: Machine, fuel: nat)
    requires Run(trees, m, fuel).Ok?
    ensures Progressed(m, Run(trees, m, fuel).value)
    decreases fuel, trees, 1
  {
    if trees == [] {
      assert m.input[|m.input| - |m.input|..] == m.input;
    } else {
      var next := if trees[0].Loop? then RunLoop(trees[0].body, m, fuel) else Basic(trees[0], m);
      if trees[0].Loop? {
        RunLoopProgress(trees[0].body, m, fuel);
      } else {
        BasicProgress(trees[0], m);
      }
      RunProgress(trees[1..], next.value, fuel);
      ProgressedTrans(m, next.value, Run(trees, m, fuel).value);
    }
  }

  lemma {:induction false} RunLoopProgress(body: seq<Tree>, m: Machine, fuel: nat)
    requires RunLoop(body, m, fuel).Ok?
    ensures Progressed(m, RunLoop(body, m, fuel).value)
    decreases fuel, body, 0
  {
    if m.Current() == 0 {
      assert m.input[|m.input| - |m.input|..] == m.input;
    } else {
      var m' := Run(body, m, fuel - 1).value;
      RunProgress(body, m, fuel - 1);
      RunLoopProgress(body, m', fuel - 1);
      ProgressedTrans(m, m', RunLoop(body, m, fuel).value);
    }
  }

  /** Running a concatenation runs the first part, then the second from where it stopped. */
  lemma {:induction false} RunConcat(a: seq<Tree>, b: seq<Tree>, m: Machine, fuel: nat)
    ensures Run(a + b, m, fuel) == match Run(a, m, fuel) { case Ok(m') => Run(b, m', fuel) case Err(e) => Err(e) }
    decreases a
  {
    if a == [] {
      assert a + b == b;
    } else {
      assert (a + b)[0] == a[0];
      assert (a + b)[1..] == a[1..] + b;
      var next := if a[0].Loop? then RunLoop(a[0].body, m, fuel) else Basic(a[0], m);
      if next.Ok? {
        RunConcat(a[1..], b, next.value, fuel);
      }
    }
  }

  /** Giving a finished run more fuel does not change its result. */
  lemma {:induction false} RunMoreFuel(trees: seq<Tree>, m: Machine, fuel: nat)
    requires Run(trees, m, fuel).Ok?
    ensures Run(trees, m, fuel + 1) == Run(trees, m, fuel)
    decreases fuel, trees, 1
  {
    if trees != [] {
      var next := if trees[0].Loop? then RunLoop(trees[0].body, m, fuel) else Basic(trees[0], m);
      if trees[0].Loop? {
        RunLoopMoreFuel(trees[0].body, m, fuel);
      }
      RunMoreFuel(trees[1..], next.value, fuel);
    }
  }

  lemma {:induction false} RunLoopMoreFuel(body: seq<Tree>, m: Machine, fuel: nat)
    requires RunLoop(body, m, fuel).Ok?
    ensures RunLoop(body, m, fuel + 1) == RunLoop(body, m, fuel)
    decreases fuel, body, 0
  {
    if m.Current() != 0 {
      RunMoreFuel(body, m, fuel - 1);
      RunLoopMoreFuel(body, Run(body, m, fuel - 1).value, fuel - 1);
    }
  }
}
