// The `braincrab_core` crate: a second copy of the Brainfuck front end with the same
// token and tree enums as `bf_core`, written with loops and a shared mutable index.
// Its tokenizer, parser and interpreter are modelled here as methods in that
// imperative style and proved to compute exactly the recursive definitions of the
// `BfCore` module, which then lend them their properties.

module BraincrabCore {
  import opened Wrappers
  import opened Bytes
  import BfCore

  type Token = BfCore.Token
  type Tree = BfCore.Tree
  type Machine = BfCore.Machine

  /** The token of one character, if it is a command. */
  function TokenOf(c: char): seq<Token>
  {
    match BfCore.FromChar(c)
    case Some(t) => [t]
    case None => []
  }

  lemma TokenizeFront(text: string)
    requires text != []
    ensures BfCore.Tokenize(text) == TokenOf(text[0]) + BfCore.Tokenize(text[1..])
  {
  }

  /** `tokenize_bf`: one pass over the characters, pushing each command token. */
  method TokenizeBf(text: string) returns (tokens: seq<Token>)
    ensures tokens == BfCore.Tokenize(text)
    ensures BfCore.Stringify(tokens) == BfCore.Commands(text)
  {
    tokens := [];
    var i := 0;
    while i < |text|
      invariant 0 <= i <= |text|
      invariant tokens + BfCore.Tokenize(text[i..]) == BfCore.Tokenize(text)
    {
      TokenizeFront(text[i..]);
      assert text[i..][1..] == text[i + 1..];
      match BfCore.FromChar(text[i]) {
        case Some(t) =>
          tokens := tokens + [t];
        case None =>
      }
      i := i + 1;
    }
    assert text[i..] == [];
  }

  /** One `<`, `>`, `+`, `-`, `.` or `,` of `parse_bf_tokens_impl`: moves and additions
      merge into a trailing node of the same kind (`result.last_mut()`), the rest push. */
  method PushPlain(tokens: seq<Token>, next: nat, result: seq<Tree>) returns (r: seq<Tree>)
    requires next < |tokens| && tokens[next] != BfCore.BeginLoop && tokens[next] != BfCore.EndLoop
    ensures BfCore.ParseImpl(tokens, next + 1, r) == BfCore.ParseImpl(tokens, next, result)
  {
    match tokens[next] {
      case Left =>
        if |result| > 0 && result[|result| - 1].Move? {
          r := result[..|result| - 1] + [BfCore.Move(result[|result| - 1].offset - 1)];
        } else {
          r := result + [BfCore.Move(-1)];
        }
      case Right =>
        if |result| > 0 && result[|result| - 1].Move? {
          r := result[..|result| - 1] + [BfCore.Move(result[|result| - 1].offset + 1)];
        } else {
          r := result + [BfCore.Move(1)];
        }
      case Inc =>
        if |result| > 0 && result[|result| - 1].Add? {
          r := result[..|result| - 1] + [BfCore.Add(WrapU8(result[|result| - 1].amount + 1))];
        } else {
          r := result + [BfCore.Add(1)];
        }
      case Dec =>
        if |result| > 0 && result[|result| - 1].Add? {
          r := result[..|result| - 1] + [BfCore.Add(WrapU8(result[|result| - 1].amount - 1))];
        } else {
          r := result + [BfCore.Add(255)];
        }
      case Write =>
        r := result + [BfCore.Tree.Write];
      case Read =>
        r := result + [BfCore.Tree.Read];
    }
  }

  /** `parse_bf_tokens_impl`: parses trees from `index` and returns them with the final
      value of the shared index, which stops on an unmatched `]` or at the end. */
  method ParseTokensImpl(tokens: seq<Token>, index: nat) returns (result: seq<Tree>, next: nat)
    ensures (result, next) == BfCore.ParseImpl(tokens, index, [])
    ensures next == BfCore.EndScan(tokens, index, 0)
    decreases BfCore.Remaining(tokens, index)
  {
    BfCore.ParseImplIndex(tokens, index, []);
    result := [];
    next := index;
    while next < |tokens|
      invariant next >= index
      invariant BfCore.ParseImpl(tokens, next, result) == BfCore.ParseImpl(tokens, index, [])
      decreases BfCore.Remaining(tokens, next)
    {
      if tokens[next] == BfCore.BeginLoop {
        next := next + 1;
        var body, inner := ParseTokensImpl(tokens, next);
        result := result + [BfCore.Loop(body)];
        next := inner;
      } else if tokens[next] == BfCore.EndLoop {
        return;
      } else {
        result := PushPlain(tokens, next, result);
      }
      next := next + 1;
    }
  }

  /** `parse_bf_tokens`: the whole input must be consumed, or a bracket is unmatched. */
  method ParseBfTokens(tokens: seq<Token>) returns (r: Result<seq<Tree>, BfCore.ParseError>)
    ensures r == BfCore.ParseTokens(tokens)
    ensures r.Ok? <==> BfCore.Balanced(tokens)
  {
    BfCore.ParseTokensBalanced(tokens);
    var result, index := ParseTokensImpl(tokens, 0);
    if index != |tokens| {
      r := Err(BfCore.UnmatchedBrackets);
    } else {
      r := Ok(result);
    }
  }

  /** `run_instructions`: a loop over the trees; a `Loop` node re-runs its body until the
      current cell is zero, spending one unit of fuel per iteration. */
  method RunInstructions(trees: seq<Tree>, m: Machine, fuel: nat) returns (r: Result<Machine, BfCore.RunError>)
    ensures r == BfCore.Run(trees, m, fuel)
    ensures r.Ok? ==> BfCore.Progressed(m, r.value)
    decreases fuel
  {
    var cur := m;
    var i := 0;
    while i < |trees|
      invariant 0 <= i <= |trees|
      invariant BfCore.Run(trees[i..], cur, fuel) == BfCore.Run(trees, m, fuel)
    {
      assert trees[i..][1..] == trees[i + 1..];
      var tree := trees[i];
      if tree.Loop? {
        ghost var before := cur;
        var f: nat := fuel;
        while cur.Current() != 0
          invariant f <= fuel
          invariant BfCore.RunLoop(tree.body, cur, f) == BfCore.RunLoop(tree.body, before, fuel)
          decreases f
        {
          if f == 0 {
            return Err(BfCore.OutOfFuel);
          }
          var inner := RunInstructions(tree.body, cur, f - 1);
          if inner.Err? {
            return Err(inner.error);
          }
          cur := inner.value;
          f := f - 1;
        }
      } else {
        var step := BfCore.Basic(tree, cur);
        if step.Err? {
          return Err(step.error);
        }
        cur := step.value;
      }
      i := i + 1;
    }
    assert trees[i..] == [];
    r := Ok(cur);
    BfCore.RunProgress(trees, m, fuel);
  }
}
