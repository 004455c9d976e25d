/**
 The string `Program::to_brainfuck` builds: one Brainfuck character per
 command, in order. Loop balance of the commands is exactly bracket balance
 of the string.
 */
module Transpiler {
  import opened Commands
  import opened Decoder

  /** The Brainfuck text of the commands `cs`. */
  function ToBrainfuck(cs: seq<Command>): (bf: string)
    ensures |bf| == |cs|
    ensures forall i :: 0 <= i < |cs| ==> bf[i] == AsBrainfuck(cs[i])
  {
    if cs == [] then [] else [AsBrainfuck(cs[0])] + ToBrainfuck(cs[1..])
  }

  /** Number of `[` minus number of `]` in `s`. */
  function BracketDepth(s: string): int {
    if s == [] then 0
    else (if s[0] == '[' then 1 else if s[0] == ']' then -1 else 0) + BracketDepth(s[1..])
  }

  /** Every `]` closes an earlier `[`, and every `[` is closed. */
  predicate BracketsBalanced(s: string) {
    && (forall k :: 0 <= k <= |s| ==> BracketDepth(s[..k]) >= 0)
    && BracketDepth(s) == 0
  }

  /** The text of a prefix is the prefix of the text. */
  lemma ToBrainfuckPrefix(cs: seq<Command>, k: nat)
    requires k <= |cs|
    ensures ToBrainfuck(cs)[..k] == ToBrainfuck(cs[..k])
  {
  }

  /** The brackets of the text count the loops of the commands. */
  lemma {:induction false} BracketDepthIsDepth(cs: seq<Command>)
    ensures BracketDepth(ToBrainfuck(cs)) == Depth(cs)
  {
    if cs != [] {
      BracketDepthIsDepth(cs[1..]);
      assert ToBrainfuck(cs)[1..] == ToBrainfuck(cs[1..]);
    }
  }

  /** Properly nested loops transpile to properly nested brackets, and only they do. */
  lemma BalancedIffBrackets(cs: seq<Command>)
    ensures Balanced(cs) <==> BracketsBalanced(ToBrainfuck(cs))
  {
    var bf := ToBrainfuck(cs);
    forall k | 0 <= k <= |cs|
      ensures BracketDepth(bf[..k]) == Depth(cs[..k])
    {
      ToBrainfuckPrefix(cs, k);
      BracketDepthIsDepth(cs[..k]);
    }
    BracketDepthIsDepth(cs);
  }

  /** Different programs give different Brainfuck texts. */
  lemma ToBrainfuckInjective(cs: seq<Command>, ds: seq<Command>)
    requires ToBrainfuck(cs) == ToBrainfuck(ds)
    ensures cs == ds
  {
    assert |cs| == |ds|;
    forall i | 0 <= i < |cs| ensures cs[i] == ds[i] {
      assert AsBrainfuck(cs[i]) == ToBrainfuck(cs)[i] == AsBrainfuck(ds[i]);
      AsBrainfuckInjective(cs[i], ds[i]);
    }
  }
}
