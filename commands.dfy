/**
 The HOHOHO! command alphabet: the eight commands, their source triplets,
 their Brainfuck characters, the parse errors and the parsed program.
 */
module Commands {
  import opened Wrappers

  /** The errors a parse can end with. */
  datatype Error =
    | InvalidTriplet(text: string)   // a six-byte token that is none of the eight triplets
    | MissingHoHoHO(count: nat)      // input ended with `count` loops still open
    | MissingHOHoHo                  // a loop closer with no open loop

  /** One executable command. */
  datatype Command =
    | IncrementCell
    | DecrementCell
    | MoveRight
    | MoveLeft
    | JumpForward
    | JumpBackward
    | OutputFromCell
    | InputToCell

  /** A parsed program: the commands in source order. */
  datatype Program = Program(commands: seq<Command>)

  /** The letter of a case position: `O` or `o`. */
  predicate IsCaseO(ch: char) {
    ch == 'O' || ch == 'o'
  }

  /** The source text of a command (its `Display`). */
  function Triplet(c: Command): (s: string)
    ensures |s| == 6
    ensures s[0] == 'H' && s[2] == 'H' && s[4] == 'H'
    ensures IsCaseO(s[1]) && IsCaseO(s[3]) && IsCaseO(s[5])
  {
    match c
    case IncrementCell  => "HOHOHO"
    case DecrementCell  => "HoHoHo"
    case MoveRight      => "HOHOHo"
    case MoveLeft       => "HoHOHO"
    case JumpForward    => "HOHoHo"
    case JumpBackward   => "HoHoHO"
    case OutputFromCell => "HoHOHo"
    case InputToCell    => "HOHoHO"
  }

  /** Decodes one token; `None` for every string that is not a triplet. */
  function FromStr(s: string): (r: Option<Command>)
    ensures r.Some? ==> Triplet(r.value) == s
    ensures r.None? ==> forall c: Command :: Triplet(c) != s
  {
    match s
    case "HOHOHO" => Some(IncrementCell)
    case "HoHoHo" => Some(DecrementCell)
    case "HOHOHo" => Some(MoveRight)
    case "HoHOHO" => Some(MoveLeft)
    case "HOHoHo" => Some(JumpForward)
    case "HoHoHO" => Some(JumpBackward)
    case "HoHOHo" => Some(OutputFromCell)
    case "HOHoHO" => Some(InputToCell)
    case _ => None
  }

  /** The Brainfuck character of a command. */
  function AsBrainfuck(c: Command): (ch: char)
    ensures ch in "+-><[].,"
    ensures ch == '[' <==> c == JumpForward
    ensures ch == ']' <==> c == JumpBackward
  {
    match c
    case IncrementCell  => '+'
    case DecrementCell  => '-'
    case MoveRight      => '>'
    case MoveLeft       => '<'
    case JumpForward    => '['
    case JumpBackward   => ']'
    case OutputFromCell => '.'
    case InputToCell    => ','
  }

  /** The token sequence a command sequence is written as. */
  function Spell(cs: seq<Command>): (ts: seq<string>)
    ensures |ts| == |cs|
  {
    if cs == [] then [] else [Triplet(cs[0])] + Spell(cs[1..])
  }

  /** The source text of a command sequence: its triplets, back to back, without whitespace. */
  function Encode(cs: seq<Command>): (s: string)
    ensures |s| == 6 * |cs|
    ensures forall i, k :: 0 <= i < |cs| && 0 <= k < 6 ==> s[6 * i + k] == Triplet(cs[i])[k]
  {
    if cs == [] then [] else Triplet(cs[0]) + Encode(cs[1..])
  }

  /** The eight triplets are pairwise distinct. */
  lemma TripletInjective(c: Command, d: Command)
    ensures Triplet(c) == Triplet(d) ==> c == d
  {
    if Triplet(c) == Triplet(d) {
      assert Triplet(c)[1] == Triplet(d)[1] && Triplet(c)[3] == Triplet(d)[3] && Triplet(c)[5] == Triplet(d)[5];
    }
  }

  /** Decoding the text of a command gives the command back. */
  lemma FromStrTriplet(c: Command)
    ensures FromStr(Triplet(c)) == Some(c)
  {
    var r := FromStr(Triplet(c));
    if r.Some? {
      TripletInjective(r.value, c);
    }
  }

  /** A successful decode is undone by printing: `FromStr` is the exact inverse of `Triplet` on its domain. */
  lemma FromStrIff(s: string, c: Command)
    ensures FromStr(s) == Some(c) <==> s == Triplet(c)
  {
    FromStrTriplet(c);
  }

  /** Distinct commands have distinct Brainfuck characters. */
  lemma AsBrainfuckInjective(c: Command, d: Command)
    ensures AsBrainfuck(c) == AsBrainfuck(d) ==> c == d
  {
  }

  /** Every six-letter string with `H` in the odd places and `O`/`o` in the even ones is some command's triplet. */
  lemma TripletOnto(s: string)
    requires |s| == 6 && s[0] == 'H' && s[2] == 'H' && s[4] == 'H'
    requires IsCaseO(s[1]) && IsCaseO(s[3]) && IsCaseO(s[5])
    ensures FromStr(s).Some?
  {
    assert s == [s[0], s[1], s[2], s[3], s[4], s[5]];
  }
}
