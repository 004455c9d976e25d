/**
 The decoder and bracket validator of `TripletParseIter` as pure functions:
 each token is looked up with `FromStr`, a `JumpForward` opens a loop, a
 `JumpBackward` closes one (or fails when none is open), and when the tokens
 run out the loops still open are reported. `Spelled`, `Depth` and
 `Balanced` are the independent reference the decoder is proved against.
 */
module Decoder {
  import opened Wrappers
  import opened Commands
  import opened Text
  import opened Tokenizer

  /** How a command changes the number of open loops. */
  function Delta(c: Command): int {
    if c == JumpForward then 1 else if c == JumpBackward then -1 else 0
  }

  /** The loops `cs` leaves open: the sum of the `Delta`s (see `DepthCounts`). */
  function Depth(cs: seq<Command>): int {
    if cs == [] then 0 else Delta(cs[0]) + Depth(cs[1..])
  }

  /** Starting with `d` open loops, walking through `cs` never closes a loop that is not open. */
  predicate OpenFrom(d: int, cs: seq<Command>)
    decreases |cs|
  {
    cs == [] || (d + Delta(cs[0]) >= 0 && OpenFrom(d + Delta(cs[0]), cs[1..]))
  }

  /** Every prefix of `cs` has at least as many `JumpForward` as `JumpBackward`. */
  predicate NoOrphan(cs: seq<Command>) {
    forall k :: 0 <= k <= |cs| ==> Depth(cs[..k]) >= 0
  }

  /** Properly nested loops: no orphan closer, and every opener closed. */
  predicate Balanced(cs: seq<Command>) {
    NoOrphan(cs) && Depth(cs) == 0
  }

  /** Every token decoded on its own, or `None` if some token is not a triplet. */
  function Spelled(toks: seq<string>): (r: Option<seq<Command>>)
    ensures r.Some? ==> Spell(r.value) == toks
    ensures r.None? ==> exists i :: 0 <= i < |toks| && FromStr(toks[i]).None?
  {
    if toks == [] then Some([])
    else match (FromStr(toks[0]), Spelled(toks[1..]))
      case (Some(c), Some(cs)) => Some([c] + cs)
      case (None, _) => None
      case (_, None) => assert FromStr(toks[1..][0]).None? || exists i :: 1 <= i < |toks| && FromStr(toks[i]).None?; None
  }

  /**
   `try_match_triplet` on a buffer `tok` with `depth` loops open: the item it
   yields and the number of loops open afterwards.
   */
  function DecodeToken(tok: string, depth: nat): (Result<Command, Error>, nat) {
    match FromStr(tok)
    case None => (Err(InvalidTriplet(tok)), depth)
    case Some(JumpForward) => (Ok(JumpForward), depth + 1)
    case Some(JumpBackward) =>
      if depth == 0 then (Err(MissingHOHoHo), 0) else (Ok(JumpBackward), depth - 1)
    case Some(c) => (Ok(c), depth)
  }

  /** `cs` in front of the commands of `r`; an error stays the error. */
  function PrependAll(cs: seq<Command>, r: Result<seq<Command>, Error>): Result<seq<Command>, Error> {
    match r
    case Ok(rest) => Ok(cs + rest)
    case Err(e) => Err(e)
  }

  /** The items of the token sequence `toks`, collected up to the first error, with `depth` loops open. */
  function Decode(toks: seq<string>, depth: nat): (r: Result<seq<Command>, Error>)
    decreases |toks|
  {
    if toks == [] then
      if depth > 0 then Err(MissingHoHoHO(depth)) else Ok([])
    else
      match DecodeToken(toks[0], depth)
      case (Err(e), _) => Err(e)
      case (Ok(c), depth') => PrependAll([c], Decode(toks[1..], depth'))
  }

  /** What `Program::parse` returns for a source text, as commands. */
  function Parsed(src: string): Result<seq<Command>, Error> {
    Decode(Tokens(src), 0)
  }

  /** Token `k` is a closer met when the valid tokens before it leave no loop open (from `d` open loops). */
  predicate OrphanAt(d: nat, toks: seq<string>, k: int) {
    && 0 <= k < |toks|
    && toks[k] == Triplet(JumpBackward)
    && Spelled(toks[..k]).Some?
    && OpenFrom(d, Spelled(toks[..k]).value)
    && d + Depth(Spelled(toks[..k]).value) == 0
  }

  /** Token `k` is the first token that is not a triplet, and no closer before it is an orphan. */
  predicate InvalidAt(d: nat, toks: seq<string>, k: int) {
    && 0 <= k < |toks|
    && FromStr(toks[k]).None?
    && Spelled(toks[..k]).Some?
    && OpenFrom(d, Spelled(toks[..k]).value)
  }

  lemma DepthCons(c: Command, cs: seq<Command>)
    ensures Depth([c] + cs) == Delta(c) + Depth(cs)
  {
    assert ([c] + cs)[1..] == cs;
  }

  /** `Depth` is the number of `JumpForward` minus the number of `JumpBackward`. */
  lemma {:induction false} DepthCounts(cs: seq<Command>)
    ensures Depth(cs) == multiset(cs)[JumpForward] as int - multiset(cs)[JumpBackward] as int
  {
    if cs != [] {
      assert cs == [cs[0]] + cs[1..];
      assert multiset(cs) == multiset([cs[0]]) + multiset(cs[1..]);
      DepthCounts(cs[1..]);
    }
  }

  lemma OpenFromCons(d: nat, c: Command, cs: seq<Command>)
    ensures OpenFrom(d, [c] + cs) <==> d + Delta(c) >= 0 && OpenFrom(d + Delta(c), cs)
  {
    assert ([c] + cs)[0] == c && ([c] + cs)[1..] == cs;
  }

  /** The walk never goes below zero exactly when no prefix does. */
  lemma {:induction false} OpenFromPrefixes(d: nat, cs: seq<Command>)
    ensures OpenFrom(d, cs) <==> forall k :: 0 <= k <= |cs| ==> d + Depth(cs[..k]) >= 0
    decreases |cs|
  {
    if cs == [] {
      assert cs[..0] == [];
    } else {
      var c, rest := cs[0], cs[1..];
      assert cs == [c] + rest;
      assert cs[..1] == [c] + rest[..0];
      assert rest[..0] == [];
      DepthCons(c, rest[..0]);
      if d + Delta(c) >= 0 {
        OpenFromPrefixes(d + Delta(c), rest);
        forall k | 0 <= k <= |rest|
          ensures Depth(cs[..k + 1]) == Delta(c) + Depth(rest[..k])
        {
          assert cs[..k + 1] == [c] + rest[..k];
          DepthCons(c, rest[..k]);
        }
        if OpenFrom(d, cs) {
          forall k | 0 <= k <= |cs| ensures d + Depth(cs[..k]) >= 0 {
            if k > 0 {
              assert d + Delta(c) + Depth(rest[..k - 1]) >= 0;
            } else {
              assert cs[..0] == [];
            }
          }
        }
      } else {
        assert d + Depth(cs[..1]) < 0;
      }
    }
  }

  /** A valid token with no orphan closer is decoded and the depth moves by its `Delta`. */
  lemma DecodeTokenValid(c: Command, d: nat)
    requires d + Delta(c) >= 0
    ensures DecodeToken(Triplet(c), d) == (Ok(c), d + Delta(c))
  {
    FromStrTriplet(c);
  }

  /** One step of `Decode` on a token that decodes to `c`. */
  lemma DecodeCons(toks: seq<string>, d: nat, c: Command, d': nat)
    requires toks != [] && DecodeToken(toks[0], d) == (Ok(c), d')
    ensures Decode(toks, d) == PrependAll([c], Decode(toks[1..], d'))
  {
  }

  /** The first step of `Decode`: an error ends it, a command goes in front of the rest. */
  lemma DecodeFirst(toks: seq<string>, d: nat)
    requires toks != []
    ensures DecodeToken(toks[0], d).0.Err? ==> Decode(toks, d) == Err(DecodeToken(toks[0], d).0.error)
    ensures DecodeToken(toks[0], d).0.Ok? ==>
      Decode(toks, d) == PrependAll([DecodeToken(toks[0], d).0.value], Decode(toks[1..], DecodeToken(toks[0], d).1))
  {
  }

  lemma PrependAllTwice(c: Command, cs: seq<Command>, r: Result<seq<Command>, Error>)
    ensures PrependAll([c], PrependAll(cs, r)) == PrependAll([c] + cs, r)
  {
    match r
    case Ok(rest) => assert [c] + (cs + rest) == ([c] + cs) + rest;
    case Err(_) =>
  }

  lemma SpellConsAppend(cs: seq<Command>, post: seq<string>)
    requires cs != []
    ensures (Spell(cs) + post)[0] == Triplet(cs[0])
    ensures (Spell(cs) + post)[1..] == Spell(cs[1..]) + post
  {
    assert Spell(cs) + post == [Triplet(cs[0])] + (Spell(cs[1..]) + post);
  }

  /** Decoding the spelling of `cs` leaves the commands `cs` in front of whatever follows. */
  lemma {:induction false} DecodeAppend(cs: seq<Command>, post: seq<string>, d: nat)
    requires OpenFrom(d, cs)
    ensures d + Depth(cs) >= 0
    ensures Decode(Spell(cs) + post, d) == PrependAll(cs, Decode(post, d + Depth(cs)))
  {
    if cs == [] {
      assert Spell(cs) + post == post;
      match Decode(post, d)
      case Ok(rest) => assert cs + rest == rest;
      case Err(_) =>
    } else {
      var c := cs[0];
      var rest := cs[1..];
      assert cs == [c] + rest;
      OpenFromCons(d, c, rest);
      DepthCons(c, rest);
      var d': nat := d + Delta(c);
      var toks := Spell(cs) + post;
      SpellConsAppend(cs, post);
      DecodeTokenValid(c, d);
      DecodeCons(toks, d, c, d');
      DecodeAppend(rest, post, d');
      PrependAllTwice(c, rest, Decode(post, d' + Depth(rest)));
    }
  }

  /** Extending a valid, orphan-free prefix by one valid token in front. */
  lemma SpelledConsPrefix(d: nat, toks: seq<string>, c: Command, k: nat)
    requires 0 < |toks| && FromStr(toks[0]) == Some(c) && d + Delta(c) >= 0
    requires k < |toks| && Spelled(toks[1..][..k]).Some?
    requires OpenFrom(d + Delta(c), Spelled(toks[1..][..k]).value)
    ensures Spelled(toks[..k + 1]) == Some([c] + Spelled(toks[1..][..k]).value)
    ensures OpenFrom(d, Spelled(toks[..k + 1]).value)
    ensures d + Depth(Spelled(toks[..k + 1]).value) == d + Delta(c) + Depth(Spelled(toks[1..][..k]).value)
  {
    var p := toks[..k + 1];
    assert p[0] == toks[0];
    assert p[1..] == toks[1..][..k];
    OpenFromCons(d, c, Spelled(toks[1..][..k]).value);
    DepthCons(c, Spelled(toks[1..][..k]).value);
  }

  /** One step of `Spelled` on a token that decodes to `c`. */
  lemma SpelledCons(toks: seq<string>, c: Command)
    requires toks != [] && FromStr(toks[0]) == Some(c)
    ensures Spelled(toks) == if Spelled(toks[1..]).Some? then Some([c] + Spelled(toks[1..]).value) else None
  {
  }

  /** What a successful `DecodeToken` says about its token, and what a failing one says. */
  lemma DecodeTokenOutcome(t: string, d: nat)
    ensures DecodeToken(t, d).0.Ok? ==>
      FromStr(t) == Some(DecodeToken(t, d).0.value) && DecodeToken(t, d).1 == d + Delta(DecodeToken(t, d).0.value)
    ensures DecodeToken(t, d).0 == Err(MissingHOHoHo) ==> FromStr(t) == Some(JumpBackward) && d == 0
    ensures DecodeToken(t, d).0.Err? && DecodeToken(t, d).0.error.InvalidTriplet? ==>
      FromStr(t).None? && DecodeToken(t, d).0.error.text == t
    ensures DecodeToken(t, d).0.Err? ==> DecodeToken(t, d).0.error.InvalidTriplet? || DecodeToken(t, d).0 == Err(MissingHOHoHo)
  {
  }

  /** A successful decode: every token is valid, no closer is an orphan and no loop is left open. */
  lemma {:induction false} DecodeOkOutcome(toks: seq<string>, d: nat)
    requires Decode(toks, d).Ok?
    ensures Spelled(toks) == Some(Decode(toks, d).value)
    ensures OpenFrom(d, Decode(toks, d).value) && d + Depth(Decode(toks, d).value) == 0
    decreases |toks|
  {
    if toks != [] {
      DecodeTokenOutcome(toks[0], d);
      var c := DecodeToken(toks[0], d).0.value;
      var d' := DecodeToken(toks[0], d).1;
      DecodeCons(toks, d, c, d');
      DecodeOkOutcome(toks[1..], d');
      var cs' := Decode(toks[1..], d').value;
      SpelledCons(toks, c);
      OpenFromCons(d, c, cs');
      DepthCons(c, cs');
    }
  }

  /** An unclosed-loop report: every token is valid, no closer is an orphan and `count > 0` loops are open. */
  lemma {:induction false} DecodeUnclosedOutcome(toks: seq<string>, d: nat)
    requires Decode(toks, d).Err? && Decode(toks, d).error.MissingHoHoHO?
    ensures Spelled(toks).Some? && OpenFrom(d, Spelled(toks).value)
    ensures Decode(toks, d).error.count == d + Depth(Spelled(toks).value) > 0
    decreases |toks|
  {
    if toks != [] {
      DecodeTokenOutcome(toks[0], d);
      var c := DecodeToken(toks[0], d).0.value;
      var d' := DecodeToken(toks[0], d).1;
      DecodeCons(toks, d, c, d');
      DecodeUnclosedOutcome(toks[1..], d');
      var cs' := Spelled(toks[1..]).value;
      SpelledCons(toks, c);
      OpenFromCons(d, c, cs');
      DepthCons(c, cs');
    }
  }

  /** An orphan-closer report: some closer was met with the valid tokens before it leaving no loop open. */
  lemma {:induction false} DecodeOrphanOutcome(toks: seq<string>, d: nat)
    requires Decode(toks, d) == Err(MissingHOHoHo)
    ensures exists k :: OrphanAt(d, toks, k)
    decreases |toks|
  {
    assert toks != [];
    assert toks[..0] == [];
    DecodeTokenOutcome(toks[0], d);
    if DecodeToken(toks[0], d).0.Err? {
      assert OrphanAt(d, toks, 0);
    } else {
      var c := DecodeToken(toks[0], d).0.value;
      var d' := DecodeToken(toks[0], d).1;
      DecodeCons(toks, d, c, d');
      DecodeOrphanOutcome(toks[1..], d');
      var k' :| OrphanAt(d', toks[1..], k');
      SpelledConsPrefix(d, toks, c, k');
      assert toks[k' + 1] == toks[1..][k'];
      assert OrphanAt(d, toks, k' + 1);
    }
  }

  /** An invalid-token report: the token is reached with every earlier token valid and no orphan closer. */
  lemma {:induction false} DecodeInvalidOutcome(toks: seq<string>, d: nat)
    requires Decode(toks, d).Err? && Decode(toks, d).error.InvalidTriplet?
    ensures exists k :: InvalidAt(d, toks, k) && toks[k] == Decode(toks, d).error.text
    decreases |toks|
  {
    assert toks != [];
    var t := Decode(toks, d).error.text;
    DecodeFirst(toks, d);
    DecodeTokenOutcome(toks[0], d);
    if DecodeToken(toks[0], d).0.Err? {
      assert toks[..0] == [];
      assert InvalidAt(d, toks, 0) && toks[0] == t;
    } else {
      var c := DecodeToken(toks[0], d).0.value;
      var d' := DecodeToken(toks[0], d).1;
      assert Decode(toks[1..], d') == Err(InvalidTriplet(t));
      DecodeInvalidOutcome(toks[1..], d');
      var k' :| InvalidAt(d', toks[1..], k') && toks[1..][k'] == t;
      SpelledConsPrefix(d, toks, c, k');
      assert toks[k' + 1] == toks[1..][k'];
      assert InvalidAt(d, toks, k' + 1);
    }
  }

  /** The spelling of a balanced command sequence decodes to that sequence. */
  lemma DecodeBalanced(cs: seq<Command>)
    requires Balanced(cs)
    ensures Decode(Spell(cs), 0) == Ok(cs)
  {
    OpenFromPrefixes(0, cs);
    DecodeAppend(cs, [], 0);
    assert Spell(cs) + [] == Spell(cs);
    assert cs + [] == cs;
  }

  /** Decoding succeeds exactly on the spelling of a balanced command sequence. */
  lemma DecodeOk(toks: seq<string>, cs: seq<Command>)
    ensures Decode(toks, 0) == Ok(cs) <==> toks == Spell(cs) && Balanced(cs)
  {
    if Decode(toks, 0) == Ok(cs) {
      DecodeOkOutcome(toks, 0);
      OpenFromPrefixes(0, cs);
    }
    if toks == Spell(cs) && Balanced(cs) {
      DecodeBalanced(cs);
    }
  }

  /** Decoding reports `n` open loops exactly when all tokens are valid, no closer is an orphan and `n > 0` openers remain. */
  lemma DecodeUnclosed(toks: seq<string>, n: nat)
    ensures Decode(toks, 0) == Err(MissingHoHoHO(n)) <==>
      Spelled(toks).Some? && NoOrphan(Spelled(toks).value) && n == Depth(Spelled(toks).value) && n > 0
  {
    if Decode(toks, 0) == Err(MissingHoHoHO(n)) {
      DecodeUnclosedOutcome(toks, 0);
      OpenFromPrefixes(0, Spelled(toks).value);
    }
    if Spelled(toks).Some? && NoOrphan(Spelled(toks).value) && n == Depth(Spelled(toks).value) && n > 0 {
      OpenFromPrefixes(0, Spelled(toks).value);
      DecodeAppend(Spelled(toks).value, [], 0);
      assert toks + [] == toks;
    }
  }

  /** Decoding goes through a valid, orphan-free first part `toks[..k]`, spelling `cs`, and carries on with the rest. */
  lemma DecodeSplit(toks: seq<string>, k: nat, cs: seq<Command>)
    requires k <= |toks| && toks[..k] == Spell(cs) && OpenFrom(0, cs)
    ensures Depth(cs) >= 0
    ensures Decode(toks, 0) == PrependAll(cs, Decode(toks[k..], Depth(cs)))
  {
    assert Spell(cs) + toks[k..] == toks;
    DecodeAppend(cs, toks[k..], 0);
  }

  /** Decoding reports an orphan closer exactly when some closer is met with no loop open; later tokens play no part. */
  lemma DecodeOrphan(toks: seq<string>)
    ensures Decode(toks, 0) == Err(MissingHOHoHo) <==> exists k :: OrphanAt(0, toks, k)
  {
    if Decode(toks, 0) == Err(MissingHOHoHo) {
      DecodeOrphanOutcome(toks, 0);
    }
    if k :| OrphanAt(0, toks, k) {
      DecodeSplit(toks, k, Spelled(toks[..k]).value);
      assert toks[k..][0] == Triplet(JumpBackward);
      FromStrTriplet(JumpBackward);
    }
  }

  /** Decoding reports the invalid token `t` exactly when `t` is reached with every earlier token valid and no orphan closer. */
  lemma DecodeInvalid(toks: seq<string>, t: string)
    ensures Decode(toks, 0) == Err(InvalidTriplet(t)) <==> exists k :: InvalidAt(0, toks, k) && toks[k] == t
  {
    if Decode(toks, 0) == Err(InvalidTriplet(t)) {
      DecodeInvalidOutcome(toks, 0);
    }
    if k :| InvalidAt(0, toks, k) && toks[k] == t {
      DecodeSplit(toks, k, Spelled(toks[..k]).value);
      assert toks[k..][0] == t;
    }
  }
}
