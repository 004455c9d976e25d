/**
 `TripletParseIter` as a class with the iterator's four fields, and
 `Program::parse` as a loop that pulls items from it until the first error
 or the end. Both are proved against the pure `Decode(Tokens(source), 0)`.
 */
module ParseIter {
  import opened Wrappers
  import opened Commands
  import opened Text
  import opened Tokenizer
  import opened Decoder

  class TripletParseIter {
    /** The source text; `pos` is how far the character iterator has got. */
    const source: string
    var pos: nat
    /** The non-whitespace characters collected since `next` was last called. */
    var commandBuf: string
    /** One unit per open loop. */
    var jumpStack: seq<()>
    var done: bool

    ghost predicate Valid()
      reads this`pos
    {
      pos <= |source|
    }

    /** The tokens the rest of the source is cut into. */
    ghost function Pending(): seq<string>
      reads this`pos
      requires Valid()
    {
      Tokens(source[pos..])
    }

    /** What the remaining calls of `Next` yield: the commands up to the first error, or the error. */
    ghost function Remaining(): Result<seq<Command>, Error>
      reads this`pos, this`jumpStack, this`done
      requires Valid()
    {
      if done then Ok([]) else Decode(Pending(), |jumpStack|)
    }

    constructor (source: string)
      ensures Valid() && this.source == source
      ensures pos == 0 && commandBuf == [] && jumpStack == [] && !done
      ensures Remaining() == Parsed(source)
    {
      this.source := source;
      pos := 0;
      commandBuf := [];
      jumpStack := [];
      done := false;
      new;
      assert source[0..] == source;
    }

    /** Decodes the buffer and pushes or pops the jump stack. */
    method TryMatchTriplet() returns (r: Result<Command, Error>)
      modifies this`jumpStack
      ensures (r, |jumpStack|) == DecodeToken(commandBuf, |old(jumpStack)|)
    {
      var parsed := FromStr(commandBuf);
      if parsed.None? {
        return Err(InvalidTriplet(commandBuf));
      }
      var cmd := parsed.value;
      if cmd == JumpForward {
        jumpStack := jumpStack + [()];
      } else if cmd == JumpBackward {
        if |jumpStack| == 0 {
          return Err(MissingHOHoHo);
        }
        jumpStack := jumpStack[..|jumpStack| - 1];
      }
      return Ok(cmd);
    }

    /** The iterator's `next`: `None` once finished, otherwise the next command or an error. */
    method Next() returns (item: Option<Result<Command, Error>>)
      requires Valid()
      modifies this
      ensures Valid()
      // a finished iterator stays finished and changes nothing
      ensures old(done) ==>
        && item == None && done
        && pos == old(pos) && commandBuf == old(commandBuf) && jumpStack == old(jumpStack)
      // the source ran out before a token was complete: the partial buffer is dropped
      ensures !old(done) && old(Pending()) == [] ==>
        && pos == |source| && commandBuf == Strip(source[old(pos)..]) && jumpStack == old(jumpStack)
        && if jumpStack == [] then item == None && done
           else item == Some(Err(MissingHoHoHO(|jumpStack|))) && !done
      // a token of six bytes was cut off and decoded
      ensures !old(done) && old(Pending()) != [] ==>
        && old(pos) < pos && !IsWhitespace(source[pos - 1])
        && commandBuf == Strip(source[old(pos)..pos]) && ByteLen(commandBuf) == 6
        && commandBuf == old(Pending())[0] && Pending() == old(Pending())[1..]
        && item.Some? && (item.value, |jumpStack|) == DecodeToken(commandBuf, |old(jumpStack)|)
        && done == item.value.Err?
      // against the specification
      ensures item == None ==> old(Remaining()) == Ok([]) && Remaining() == Ok([])
      ensures item.Some? && item.value.Ok? ==> old(Remaining()) == PrependAll([item.value.value], Remaining())
      ensures item.Some? && item.value.Err? ==> old(Remaining()) == Err(item.value.error)
    {
      if done {
        return None;
      }
      ghost var toks0 := Pending();
      ghost var depth0 := |jumpStack|;
      commandBuf := [];
      var full := FillBuffer();
      if full {
        assert toks0 == [commandBuf] + Pending() && toks0 != [];
        var res := TryMatchTriplet();
        DecodeStep(toks0, commandBuf, Pending(), depth0, |jumpStack|, res);
        if res.Err? {
          done := true;
        }
        return Some(res);
      }
      assert toks0 == [];
      assert source[old(pos)..pos] == source[old(pos)..];
      item := EndOfInput();
    }

    /** What `next` does once the source has run out: report the loops still open, or finish. */
    method EndOfInput() returns (item: Option<Result<Command, Error>>)
      requires Valid() && pos == |source| && !done
      modifies this`done
      ensures Pending() == []
      ensures if jumpStack == [] then item == None && done
        else item == Some(Err(MissingHoHoHO(|jumpStack|))) && !done
      ensures item == None ==> old(Remaining()) == Ok([]) && Remaining() == Ok([])
      ensures item.Some? ==> item.value.Err? && old(Remaining()) == Err(item.value.error)
    {
      assert Pending() == [] by {
        assert source[pos..] == [];
      }
      if |jumpStack| > 0 {
        return Some(Err(MissingHoHoHO(|jumpStack|)));
      }
      done := true;
      return None;
    }

    /**
     The `for` loop of `next`: skips whitespace and pushes the other
     characters until the buffer is six bytes long or the source runs out.
     */
    method FillBuffer() returns (full: bool)
      requires Valid() && commandBuf == []
      modifies this`pos, this`commandBuf
      ensures Valid() && old(pos) <= pos
      ensures commandBuf == Strip(source[old(pos)..pos])
      ensures full ==>
        && old(pos) < pos && !IsWhitespace(source[pos - 1]) && ByteLen(commandBuf) == 6
        && old(Pending()) == [commandBuf] + Pending()
      ensures !full ==> pos == |source| && old(Pending()) == []
    {
      ghost var start := pos;
      ghost var toks0 := Pending();
      assert source[start..start] == [];
      while pos < |source|
        invariant start <= pos <= |source|
        invariant commandBuf == Strip(source[start..pos])
        invariant toks0 == Group(Strip(source[pos..]), commandBuf)
      {
        var c := source[pos];
        ScanStep(source, start, pos, commandBuf);
        pos := pos + 1;
        if IsWhitespace(c) {
          continue;
        }
        commandBuf := commandBuf + [c];
        if ByteLen(commandBuf) == 6 {
          return true;
        }
      }
      assert source[pos..] == [];
      return false;
    }
  }

  /** One character of the iterator's loop: how the buffer and the tokens still to come move on. */
  lemma ScanStep(source: string, start: nat, pos: nat, buf: string)
    requires start <= pos < |source| && buf == Strip(source[start..pos])
    ensures Strip(source[start..pos + 1]) == if IsWhitespace(source[pos]) then buf else buf + [source[pos]]
    ensures Group(Strip(source[pos..]), buf) ==
      if IsWhitespace(source[pos]) then Group(Strip(source[pos + 1..]), buf)
      else if ByteLen(buf + [source[pos]]) == 6 then [buf + [source[pos]]] + Group(Strip(source[pos + 1..]), [])
      else Group(Strip(source[pos + 1..]), buf + [source[pos]])
  {
    var c := source[pos];
    assert source[start..pos + 1] == source[start..pos] + [c];
    StripConcat(source[start..pos], [c]);
    assert source[pos..] == [c] + source[pos + 1..];
    assert Strip(source[pos..]) == (if IsWhitespace(c) then [] else [c]) + Strip(source[pos + 1..]);
    if !IsWhitespace(c) {
      assert Strip(source[pos..])[0] == c;
      assert Strip(source[pos..])[1..] == Strip(source[pos + 1..]);
    }
  }

  /** One item of the iterator against the decoding of all tokens still to come. */
  lemma DecodeStep(toks: seq<string>, tok: string, rest: seq<string>, d: nat, d': nat, res: Result<Command, Error>)
    requires toks == [tok] + rest && (res, d') == DecodeToken(tok, d)
    ensures res.Ok? ==> Decode(toks, d) == PrependAll([res.value], Decode(rest, d'))
    ensures res.Err? ==> Decode(toks, d) == Err(res.error)
  {
    DecodeFirst(toks, d);
    assert toks[1..] == rest;
  }

  lemma PrependAllAppend(cs: seq<Command>, c: Command, r: Result<seq<Command>, Error>)
    ensures PrependAll(cs, PrependAll([c], r)) == PrependAll(cs + [c], r)
  {
    match r
    case Ok(rest) => assert cs + ([c] + rest) == (cs + [c]) + rest;
    case Err(_) =>
  }

  /** `Program::parse`: collects the iterator's items, stopping at the first error. */
  method Parse(source: string) returns (r: Result<Program, Error>)
    ensures r.Ok? <==> Parsed(source).Ok?
    ensures r.Ok? ==> r.value.commands == Parsed(source).value
    ensures r.Err? ==> r.error == Parsed(source).error
  {
    var iter := new TripletParseIter(source);
    var commands: seq<Command> := [];
    match Parsed(source) {
      case Ok(cs) => assert commands + cs == cs;
      case Err(_) =>
    }
    while true
      invariant iter.Valid() && iter.source == source && !iter.done
      invariant PrependAll(commands, iter.Remaining()) == Parsed(source)
      decreases |source| - iter.pos
    {
      var item := iter.Next();
      match item {
        case None =>
          assert commands + [] == commands;
          return Ok(Program(commands));
        case Some(Err(e)) =>
          return Err(e);
        case Some(Ok(c)) =>
          PrependAllAppend(commands, c, iter.Remaining());
          commands := commands + [c];
      }
    }
  }
}
