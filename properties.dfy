/**
 Properties of `Program::parse` and `to_brainfuck` stated on source texts:
 what parsing the text of a command sequence gives, how whitespace and a
 trailing partial triplet are treated, and which text each error names.
 */
module Properties {
  import opened Wrappers
  import opened Commands
  import opened Text
  import opened Tokenizer
  import opened Decoder
  import opened Transpiler

  /** The text of a command sequence holds no whitespace. */
  lemma {:induction false} EncodeNoWhitespace(cs: seq<Command>)
    ensures NoWhitespace(Encode(cs))
  {
    if cs != [] {
      TripletPlain(cs[0]);
      EncodeNoWhitespace(cs[1..]);
      var t, e := Triplet(cs[0]), Encode(cs[1..]);
      forall i | 0 <= i < |t + e| ensures !IsWhitespace((t + e)[i]) {
        if i >= |t| {
          assert (t + e)[i] == e[i - |t|];
        }
      }
    }
  }

  /** The tokens of the text of `cs` followed by `rest` are the triplets of `cs`, then the tokens of `rest`. */
  lemma TokensEncode(cs: seq<Command>, rest: string)
    ensures Tokens(Encode(cs) + rest) == Spell(cs) + Tokens(rest)
  {
    StripConcat(Encode(cs), rest);
    EncodeNoWhitespace(cs);
    StripNoWhitespace(Encode(cs));
    GroupEncode(cs, Strip(rest));
  }

  /** The text of `cs`, then whitespace-free `t`, then `rest`: the triplets of `cs`, then the tokens cut from `t` onwards. */
  lemma TokensEncodeText(cs: seq<Command>, t: string, rest: string)
    requires NoWhitespace(t)
    ensures Tokens(Encode(cs) + t + rest) == Spell(cs) + Group(t + Strip(rest), [])
  {
    EncodeNoWhitespace(cs);
    StripNoWhitespace(Encode(cs));
    StripNoWhitespace(t);
    TokensKeep(Encode(cs), t, rest);
    GroupEncode(cs, t + Strip(rest));
  }

  /** Text that stripping keeps as it is, followed by `rest`: only `rest` loses its whitespace. */
  lemma TokensKeep(e: string, t: string, rest: string)
    requires Strip(e) == e && Strip(t) == t
    ensures Tokens(e + t + rest) == Group(e + (t + Strip(rest)), [])
  {
    StripConcat(e, t);
    StripConcat(e + t, rest);
    ConcatAssoc(e, t, Strip(rest));
  }

  lemma ConcatAssoc(a: string, b: string, c: string)
    ensures a + b + c == a + (b + c)
  {
  }

  /** Decoding goes through the triplets of an orphan-free `cs` and carries on with `Depth(cs)` loops open. */
  lemma DecodeAfter(cs: seq<Command>, post: seq<string>)
    requires NoOrphan(cs)
    ensures Depth(cs) >= 0
    ensures Decode(Spell(cs) + post, 0) == PrependAll(cs, Decode(post, Depth(cs)))
  {
    OpenFromPrefixes(0, cs);
    DecodeAppend(cs, post, 0);
  }

  /** Every token is six bytes without whitespace, and the tokens read back to back are a prefix of the stripped text. */
  lemma TokensShape(src: string)
    ensures forall i :: 0 <= i < |Tokens(src)| ==> ByteLen(Tokens(src)[i]) == 6 && NoWhitespace(Tokens(src)[i])
    ensures Concat(Tokens(src)) <= Strip(src)
  {
    StripHasNoWhitespace(src);
    GroupTokens(Strip(src), []);
    assert [] + Strip(src) == Strip(src);
  }

  /** Parsing the text of `cs` gives back `cs` exactly when its loops are balanced. */
  lemma ParseEncode(cs: seq<Command>)
    ensures Parsed(Encode(cs)) == Ok(cs) <==> Balanced(cs)
  {
    TokensEncode(cs, []);
    assert Encode(cs) + [] == Encode(cs);
    assert Spell(cs) + [] == Spell(cs);
    DecodeOk(Spell(cs), cs);
  }

  /** A successful parse gives commands whose triplets are the tokens of the text and whose loops are balanced. */
  lemma ParseOk(src: string, cs: seq<Command>)
    ensures Parsed(src) == Ok(cs) <==> Tokens(src) == Spell(cs) && Balanced(cs)
  {
    DecodeOk(Tokens(src), cs);
  }

  /** Parsing the text of an orphan-free `cs` reports exactly its `Depth(cs)` unclosed openers, if any. */
  lemma ParseUnclosed(cs: seq<Command>, n: nat)
    ensures Parsed(Encode(cs)) == Err(MissingHoHoHO(n)) <==> NoOrphan(cs) && n == Depth(cs) && n > 0
  {
    TokensEncode(cs, []);
    assert Encode(cs) + [] == Encode(cs);
    assert Spell(cs) + [] == Spell(cs);
    SpelledSpell(cs);
    DecodeUnclosed(Spell(cs), n);
  }

  lemma {:induction false} SpelledSpell(cs: seq<Command>)
    ensures Spelled(Spell(cs)) == Some(cs)
  {
    if cs != [] {
      FromStrTriplet(cs[0]);
      assert Spell(cs)[0] == Triplet(cs[0]);
      assert Spell(cs)[1..] == Spell(cs[1..]);
      SpelledSpell(cs[1..]);
      SpelledCons(Spell(cs), cs[0]);
      assert [cs[0]] + cs[1..] == cs;
    }
  }

  /** A closer after a balanced part is reported as an orphan, whatever text follows it. */
  lemma ParseOrphan(cs: seq<Command>, rest: string)
    requires Balanced(cs)
    ensures Parsed(Encode(cs) + Triplet(JumpBackward) + rest) == Err(MissingHOHoHo)
  {
    var jb := Triplet(JumpBackward);
    TripletPlain(JumpBackward);
    ByteLenAscii(jb);
    TokensEncodeText(cs, jb, rest);
    assert [] + jb == jb;
    GroupCut(jb, Strip(rest), []);
    var post := [jb] + Tokens(rest);
    DecodeAfter(cs, post);
    FromStrTriplet(JumpBackward);
    DecodeFirst(post, 0);
  }

  /** A six-byte token that is not a triplet, after an orphan-free part, is the error reported, whatever follows it. */
  lemma ParseInvalidAfter(cs: seq<Command>, t: string, rest: string)
    requires NoOrphan(cs) && ByteLen(t) == 6 && NoWhitespace(t) && FromStr(t).None?
    ensures Parsed(Encode(cs) + t + rest) == Err(InvalidTriplet(t))
  {
    assert t != [];
    TokensEncodeText(cs, t, rest);
    assert [] + t == t;
    GroupCut(t, Strip(rest), []);
    var post := [t] + Tokens(rest);
    DecodeAfter(cs, post);
    DecodeFirst(post, Depth(cs));
  }

  /** An `InvalidTriplet` error carries a six-byte token of the text, without whitespace, that spells no command. */
  lemma ParseInvalid(src: string, t: string)
    requires Parsed(src) == Err(InvalidTriplet(t))
    ensures t in Tokens(src) && ByteLen(t) == 6 && NoWhitespace(t)
    ensures forall c: Command :: Triplet(c) != t
  {
    DecodeInvalid(Tokens(src), t);
    TokensShape(src);
  }

  /** Whitespace anywhere in the text, even inside a triplet, does not change what is parsed. */
  lemma WhitespaceInsignificant(a: string, w: string, b: string)
    requires AllWhitespace(w)
    ensures Parsed(a + w + b) == Parsed(a + b)
  {
    StripConcat(a + w, b);
    StripConcat(a, w);
    StripConcat(a, b);
    StripAllWhitespace(w);
    assert Strip(a) + [] == Strip(a);
  }

  /** Parsing only looks at the text without its whitespace. */
  lemma ParseStrip(src: string)
    ensures Parsed(Strip(src)) == Parsed(src)
  {
    StripIdempotent(src);
  }

  /** Fewer than six bytes of non-whitespace text left over at the end play no part. */
  lemma TrailingDropped(cs: seq<Command>, tail: string)
    requires ByteLen(Strip(tail)) < 6
    ensures Parsed(Encode(cs) + tail) == Parsed(Encode(cs))
  {
    TokensEncode(cs, tail);
    TokensEncode(cs, []);
    assert Encode(cs) + [] == Encode(cs);
    assert [] + Strip(tail) == Strip(tail);
    GroupShort(Strip(tail), []);
  }

  /**
   A run of text whose last character takes the buffer from under six bytes
   to over six (a multi-byte character): that token is never cut, and
   neither is any later one.
   */
  lemma OverrunSwallows(cs: seq<Command>, p: string, rest: string)
    requires p != [] && NoWhitespace(p) && ByteLen(p[..|p| - 1]) < 6 < ByteLen(p)
    ensures Parsed(Encode(cs) + p + rest) == Parsed(Encode(cs))
  {
    TokensEncodeText(cs, p, rest);
    assert [] + p == p;
    assert [] + p[..|p| - 1] == p[..|p| - 1];
    GroupJump(p, Strip(rest), []);
    TokensEncode(cs, []);
    assert Encode(cs) + [] == Encode(cs);
    assert Spell(cs) + [] == Spell(cs);
  }

  /** The Brainfuck text of a successful parse has balanced brackets, as the Brainfuck parser needs. */
  lemma ParsedBrackets(src: string)
    requires Parsed(src).Ok?
    ensures |ToBrainfuck(Parsed(src).value)| == |Tokens(src)|
    ensures BracketsBalanced(ToBrainfuck(Parsed(src).value))
  {
    DecodeOk(Tokens(src), Parsed(src).value);
    BalancedIffBrackets(Parsed(src).value);
  }

  /** `HOHOHO` alone is one increment, `+` in Brainfuck. */
  lemma ExampleIncrement()
    ensures Parsed("HOHOHO") == Ok([IncrementCell])
    ensures ToBrainfuck([IncrementCell]) == "+"
  {
    var cs := [IncrementCell];
    assert Encode(cs) == "HOHOHO" by {
      assert cs[1..] == [];
    }
    assert Balanced(cs) by {
      OpenFromPrefixes(0, cs);
      assert cs[1..] == [];
    }
    ParseEncode(cs);
    assert ToBrainfuck(cs)[0] == '+';
  }

  /** An opener and its closer: an empty loop, `[]` in Brainfuck. */
  lemma ExampleLoop()
    ensures Parsed("HOHoHoHoHoHO") == Ok([JumpForward, JumpBackward])
    ensures ToBrainfuck([JumpForward, JumpBackward]) == "[]"
  {
    var cs := [JumpForward, JumpBackward];
    assert Encode(cs) == "HOHoHoHoHoHO" by {
      assert cs[1..] == [JumpBackward];
      assert cs[1..][1..] == [];
    }
    assert Balanced(cs) by {
      OpenFromPrefixes(0, cs);
      assert cs[1..] == [JumpBackward];
      assert cs[1..][1..] == [];
    }
    ParseEncode(cs);
    assert ToBrainfuck(cs)[0] == '[' && ToBrainfuck(cs)[1] == ']';
  }

  /** A closer with no opener before it. */
  lemma ExampleOrphan()
    ensures Parsed("HoHoHO") == Err(MissingHOHoHo)
  {
    var none: seq<Command> := [];
    assert Encode(none) + Triplet(JumpBackward) + [] == "HoHoHO";
    ParseOrphan(none, []);
  }

  /** An opener never closed, with or without two stray bytes after it. */
  lemma ExampleUnclosed()
    ensures Parsed("HOHoHo") == Err(MissingHoHoHO(1))
    ensures Parsed("HOHoHoab") == Err(MissingHoHoHO(1))
  {
    var cs := [JumpForward];
    assert Encode(cs) == "HOHoHo" by {
      assert cs[1..] == [];
    }
    assert NoOrphan(cs) && Depth(cs) == 1 by {
      OpenFromPrefixes(0, cs);
      assert cs[1..] == [];
    }
    ParseUnclosed(cs, 1);
    assert Strip("ab") == "ab";
    TrailingDropped(cs, "ab");
    assert Encode(cs) + "ab" == "HOHoHoab";
  }

  /** Six bytes that are no triplet are reported as they are. */
  lemma ExampleInvalid()
    ensures Parsed("ABCDEF") == Err(InvalidTriplet("ABCDEF"))
  {
    var none: seq<Command> := [];
    ByteLenAscii("ABCDEF");
    assert Encode(none) + "ABCDEF" + [] == "ABCDEF";
    ParseInvalidAfter(none, "ABCDEF", []);
  }

  /** A line break inside a triplet is skipped. */
  lemma ExampleWhitespace()
    ensures Parsed("HOH\nOHO") == Ok([IncrementCell])
  {
    WhitespaceInsignificant("HOH", "\n", "OHO");
    assert "HOH" + "\n" + "OHO" == "HOH\nOHO";
    assert "HOH" + "OHO" == "HOHOHO";
    ExampleIncrement();
  }

  /** A two-byte character takes the buffer from five bytes to seven: the closer after it is never read. */
  lemma ExampleOverrun()
    ensures Parsed("HOHOH\U{e9}HoHoHO") == Ok([])
  {
    var none: seq<Command> := [];
    var p := "HOHOH\U{e9}";
    ByteLenAscii(p[..5]);
    ByteLenConcat(p[..5], p[5..]);
    assert p[..5] + p[5..] == p;
    OverrunSwallows(none, p, "HoHoHO");
    assert Encode(none) + p + "HoHoHO" == "HOHOH\U{e9}HoHoHO";
    assert Encode(none) == [];
  }
}
