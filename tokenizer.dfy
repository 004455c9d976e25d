/**
 The tokenizer of `TripletParseIter::next` as a pure function: whitespace is
 skipped, the other characters accumulate in a buffer, and the buffer is cut
 off as a token exactly when its UTF-8 length is 6. A buffer that jumps over
 6 never gets cut again, so the rest of the input is swallowed; a buffer left
 over at the end of the input is dropped.
 */
module Tokenizer {
  import opened Commands
  import opened Text

  /** The tokens concatenated. */
  function Concat(ts: seq<string>): string {
    if ts == [] then [] else ts[0] + Concat(ts[1..])
  }

  /** The tokens cut from `s` when `buf` holds what was collected so far. */
  function Group(s: string, buf: string): seq<string>
    decreases |s|
  {
    if s == [] then []
    else
      var b := buf + [s[0]];
      if ByteLen(b) == 6 then [b] + Group(s[1..], [])
      else Group(s[1..], b)
  }

  /**
   Every token is six bytes long, the tokens are consecutive pieces of the
   input from its start, and no token holds whitespace if the input does not.
   */
  lemma {:induction false} GroupTokens(s: string, buf: string)
    ensures forall i :: 0 <= i < |Group(s, buf)| ==> ByteLen(Group(s, buf)[i]) == 6
    ensures Concat(Group(s, buf)) <= buf + s
    ensures NoWhitespace(buf) && NoWhitespace(s) ==>
      forall i :: 0 <= i < |Group(s, buf)| ==> NoWhitespace(Group(s, buf)[i])
    decreases |s|
  {
    if s != [] {
      var b := buf + [s[0]];
      assert buf + s == b + s[1..];
      if ByteLen(b) == 6 {
        GroupTokens(s[1..], []);
        assert Concat(Group(s, buf)) == b + Concat(Group(s[1..], []));
      } else {
        GroupTokens(s[1..], b);
      }
    }
  }

  /** The tokens of a source text. */
  function Tokens(src: string): seq<string> {
    Group(Strip(src), [])
  }

  /** Characters that add one byte each and are not whitespace, as in every triplet. */
  predicate Plain(s: string) {
    forall i :: 0 <= i < |s| ==> s[i] as int < 0x80 && !IsWhitespace(s[i])
  }

  lemma TripletPlain(c: Command)
    ensures Plain(Triplet(c))
  {
  }

  /** A buffer topped up to exactly six bytes by `t` is cut off right there. */
  lemma {:induction false} GroupCut(t: string, y: string, buf: string)
    requires t != [] && ByteLen(buf + t) == 6
    ensures Group(t + y, buf) == [buf + t] + Group(y, [])
    decreases |t|
  {
    var b := buf + [t[0]];
    assert (t + y)[0] == t[0];
    assert (t + y)[1..] == t[1..] + y;
    if |t| == 1 {
      assert t[1..] + y == y;
      assert b == buf + t;
    } else {
      assert b + t[1..] == buf + t;
      ByteLenConcat(b, t[1..]);
      GroupCut(t[1..], y, b);
    }
  }

  /** Tokenizing the text of a command sequence gives its triplets, and then carries on with what follows. */
  lemma {:induction false} GroupEncode(cs: seq<Command>, y: string)
    ensures Group(Encode(cs) + y, []) == Spell(cs) + Group(y, [])
  {
    if cs == [] {
      assert Encode(cs) + y == y;
    } else {
      TripletPlain(cs[0]);
      ByteLenAscii(Triplet(cs[0]));
      assert Encode(cs) + y == Triplet(cs[0]) + (Encode(cs[1..]) + y);
      assert [] + Triplet(cs[0]) == Triplet(cs[0]);
      GroupCut(Triplet(cs[0]), Encode(cs[1..]) + y, []);
      GroupEncode(cs[1..], y);
    }
  }

  /** Fewer than six bytes left, counting the buffer: nothing more is cut. */
  lemma {:induction false} GroupShort(s: string, buf: string)
    requires ByteLen(buf + s) < 6
    ensures Group(s, buf) == []
    decreases |s|
  {
    if s != [] {
      var b := buf + [s[0]];
      assert buf + s == b + s[1..];
      ByteLenConcat(b, s[1..]);
      GroupShort(s[1..], b);
    }
  }

  /** A buffer already past six bytes is never cut: the rest of the input is swallowed. */
  lemma {:induction false} GroupOverrun(s: string, buf: string)
    requires ByteLen(buf) > 6
    ensures Group(s, buf) == []
    decreases |s|
  {
    if s != [] {
      var b := buf + [s[0]];
      ByteLenConcat(buf, [s[0]]);
      GroupOverrun(s[1..], b);
    }
  }

  /**
   A character that takes the buffer from under six bytes to over six: no
   token is cut from there on, whatever follows.
   */
  lemma {:induction false} GroupJump(p: string, y: string, buf: string)
    requires p != [] && ByteLen(buf + p[..|p| - 1]) < 6 < ByteLen(buf + p)
    ensures Group(p + y, buf) == []
    decreases |p|
  {
    var b := buf + [p[0]];
    assert (p + y)[0] == p[0];
    assert (p + y)[1..] == p[1..] + y;
    if |p| == 1 {
      assert buf + p == b;
      GroupOverrun(y, b);
    } else {
      assert b + p[1..][..|p| - 2] == buf + p[..|p| - 1];
      assert b + p[1..] == buf + p;
      ByteLenConcat(b, p[1..][..|p| - 2]);
      GroupJump(p[1..], y, b);
    }
  }
}
