/** Quoting a user query as one FTS5 string, and reading it back. */
module Phrase {
  import opened Common

  function Quoted(c: char): string {
    if c == '"' then ['"', '"'] else [c]
  }

  /** Every double quote doubled. */
  function Doubled(s: string): string {
    if s == [] then [] else Quoted(s[0]) + Doubled(s[1..])
  }

  /** `fts_phrase_escape`. */
  function PhraseEscape(s: string): string {
    ['"'] + Doubled(s) + ['"']
  }

  /** A string read from the front of an FTS5 query, and what follows it. */
  datatype Token = Token(content: string, rest: string)

  /** The FTS5 string reader: a quote opens, a doubled quote is one quote, a single quote closes. */
  function ReadString(s: string): Option<Token> {
    if s == [] || s[0] != '"' then None else ReadBody(s[1..])
  }

  function ReadBody(s: string): Option<Token> {
    if s == [] then
      None
    else if s[0] == '"' && (|s| == 1 || s[1] != '"') then
      Some(Token([], s[1..]))
    else
      var width := if s[0] == '"' then 2 else 1;
      match ReadBody(s[width..])
      case None => None
      case Some(t) => Some(Token([s[0]] + t.content, t.rest))
  }

  /** Reading an escaped query gives back the query and stops right after it. */
  lemma EscapedReadsBack(s: string, rest: string)
    requires rest == [] || rest[0] != '"'
    ensures ReadString(PhraseEscape(s) + rest) == Some(Token(s, rest))
  {
    BodyReadsBack(s, rest);
    assert (PhraseEscape(s) + rest)[1..] == Doubled(s) + (['"'] + rest);
  }

  lemma {:induction false} BodyReadsBack(s: string, rest: string)
    requires rest == [] || rest[0] != '"'
    ensures ReadBody(Doubled(s) + (['"'] + rest)) == Some(Token(s, rest))
  {
    var tail := ['"'] + rest;
    if s == [] {
      assert Doubled(s) + tail == tail;
    } else {
      hide ReadBody, Doubled, Quoted;
      BodyReadsBack(s[1..], rest);
      DoubledFirst(s, tail);
      ReadOne(s[0], Doubled(s[1..]) + tail);
      assert [s[0]] + s[1..] == s;
    }
  }

  lemma {:induction false} DoubledFirst(s: string, tail: string)
    requires s != []
    ensures Doubled(s) + tail == Quoted(s[0]) + (Doubled(s[1..]) + tail)
  {
    hide Quoted;
  }

  /** One character, as it was escaped, reads as itself. */
  lemma {:induction false} ReadOne(c: char, t: string)
    requires ReadBody(t).Some?
    ensures ReadBody(Quoted(c) + t) == Some(Token([c] + ReadBody(t).value.content, ReadBody(t).value.rest))
  {
    assert (Quoted(c) + t)[|Quoted(c)|..] == t;
  }

  /** Conversely a complete FTS5 string is the escape of the query it reads as. */
  lemma ReadsBackEscaped(t: string, s: string)
    requires ReadString(t) == Some(Token(s, []))
    ensures t == PhraseEscape(s)
  {
    BodyIsDoubled(t[1..], s);
    assert t == ['"'] + t[1..];
  }

  lemma {:induction false} BodyIsDoubled(t: string, s: string)
    requires ReadBody(t) == Some(Token(s, []))
    ensures t == Doubled(s) + ['"']
  {
    if t[0] == '"' && (|t| == 1 || t[1] != '"') {
      assert t == ['"'] + t[1..];
    } else {
      var width := if t[0] == '"' then 2 else 1;
      BodyIsDoubled(t[width..], s[1..]);
      assert t == t[..width] + t[width..];
    }
  }

  /** Different queries are never confused. */
  lemma EscapeIsInjective(a: string, b: string)
    requires PhraseEscape(a) == PhraseEscape(b)
    ensures a == b
  {
    EscapedReadsBack(a, []);
    EscapedReadsBack(b, []);
    assert PhraseEscape(a) + [] == PhraseEscape(b) + [];
  }
}
