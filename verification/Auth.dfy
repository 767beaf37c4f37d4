/** The `AUTH <token>` line at the start of every pipe connection. */
module Auth {
  import opened Common
  import opened Utf8

  const MAX_AUTH_LINE_BYTES: nat := 1024
  const LF: byte := 10
  const CR: byte := 13
  const AUTH_PREFIX: seq<byte> := [65, 85, 84, 72, 32]

  /** How a stream ends once its bytes are read: the client closed it, or reading fails. */
  datatype Ending = Closed | Broken

  datatype ReadResult = Got(b: byte) | NoMore | ReadFailed

  datatype AuthResult = Accepted | Io | Eof | Malformed | BadToken | TooLong

  /** The pipe: the bytes not yet read, and what comes after them. */
  class Pipe {
    var unread: seq<byte>
    const ending: Ending

    constructor (unread: seq<byte>, ending: Ending)
      ensures this.unread == unread && this.ending == ending
    {
      this.unread := unread;
      this.ending := ending;
    }

    /** Read one byte. */
    method Read() returns (r: ReadResult)
      modifies this
      ensures old(unread) == [] ==> unread == [] && r == if ending.Closed? then NoMore else ReadFailed
      ensures old(unread) != [] ==> unread == old(unread)[1..] && r == Got(old(unread)[0])
    {
      if unread == [] {
        r := if ending.Closed? then NoMore else ReadFailed;
      } else {
        r := Got(unread[0]);
        unread := unread[1..];
      }
    }
  }

  /** Position of the first LF. */
  function FirstLf(bs: seq<byte>): (i: Option<nat>)
    ensures i.Some? ==> i.value < |bs| && bs[i.value] == LF && LF !in bs[..i.value]
    ensures i.None? ==> LF !in bs
  {
    if bs == [] then None
    else if bs[0] == LF then Some(0)
    else
      var rest := FirstLf(bs[1..]);
      if rest.None? then None
      else
        assert bs[..rest.value + 1] == [bs[0]] + bs[1..][..rest.value];
        Some(rest.value + 1)
  }

  /** One trailing CR dropped. */
  function DropCr(line: seq<byte>): seq<byte> {
    if line != [] && line[|line| - 1] == CR then line[..|line| - 1] else line
  }

  /** What a complete line is worth. */
  function Judge(line: seq<byte>, token: seq<byte>): AuthResult {
    var body := DropCr(line);
    if !IsUtf8(body) || !(AUTH_PREFIX <= body) then Malformed
    else if body[|AUTH_PREFIX|..] == token then Accepted
    else BadToken
  }

  /** Bytes a connection attempt takes from the stream. */
  function Consumed(stream: seq<byte>): nat {
    var lf := FirstLf(stream);
    if lf.Some? && lf.value <= MAX_AUTH_LINE_BYTES then lf.value + 1 else Min(|stream|, MAX_AUTH_LINE_BYTES + 1)
  }

  function Outcome(stream: seq<byte>, ending: Ending, token: seq<byte>): AuthResult {
    var lf := FirstLf(stream);
    if lf.Some? && lf.value <= MAX_AUTH_LINE_BYTES then Judge(stream[..lf.value], token)
    else if |stream| > MAX_AUTH_LINE_BYTES then TooLong
    else if ending.Closed? then Eof
    else Io
  }

  // -- comparison without early exit --------------------------------------------------------------------

  /** `a ^ b`, bit by bit. */
  function BitXor(a: nat, b: nat): nat {
    if a == 0 && b == 0 then 0 else 2 * BitXor(a / 2, b / 2) + (if a % 2 == b % 2 then 0 else 1)
  }

  /** `a | b`, bit by bit. */
  function BitOr(a: nat, b: nat): nat {
    if a == 0 && b == 0 then 0 else 2 * BitOr(a / 2, b / 2) + (if a % 2 == 0 && b % 2 == 0 then 0 else 1)
  }

  lemma {:induction false} XorZero(a: nat, b: nat)
    ensures BitXor(a, b) == 0 <==> a == b
    decreases a + b
  {
    if a > 0 || b > 0 {
      XorZero(a / 2, b / 2);
    }
  }

  lemma {:induction false} OrZero(a: nat, b: nat)
    ensures BitOr(a, b) == 0 <==> a == 0 && b == 0
    decreases a + b
  {
    if a > 0 || b > 0 {
      OrZero(a / 2, b / 2);
    }
  }

  /** Both stay within the eight bits of their operands. */
  lemma {:induction false} BitsFit(a: nat, b: nat, width: nat, bound: nat)
    requires a < bound && b < bound && bound == Pow2(width)
    ensures BitXor(a, b) < bound && BitOr(a, b) < bound
  {
    if width > 0 && (a > 0 || b > 0) {
      BitsFit(a / 2, b / 2, width - 1, bound / 2);
    }
  }

  function Pow2(n: nat): nat {
    if n == 0 then 1 else 2 * Pow2(n - 1)
  }

  /** The accumulated difference is zero exactly when the sequences are equal. */
  method ConstantTimeEq(a: seq<byte>, b: seq<byte>) returns (equal: bool)
    ensures equal <==> a == b
  {
    if |a| != |b| {
      return false;
    }
    var diff: byte := 0;
    for i := 0 to |a|
      invariant diff == 0 <==> a[..i] == b[..i]
    {
      var x := BitXor(a[i], b[i]);
      BitsFit(a[i], b[i], 8, 256);
      BitsFit(diff, x, 8, 256);
      XorZero(a[i], b[i]);
      OrZero(diff, x);
      assert a[..i + 1] == a[..i] + [a[i]] && b[..i + 1] == b[..i] + [b[i]];
      diff := BitOr(diff, x);
    }
    assert a[..|a|] == a && b[..|b|] == b;
    return diff == 0;
  }

  // -- the reader ---------------------------------------------------------------------------------------------

  /** Read up to the first LF; the outcome when that fails is `Eof`, `Io` or `TooLong`. */
  method ReadLine(pipe: Pipe) returns (line: seq<byte>, failure: Option<AuthResult>)
    modifies pipe
    ensures pipe.unread == old(pipe.unread)[Consumed(old(pipe.unread))..]
    ensures var lf := FirstLf(old(pipe.unread));
            if lf.Some? && lf.value <= MAX_AUTH_LINE_BYTES then failure.None? && line == old(pipe.unread)[..lf.value]
            else failure == Some(if |old(pipe.unread)| > MAX_AUTH_LINE_BYTES then TooLong
                                 else if pipe.ending.Closed? then Eof else Io)
  {
    hide FirstLf;
    ghost var stream := pipe.unread;
    line := [];
    while true
      invariant line + pipe.unread == stream
      invariant |line| <= MAX_AUTH_LINE_BYTES && LF !in line
      decreases |pipe.unread|
    {
      var read := pipe.Read();
      NextByte(stream, line);
      if read.NoMore? {
        return line, Some(Eof);
      }
      if read.ReadFailed? {
        return line, Some(Io);
      }
      if read.b == LF {
        return line, None;
      }
      if |line| >= MAX_AUTH_LINE_BYTES {
        return line, Some(TooLong);
      }
      line := line + [read.b];
    }
  }

  /** `consume_auth_line`. */
  method ConsumeAuthLine(pipe: Pipe, expected_token: seq<byte>) returns (r: AuthResult)
    modifies pipe
    ensures r == Outcome(old(pipe.unread), pipe.ending, expected_token)
    ensures pipe.unread == old(pipe.unread)[Consumed(old(pipe.unread))..]
  {
    hide FirstLf, IsUtf8, Consumed;
    var line, failure := ReadLine(pipe);
    if failure.Some? {
      return failure.value;
    }
    if line != [] && line[|line| - 1] == CR {
      line := line[..|line| - 1];
    }
    if !IsUtf8(line) {
      return Malformed;
    }
    if !(AUTH_PREFIX <= line) {
      return Malformed;
    }
    var token := line[|AUTH_PREFIX|..];
    var same := ConstantTimeEq(token, expected_token);
    r := if same then Accepted else BadToken;
  }

  /** Where the first LF is when the stream starts with an LF-free `line`. */
  lemma {:induction false} NextByte(stream: seq<byte>, line: seq<byte>)
    requires line <= stream && LF !in line
    ensures |line| < |stream| && stream[|line|] == LF ==> FirstLf(stream) == Some(|line|)
    ensures |line| == |stream| ==> FirstLf(stream) == None
    ensures |line| < |stream| && stream[|line|] != LF && FirstLf(stream).Some? ==> FirstLf(stream).value > |line|
  {
    if line != [] {
      assert stream[0] == line[0];
      NextByte(stream[1..], line[1..]);
    }
  }

  // -- what is accepted ------------------------------------------------------------------------------------------

  /**
   * A connection is accepted exactly when its first LF comes after at most 1024 bytes that, without one optional
   * trailing CR, are `AUTH ` and the token.
   */
  lemma {:induction false} AcceptedExactlyWhen(stream: seq<byte>, ending: Ending, token: string)
    ensures Outcome(stream, ending, Encode(token)) == Accepted <==>
            && FirstLf(stream).Some? && FirstLf(stream).value <= 1024
            && DropCr(stream[..FirstLf(stream).value]) == [65, 85, 84, 72, 32] + Encode(token)
  {
    EncodedIsUtf8(token);
    AsciiPrefix(AUTH_PREFIX, Encode(token));
    if FirstLf(stream).Some? {
      var body := DropCr(stream[..FirstLf(stream).value]);
      if AUTH_PREFIX <= body {
        assert body == AUTH_PREFIX + body[|AUTH_PREFIX|..];
      }
      if body == AUTH_PREFIX + Encode(token) {
        assert body[|AUTH_PREFIX|..] == Encode(token);
      }
    }
  }

  /** Without a complete line in its first 1025 bytes an attempt is refused for how the stream ends. */
  lemma {:induction false} IncompleteExactlyWhen(stream: seq<byte>, ending: Ending, token: seq<byte>)
    ensures var got, lf := Outcome(stream, ending, token), FirstLf(stream);
            var complete := lf.Some? && lf.value <= 1024;
            && (got == TooLong <==> !complete && |stream| >= 1025)
            && (got == Eof <==> !complete && |stream| <= 1024 && ending.Closed?)
            && (got == Io <==> !complete && |stream| <= 1024 && ending.Broken?)
  {
    hide FirstLf, IsUtf8, DropCr;
  }

  /** With one the line is malformed if it is not text or lacks the prefix; its token is bad if another one follows. */
  lemma {:induction false} RefusedExactlyWhen(stream: seq<byte>, ending: Ending, token: seq<byte>)
    requires FirstLf(stream).Some? && FirstLf(stream).value <= 1024
    ensures var got, body := Outcome(stream, ending, token), DropCr(stream[..FirstLf(stream).value]);
            && (got == Malformed <==>
                  (forall text :: body != Encode(text)) || |body| < 5 || body[..5] != [65, 85, 84, 72, 32])
            && (got == BadToken <==>
                  && (exists text :: body == Encode(text))
                  && |body| >= 5 && body[..5] == [65, 85, 84, 72, 32] && body[5..] != token)
  {
    hide FirstLf, DropCr, IsUtf8;
    var body := DropCr(stream[..FirstLf(stream).value]);
    Utf8Exactly(body);
    if |body| >= 5 && body[..5] == [65, 85, 84, 72, 32] {
      assert AUTH_PREFIX <= body;
    }
  }

  /** Whatever the outcome, at most 1025 bytes are taken, and on acceptance exactly those up to the first LF. */
  lemma {:induction false} TakesNoMoreThanTheLine(stream: seq<byte>, ending: Ending, token: seq<byte>)
    ensures Consumed(stream) <= 1025
    ensures Outcome(stream, ending, token) == Accepted ==>
              FirstLf(stream).Some? && Consumed(stream) == FirstLf(stream).value + 1
  {
  }

  /** A client that sends the line in either form is let in and loses nothing of what follows. */
  lemma {:induction false} GoodClientAdmitted(token: string, crlf: bool, rest: seq<byte>, ending: Ending)
    requires LF !in Encode(token) && |Encode(token)| <= if crlf then 1018 else 1019
    requires !crlf ==> Encode(token) == [] || Encode(token)[|Encode(token)| - 1] != CR
    ensures var line := AUTH_PREFIX + Encode(token) + (if crlf then [CR] else []);
            var stream := line + [LF] + rest;
            Outcome(stream, ending, Encode(token)) == Accepted && stream[Consumed(stream)..] == rest
  {
    var line := AUTH_PREFIX + Encode(token) + (if crlf then [CR] else []);
    var stream := line + [LF] + rest;
    assert LF !in line;
    NextByte(stream, line);
    assert stream[..|line|] == line;
    AcceptedExactlyWhen(stream, ending, token);
  }
}
