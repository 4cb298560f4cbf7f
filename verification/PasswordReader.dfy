/**
 * SystemIOConsole.doReadPassword: reading up to a line terminator into a buffer that grows by reallocation,
 * with a lookahead after a carriage return.
 */
module PasswordReader {
  import opened Wrappers

  const BUFSIZE := 128

  /** A byte read from a stream, as a character. */
  type Byte = c: char | c as int < 256 witness '\0'

  const NEWLINE: char := '\n'
  const RETURN: char := '\r'

  // ---------------------------------------------------------------- the line

  /** The input is at a terminator: a newline, a return followed by a newline or by the end, or the end itself. */
  predicate AtEnd(rest: seq<Byte>) {
    rest == [] || rest[0] == NEWLINE || (rest[0] == RETURN && (|rest| == 1 || rest[1] == NEWLINE))
  }

  /** The characters before the first terminator. */
  function Line(rest: seq<Byte>): seq<Byte> {
    if AtEnd(rest) then [] else [rest[0]] + Line(rest[1..])
  }

  /** That is: the only prefix that ends at a terminator and meets none before. */
  lemma {:induction false} LineIsFirst(input: seq<Byte>, n: nat)
    requires n <= |input|
    ensures Line(input) == input[..n] <==> AtEnd(input[n..]) && forall i :: 0 <= i < n ==> !AtEnd(input[i..])
    decreases n
  {
    assert input[0..] == input;
    if n > 0 {
      if !AtEnd(input) {
        var rest := input[1..];
        LineIsFirst(rest, n - 1);
        assert input[..n] == [input[0]] + rest[..n - 1] && rest[n - 1..] == input[n..];
        assert forall i :: 0 <= i < n - 1 ==> rest[i..] == input[i + 1..];
        assert ([input[0]] + Line(rest))[1..] == Line(rest) && input[..n][1..] == rest[..n - 1];
        if forall i :: 0 <= i < n - 1 ==> !AtEnd(rest[i..]) {
          forall i | 0 <= i < n ensures !AtEnd(input[i..]) {
            if i > 0 {
              assert input[i..] == rest[i - 1..];
            }
          }
        }
        if forall i :: 0 <= i < n ==> !AtEnd(input[i..]) {
          forall i | 0 <= i < n - 1 ensures !AtEnd(rest[i..]) {
            assert rest[i..] == input[i + 1..];
          }
        }
      }
    }
  }

  // ---------------------------------------------------------------- the streams

  /** System.in, and the PushbackInputStream wrapped around it on the first unread, with room for one character. */
  class Input {
    const bytes: seq<Byte>
    var position: nat
    var wrapped: bool
    var pushed: Option<Byte>

    /** What is still to be read. */
    ghost function Rest(): seq<Byte>
      requires Valid()
      reads this
    {
      (if pushed.Some? then [pushed.value] else []) + bytes[position..]
    }

    ghost predicate Valid()
      reads this
    {
      position <= |bytes| && (pushed.Some? ==> wrapped)
    }

    constructor (bytes: seq<Byte>)
      ensures this.bytes == bytes && Valid() && Rest() == bytes && pushed == None
    {
      this.bytes := bytes;
      position, wrapped, pushed := 0, false, None;
    }

    /** None is the end of the stream. */
    method Read() returns (c: Option<Byte>)
      requires Valid()
      modifies this
      ensures Valid() && pushed == None
      ensures c == if old(Rest()) == [] then None else Some(old(Rest())[0])
      ensures Rest() == if old(Rest()) == [] then [] else old(Rest())[1..]
    {
      if pushed.Some? {
        c, pushed := pushed, None;
      } else if position < |bytes| {
        c := Some(bytes[position]);
        position := position + 1;
      } else {
        c := None;
      }
    }

    /** The pushback buffer holds one character and must be empty. */
    method Unread(c: Byte)
      requires Valid() && pushed == None
      modifies this
      ensures Valid() && Rest() == [c] + old(Rest())
    {
      wrapped := true;
      pushed := Some(c);
    }
  }

  // ---------------------------------------------------------------- the buffers

  function Nuls(n: nat): (s: seq<char>)
    ensures |s| == n && forall i :: 0 <= i < n ==> s[i] == '\0'
  {
    seq(n, i => '\0')
  }

  /** What becomes of a line: the first growth copies from the buffer that nothing was written to. */
  function Returned(line: seq<char>): (s: seq<char>)
    ensures |s| == |line|
  {
    if |line| <= BUFSIZE then line else Nuls(BUFSIZE) + line[BUFSIZE..]
  }

  method ArrayCopy(src: array<char>, dst: array<char>, n: nat)
    requires n <= src.Length && n <= dst.Length && src != dst
    modifies dst
    ensures dst[..n] == old(src[..n])
    ensures forall i :: n <= i < dst.Length ==> dst[i] == old(dst[i])
  {
    for i := 0 to n
      invariant forall k :: 0 <= k < i ==> dst[k] == old(src[k])
      invariant forall k :: i <= k < dst.Length ==> dst[k] == old(dst[k])
    {
      dst[i] := src[i];
    }
  }

  method Fill(a: array<char>, c: char)
    modifies a
    ensures forall i :: 0 <= i < a.Length ==> a[i] == c
  {
    for i := 0 to a.Length
      invariant forall k :: 0 <= k < i ==> a[k] == c
    {
      a[i] := c;
    }
  }

  /** lineBuffer, buf, room and offset. */
  class LineBuffers {
    var lineBuffer: array<char>
    var buf: array<char>
    var room: int
    var offset: nat

    /** Before the first growth the buffers are two, the first still blank; afterwards they are one. */
    ghost predicate Holds(line: seq<char>)
      reads this, lineBuffer, buf
    {
      && offset == |line| && room == buf.Length - offset && 0 <= room
      && buf.Length > 0 && buf.Length % BUFSIZE == 0
      && buf[..offset] == Returned(line)
      && (if offset <= BUFSIZE then buf.Length == BUFSIZE && lineBuffer != buf && lineBuffer[..] == Nuls(BUFSIZE)
          else lineBuffer == buf)
    }

    constructor ()
      ensures Holds([]) && fresh(lineBuffer) && fresh(buf)
    {
      lineBuffer := new char[BUFSIZE](i => '\0');
      buf := new char[BUFSIZE](i => '\0');
      room, offset := BUFSIZE, 0;
      new;
      assert buf[..0] == [];
    }

    /** The default branch of the loop. */
    method Store(c: char, ghost line: seq<char>)
      requires Holds(line)
      modifies this, lineBuffer, buf
      ensures Holds(line + [c])
      ensures lineBuffer == old(lineBuffer) || fresh(lineBuffer)
      ensures buf == old(buf) || fresh(buf)
    {
      room := room - 1;
      if room < 0 {
        var bigger := new char[offset + BUFSIZE](i => '\0');
        room := bigger.Length - offset - 1;
        ArrayCopy(lineBuffer, bigger, offset);
        Fill(lineBuffer, ' ');
        buf := bigger;
        lineBuffer := buf;
      }
      buf[offset] := c;
      offset := offset + 1;
    }

    /** What is done when the line is complete. */
    method Take(ghost line: seq<char>) returns (ret: Option<seq<char>>)
      requires Holds(line)
      modifies buf
      ensures ret == if line == [] then None else Some(Returned(line))
    {
      if offset == 0 {
        return None;
      }
      ret := Some(buf[..offset]);
      Fill(buf, ' ');
    }
  }

  /** The switch of the loop: None is a terminator; the character looked at after a return is put back. */
  method NextChar(stream: Input) returns (c: Option<Byte>)
    requires stream.Valid()
    modifies stream
    ensures stream.Valid()
    ensures c.None? ==> Line(old(stream.Rest())) == []
    ensures c.Some? ==> Line(old(stream.Rest())) == [c.value] + Line(stream.Rest())
    ensures c.Some? ==> |stream.Rest()| < |old(stream.Rest())|
  {
    c := stream.Read();
    if c.None? || c.value == NEWLINE {
      return None;
    }
    if c.value == RETURN {
      var c2 := stream.Read();
      if c2.None? || c2.value == NEWLINE {
        return None;
      }
      stream.Unread(c2.value);
    }
  }

  /** The password is the characters before the first terminator, all of them up to 128; null when there are none. */
  method DoReadPassword(input: seq<Byte>) returns (ret: Option<seq<char>>)
    ensures ret == if Line(input) == [] then None else Some(Returned(Line(input)))
  {
    var stream := new Input(input);
    var b := new LineBuffers();
    ghost var line: seq<Byte> := [];
    var c := NextChar(stream);
    ghost var todo := if c.Some? then Line(stream.Rest()) else [];
    while c.Some?
      invariant stream.Valid() && fresh(stream) && fresh(b) && fresh(b.lineBuffer) && fresh(b.buf)
      invariant b.Holds(line)
      invariant c.Some? ==> todo == Line(stream.Rest())
      invariant Line(input) == line + if c.Some? then [c.value] + todo else []
      decreases c.Some?, |stream.Rest()|
    {
      b.Store(c.value, line);
      Shift(line, c.value, todo);
      line := line + [c.value];
      c := NextChar(stream);
      todo := if c.Some? then Line(stream.Rest()) else [];
    }
    assert line + [] == line;
    ret := b.Take(line);
  }

  lemma Shift(a: seq<Byte>, x: Byte, b: seq<Byte>)
    ensures a + ([x] + b) == (a + [x]) + b
  {
  }

  /** The password read is the line exactly when it has at most 128 characters, or its first 128 are all nul. */
  lemma ReturnedIff(line: seq<char>)
    ensures Returned(line) == line <==> |line| <= BUFSIZE || forall i :: 0 <= i < BUFSIZE ==> line[i] == '\0'
  {
    if |line| > BUFSIZE {
      assert Returned(line)[..BUFSIZE] == Nuls(BUFSIZE);
      assert line == line[..BUFSIZE] + line[BUFSIZE..];
      if forall i :: 0 <= i < BUFSIZE ==> line[i] == '\0' {
        assert line[..BUFSIZE] == Nuls(BUFSIZE);
      } else {
        var i :| 0 <= i < BUFSIZE && line[i] != '\0';
        assert Returned(line)[i] == '\0';
      }
    }
  }

  lemma {:induction false} WithoutTerminator(input: seq<Byte>)
    requires forall i :: 0 <= i < |input| ==> input[i] != NEWLINE && input[i] != RETURN
    ensures Line(input) == input
    decreases |input|
  {
    if input != [] {
      WithoutTerminator(input[1..]);
    }
  }

  /** Any input of more than 128 ordinary characters is not read as it was typed. */
  lemma LongPasswordIsLost(input: seq<Byte>)
    requires |input| > BUFSIZE && input[0] != '\0'
    requires forall i :: 0 <= i < |input| ==> input[i] != NEWLINE && input[i] != RETURN
    ensures Line(input) == input && Returned(Line(input)) != input
  {
    WithoutTerminator(input);
    ReturnedIff(input);
  }
}
