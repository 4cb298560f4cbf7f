/** Where a line of the password reader ends, said of the characters alone, and what is returned of it. */
module PasswordLines {
  import opened Wrappers
  import opened PasswordReader

  /** No newline and no return. */
  predicate Plain(a: seq<Byte>) { forall i :: 0 <= i < |a| ==> a[i] != '\n' && a[i] != '\r' }

  /** A plain beginning belongs to the line. */
  lemma {:induction false} PlainGoesOn(a: seq<Byte>, b: seq<Byte>)
    requires Plain(a)
    ensures Line(a + b) == a + Line(b)
    decreases |a|
  {
    if a == [] {
      assert a + b == b;
    } else {
      assert (a + b)[0] == a[0] && (a + b)[1..] == a[1..] + b;
      PlainGoesOn(a[1..], b);
    }
  }

  /** The line ends at a newline, at a return with a newline behind it, at a return at the end, and at the end. */
  lemma {:induction false} LineEnds(a: seq<Byte>, b: seq<Byte>)
    requires Plain(a)
    ensures Line(a + ['\n'] + b) == a && Line(a + ['\r', '\n'] + b) == a && Line(a + ['\r']) == a && Line(a) == a
  {
    assert a + ['\n'] + b == a + (['\n'] + b) && a + ['\r', '\n'] + b == a + (['\r', '\n'] + b);
    PlainGoesOn(a, ['\n'] + b);
    PlainGoesOn(a, ['\r', '\n'] + b);
    PlainGoesOn(a, ['\r']);
    PlainGoesOn(a, []);
    assert a + [] == a;
  }

  /** A return before any other character is one of the line's, and the line goes on with that character. */
  lemma {:induction false} LoneReturnGoesOn(a: seq<Byte>, c: Byte, b: seq<Byte>)
    requires Plain(a) && c != '\n'
    ensures Line(a + ['\r', c] + b) == a + ['\r'] + Line([c] + b)
  {
    var rest := ['\r'] + ([c] + b);
    assert a + ['\r', c] + b == a + rest && rest[1..] == [c] + b;
    PlainGoesOn(a, rest);
  }

  /** A password of up to 128 characters is returned as typed; of a longer one the first 128 are NUL. */
  lemma ReturnedAt(line: seq<char>, i: nat)
    requires i < |line|
    ensures |Returned(line)| == |line|
    ensures Returned(line)[i] == if 128 < |line| && i < 128 then 0 as char else line[i]
  {
  }
}
