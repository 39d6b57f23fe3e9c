/**
 * putc of kernel.c, the character sink the formatted-output routine is set up
 * with: every newline goes out to the UART as carriage return and line feed.
 */
module Console {

  /**
   * The characters putc sends for one character: the character itself comes last,
   * and a carriage return goes before it exactly when it is a newline.
   */
  function Emit(c: char): (e: seq<char>)
    ensures 1 <= |e| <= 2 && e[|e| - 1] == c
    ensures |e| == 2 <==> c == '\n'
    ensures |e| == 2 ==> e[0] == '\r'
  {
    if c == '\n' then ['\r', '\n'] else [c]
  }

  /**
   * What a run of putc calls sends for the text `s`: at least one and at most two
   * characters for each, and never a newline first.
   */
  function Expand(s: string): (e: string)
    ensures |s| <= |e| <= 2 * |s|
    ensures s != [] ==> e[0] != '\n'
  {
    if s == [] then [] else Emit(s[0]) + Expand(s[1..])
  }

  /** The inverse of Expand: each carriage return that comes right before a newline is dropped. */
  function Collapse(t: string): string {
    if t == [] then []
    else if |t| >= 2 && t[0] == '\r' && t[1] == '\n' then ['\n'] + Collapse(t[2..])
    else [t[0]] + Collapse(t[1..])
  }

  /** The UART transmitter: every character uart_send has been given, oldest first. */
  class Uart {
    var sent: seq<char>

    constructor ()
      ensures sent == []
    {
      sent := [];
    }

    /** uart_send. */
    method Send(c: char)
      modifies this
      ensures sent == old(sent) + [c]
    {
      sent := sent + [c];
    }

    /** putc: a carriage return first when the character is a newline, then the character. */
    method Putc(c: char)
      modifies this
      ensures sent == old(sent) + Emit(c)
    {
      if c == '\n' {
        Send('\r');
      }
      Send(c);
    }
  }

  /** Sending one more character extends what has been sent by that character's expansion. */
  lemma {:induction false} ExpandAppend(s: string, c: char)
    ensures Expand(s + [c]) == Expand(s) + Emit(c)
    decreases |s|
  {
    if s == [] {
      assert [c][1..] == [];
    } else {
      assert (s + [c])[1..] == s[1..] + [c];
      ExpandAppend(s[1..], c);
    }
  }

  /** Every newline sent has a carriage return right before it. */
  lemma {:induction false} NewlinesHaveCarriageReturn(s: string, i: nat)
    requires i < |Expand(s)| && Expand(s)[i] == '\n'
    ensures i > 0 && Expand(s)[i - 1] == '\r'
    decreases |s|
  {
    if s == [] {
    } else {
      var e := Emit(s[0]);
      assert Expand(s) == e + Expand(s[1..]);
      if i >= |e| {
        assert Expand(s[1..])[i - |e|] == '\n';
        NewlinesHaveCarriageReturn(s[1..], i - |e|);
        assert Expand(s)[i - 1] == Expand(s[1..])[i - |e| - 1];
      }
    }
  }

  /** Nothing is lost: collapsing what putc sent gives back the text. */
  lemma {:induction false} CollapseExpand(s: string)
    ensures Collapse(Expand(s)) == s
    decreases |s|
  {
    if s != [] {
      var rest := Expand(s[1..]);
      CollapseExpand(s[1..]);
      if s[0] == '\n' {
        assert Expand(s) == ['\r', '\n'] + rest;
        assert (['\r', '\n'] + rest)[2..] == rest;
      } else {
        assert Expand(s) == [s[0]] + rest;
        assert ([s[0]] + rest)[1..] == rest;
      }
    }
  }
}
