/**
 * One iteration of the `serve` loop of kernel.c: the protocol stack has located the
 * application data of a received frame at offset `datP` (0 when there is none), the
 * payload there is classified with three strncmp tests, and the chosen reply text is
 * framed by the stack and handed back to it for transmission.
 *
 * The frame is the sequence of bytes received. A strncmp or a C-string read that
 * would run past its end is not given a meaning here: the iteration yields
 * `ReadsPastFrame`, the point at which the C code reads memory outside the frame.
 */
module Serve {

  import opened Types
  import opened CString

  /** The bytes of a string of ASCII characters, one byte per character. */
  function Bytes(s: string): (b: seq<u8>)
    ensures |b| == |s|
    ensures forall i :: 0 <= i < |s| && s[i] as int < 0x100 ==> b[i] == s[i] as int
  {
    seq(|s|, i requires 0 <= i < |s| => (s[i] as int) % 0x100)
  }

  /** A C string literal: its characters followed by the terminating NUL. */
  function Literal(s: string): (b: seq<u8>)
    ensures |b| == |s| + 1 && b[..|s|] == Bytes(s) && b[|s|] == 0
  {
    Bytes(s) + [0]
  }

  const GET_PREFIX: seq<u8> := Bytes("GET ")
  const GET_LITERAL: seq<u8> := Literal("GET ")
  const ECHO_LITERAL: seq<u8> := Literal("echo ")
  const ROOT_LITERAL: seq<u8> := Literal("/ ")

  /** The status lines and the header the canned pages are made of. */
  const STATUS_401: seq<u8> := Bytes("HTTP/1.0 401 Unauthorized\r\n")
  const STATUS_200: seq<u8> := Bytes("HTTP/1.0 200 OK\r\n")
  const HTML_HEADER: seq<u8> := Bytes("Content-Type: text/html\r\n\r\n")

  const UNAUTHORIZED_PAGE: seq<u8> := STATUS_401 + HTML_HEADER + Bytes("<h1>ERROR</h1>")
  const ROOT_PAGE: seq<u8> := STATUS_200 + HTML_HEADER + Bytes("<h1>Hello world!</h1>")
  const OTHER_PAGE: seq<u8> := STATUS_200 + HTML_HEADER + Bytes("<h1>Goodbye cruel world.</h1>")

  /** Where a reply's text comes from. */
  datatype Source =
    | Unauthorized
      /** The C string at `buf[start]`, sent back as it is. */
    | Echo(start: nat, text: seq<u8>)
    | Root
    | NotRoot

  /** What one classification of a frame comes to. */
  datatype Outcome =
    | NoRequest
    | Respond(source: Source)
    | ReadsPastFrame

  /** What one pass of the loop hands to the protocol stack. */
  datatype Iteration =
    | Idle
      /** www_server_reply(frame, len) */
    | Sent(frame: seq<u8>, len: u16)
    | UndefinedRead

  /** The result of fill_tcp_data: the frame with the reply written in, and its length. */
  datatype Framed = Framed(frame: seq<u8>, len: u16)

  /** `&buf[k]` as a string: the bytes from offset `k` on. */
  function From(buf: seq<u8>, k: int): seq<u8> {
    if 0 <= k <= |buf| then buf[k..] else []
  }

  /** The C string at `buf[k]`: the bytes up to the first NUL, read one at a time. */
  function CStringAt(buf: seq<u8>, k: nat): (r: Option<seq<u8>>)
    ensures r.Some? ==> k + |r.value| < |buf| && buf[k + |r.value|] == 0
    decreases |buf| - k
  {
    if k >= |buf| then None
    else if buf[k] == 0 then Some([])
    else match CStringAt(buf, k + 1)
      case None => None
      case Some(t) => Some([buf[k]] + t)
  }

  /**
   * The C string at `buf[k]` is the run of non-NUL bytes there, which a NUL inside the
   * frame ends; there is none exactly when the frame holds no NUL from `k` on.
   */
  lemma {:induction false} CStringAtMeans(buf: seq<u8>, k: nat)
    ensures var r := CStringAt(buf, k);
      && (r.Some? ==> k + |r.value| < |buf| && buf[k + |r.value|] == 0)
      && (r.Some? ==> forall j :: 0 <= j < |r.value| ==> r.value[j] == buf[k + j] && r.value[j] != 0)
      && (r.None? <==> forall j :: k <= j < |buf| ==> buf[j] != 0)
    decreases |buf| - k
  {
    if k < |buf| && buf[k] != 0 {
      CStringAtMeans(buf, k + 1);
      match CStringAt(buf, k + 1)
      case None =>
      case Some(t) =>
        var s := [buf[k]] + t;
        assert CStringAt(buf, k) == Some(s);
        forall j | 0 <= j < |s|
          ensures s[j] == buf[k + j] && s[j] != 0
        {
          if j > 0 {
            assert s[j] == t[j - 1];
          }
        }
        assert buf[k + |s|] == 0;
    }
  }

  /**
   * The branch choice of serve, as written: not "GET " gives the 401 page; otherwise,
   * not "echo " gives the echo of the C string five bytes on; otherwise "/ " after
   * the method gives the root page, and anything else the other page.
   */
  function Classify(buf: seq<u8>, datP: u16): (r: Outcome)
    ensures r == NoRequest <==> datP == 0
  {
    if datP == 0 then NoRequest
    else
      // The tests in the order serve makes them; each is looked at only when the
      // ones before it have let the request through.
      var get := Compare(GET_LITERAL, From(buf, datP), 4);
      var echo := Compare(ECHO_LITERAL, From(buf, datP), 5);
      var echoed := CStringAt(buf, datP + 5);
      var root := Compare(ROOT_LITERAL, From(buf, datP + 4), 2);
      match get
      case None => ReadsPastFrame
      case Some(g) =>
        if g != 0 then Respond(Unauthorized)
        else match echo
          case None => ReadsPastFrame
          case Some(e) =>
            if e != 0 then
              match echoed
              case None => ReadsPastFrame
              case Some(text) => Respond(Echo(datP + 5, text))
            else match root
              case None => ReadsPastFrame
              case Some(r) => if r == 0 then Respond(Root) else Respond(NotRoot)
  }

  /** `t` begins with the bytes `p`. */
  predicate StartsWith(t: seq<u8>, p: seq<u8>) {
    |p| <= |t| && t[..|p|] == p
  }

  /** `t` ends before `p` does, and agrees with it as far as it goes. */
  predicate EndsInside(t: seq<u8>, p: seq<u8>) {
    |t| < |p| && t == p[..|t|]
  }

  /**
   * The classification stated on the payload itself: a payload that begins with
   * "GET " is echoed from five bytes on, one that ends within "GET " is read past,
   * and any other gets the 401 page.
   */
  function Dispatch(buf: seq<u8>, datP: u16): Outcome {
    if datP == 0 then NoRequest
    else if StartsWith(From(buf, datP), GET_PREFIX) then
      match CStringAt(buf, datP + 5)
      case None => ReadsPastFrame
      case Some(text) => Respond(Echo(datP + 5, text))
    else if EndsInside(From(buf, datP), GET_PREFIX) then ReadsPastFrame
    else Respond(Unauthorized)
  }

  /**
   * The text handed to fill_tcp_data for each source: an echo is sent back as it is,
   * with no HTTP header; the refusal carries a 401 status line and the two pages a
   * 200 one, each followed by the HTML content type.
   */
  function ReplyText(src: Source): (r: seq<u8>)
    ensures src.Echo? ==> r == src.text
    ensures src.Unauthorized? ==> StartsWith(r, STATUS_401 + HTML_HEADER)
    ensures src.Root? || src.NotRoot? ==> StartsWith(r, STATUS_200 + HTML_HEADER)
  {
    match src
    case Unauthorized => UNAUTHORIZED_PAGE
    case Echo(_, text) => text
    case Root => ROOT_PAGE
    case NotRoot => OTHER_PAGE
  }

  /**
   * One pass of the loop body after a frame has arrived and the protocol stack has
   * returned `datP`: `fill` stands for fill_tcp_data, and the frame and length it
   * returns are what www_server_reply is given.
   */
  function ServeFrame(buf: seq<u8>, datP: u16, fill: (seq<u8>, u16, seq<u8>) -> Framed): (it: Iteration)
    ensures it.Idle? <==> datP == 0
    ensures it.Sent? <==> Classify(buf, datP).Respond?
    ensures it.Sent? ==> Framed(it.frame, it.len) == fill(buf, 0, ReplyText(Classify(buf, datP).source))
  {
    match Classify(buf, datP)
    case NoRequest => Idle
    case ReadsPastFrame => UndefinedRead
    case Respond(src) =>
      var framed := fill(buf, 0, ReplyText(src));
      Sent(framed.frame, framed.len)
  }

  /**
   * strncmp against a literal with no NUL among its first `n` bytes: 0 exactly when
   * the string begins with those bytes, and a read past the end exactly when the
   * string stops short of them while agreeing with them.
   */
  lemma {:induction false} CompareWithLiteral(lit: seq<u8>, t: seq<u8>, n: nat)
    requires n <= |lit| && forall j :: 0 <= j < n ==> lit[j] != 0
    ensures Compare(lit, t, n) == Some(0) <==> StartsWith(t, lit[..n])
    ensures Compare(lit, t, n).None? <==> EndsInside(t, lit[..n])
    decreases n
  {
    if n > 0 && |t| > 0 {
      if lit[0] == t[0] {
        assert Compare(lit, t, n) == Compare(lit[1..], t[1..], n - 1);
        CompareWithLiteral(lit[1..], t[1..], n - 1);
        assert lit[..n] == [lit[0]] + lit[1..][..n - 1];
        if n <= |t| {
          assert t[..n] == [t[0]] + t[1..][..n - 1];
          assert StartsWith(t, lit[..n]) <==> StartsWith(t[1..], lit[1..][..n - 1]);
        } else {
          assert t == [t[0]] + t[1..];
          assert lit[..n][..|t|] == [lit[0]] + lit[1..][..n - 1][..|t| - 1];
        }
      } else {
        assert lit[..n][0] != t[0];
        if n <= |t| {
          assert t[..n][0] == t[0];
        }
      }
    } else if n > 0 {
      assert lit[..n][..0] == t;
    }
  }

  /** The payload tests of serve, each reduced to a statement on the payload's bytes. */
  lemma PrefixTests(t: seq<u8>)
    ensures Compare(GET_LITERAL, t, 4) == Some(0) <==> StartsWith(t, GET_PREFIX)
    ensures Compare(GET_LITERAL, t, 4).None? <==> EndsInside(t, GET_PREFIX)
    ensures StartsWith(t, GET_PREFIX) ==> Compare(ECHO_LITERAL, t, 5) == Some('e' as int - 'G' as int)
  {
    CompareWithLiteral(GET_LITERAL, t, 4);
    if StartsWith(t, GET_PREFIX) {
      assert t[0] == t[..4][0] == 'G' as int;
    }
  }

  /** The branch choice as written is the classification on the payload's bytes. */
  lemma ClassifyIsDispatch(buf: seq<u8>, datP: u16)
    ensures Classify(buf, datP) == Dispatch(buf, datP)
  {
    if datP != 0 {
      PrefixTests(From(buf, datP));
    }
  }

  /**
   * A payload that begins with "GET " cannot also begin with "echo ", so every GET
   * request takes the echo branch, and the root and other pages are never chosen.
   */
  lemma NeverServesAPage(buf: seq<u8>, datP: u16)
    ensures Classify(buf, datP) != Respond(Root) && Classify(buf, datP) != Respond(NotRoot)
  {
    ClassifyIsDispatch(buf, datP);
  }

  /** The C string at `buf[k]` is the run of non-NUL bytes there that a NUL ends. */
  lemma {:induction false} CStringAtIs(buf: seq<u8>, k: nat, text: seq<u8>)
    requires k + |text| < |buf| && buf[k + |text|] == 0 && buf[k..k + |text|] == text
    requires forall j :: 0 <= j < |text| ==> text[j] != 0
    ensures CStringAt(buf, k) == Some(text)
    decreases |text|
  {
    if text != [] {
      assert buf[k] == buf[k..k + |text|][0] == text[0];
      assert buf[k + 1..k + 1 + |text[1..]|] == buf[k..k + |text|][1..];
      CStringAtIs(buf, k + 1, text[1..]);
      assert [buf[k]] + text[1..] == text;
    }
  }

  /**
   * A payload that begins with "GET " is answered with the C string five bytes on,
   * when the frame holds a NUL there to end it.
   */
  lemma GetRequestIsEchoed(buf: seq<u8>, datP: u16, fill: (seq<u8>, u16, seq<u8>) -> Framed)
    requires datP != 0 && StartsWith(From(buf, datP), GET_PREFIX)
    requires exists j :: datP + 5 <= j < |buf| && buf[j] == 0
    ensures CStringAt(buf, datP + 5).Some?
    ensures var text := CStringAt(buf, datP + 5).value;
      && Classify(buf, datP) == Respond(Echo(datP + 5, text))
      && ServeFrame(buf, datP, fill) == Sent(fill(buf, 0, text).frame, fill(buf, 0, text).len)
  {
    CStringAtMeans(buf, datP + 5);
    ClassifyIsDispatch(buf, datP);
  }

  /**
   * A payload that disagrees with "GET " within its first four bytes is answered
   * with the 401 page, and only such a payload is.
   */
  lemma OtherRequestIsUnauthorized(buf: seq<u8>, datP: u16, fill: (seq<u8>, u16, seq<u8>) -> Framed)
    ensures Classify(buf, datP) == Respond(Unauthorized) <==>
              datP != 0 && !StartsWith(From(buf, datP), GET_PREFIX) && !EndsInside(From(buf, datP), GET_PREFIX)
    ensures Classify(buf, datP) == Respond(Unauthorized) ==>
              ServeFrame(buf, datP, fill) == Sent(fill(buf, 0, UNAUTHORIZED_PAGE).frame, fill(buf, 0, UNAUTHORIZED_PAGE).len)
  {
    ClassifyIsDispatch(buf, datP);
  }

  /** With no application data nothing is framed and nothing is sent. */
  lemma NoPayloadNoReply(buf: seq<u8>, fill: (seq<u8>, u16, seq<u8>) -> Framed)
    ensures Classify(buf, 0) == NoRequest && ServeFrame(buf, 0, fill) == Idle
  {
  }

  /** The payload "GET / HTTP/1.1" gets back the text after "GET /", not the root page. */
  lemma ExampleGetRoot()
    ensures Classify([0] + Bytes("GET /") + Bytes(" HTTP/1.1") + [0], 1)
            == Respond(Echo(6, Bytes(" HTTP/1.1")))
  {
    var rest: seq<u8> := [32, 72, 84, 84, 80, 47, 49, 46, 49];
    var buf: seq<u8> := [0, 71, 69, 84, 32, 47] + rest + [0];
    GetRootBytes();
    GetRootEcho(buf, rest);
    ClassifyIsDispatch(buf, 1);
    assert From(buf, 1)[..4] == GET_PREFIX;
  }

  /** In the frame of ExampleGetRoot, the C string five bytes into the payload. */
  lemma GetRootEcho(buf: seq<u8>, rest: seq<u8>)
    requires rest == [32, 72, 84, 84, 80, 47, 49, 46, 49]
    requires buf == [0, 71, 69, 84, 32, 47] + rest + [0]
    ensures CStringAt(buf, 6) == Some(rest)
  {
    assert buf[6..6 + |rest|] == rest;
    assert buf[6 + |rest|] == 0;
    assert forall j :: 0 <= j < |rest| ==> rest[j] != 0;
    CStringAtIs(buf, 6, rest);
  }

  /** The bytes of the frame in ExampleGetRoot. */
  lemma GetRootBytes()
    ensures Bytes(" HTTP/1.1") == [32, 72, 84, 84, 80, 47, 49, 46, 49]
    ensures [0] + Bytes("GET /") + Bytes(" HTTP/1.1") + [0]
            == [0, 71, 69, 84, 32, 47] + [32, 72, 84, 84, 80, 47, 49, 46, 49] + [0]
    ensures GET_PREFIX == [71, 69, 84, 32]
  {
    assert Bytes("GET /") == [71, 69, 84, 32, 47];
  }

  /** The payload "echo hi there" gets the 401 page, not "hi there". */
  lemma ExampleEcho()
    ensures Classify([0] + Bytes("echo hi there") + [0], 1) == Respond(Unauthorized)
  {
    var buf := [0] + Bytes("echo hi there") + [0];
    assert GET_PREFIX == [71, 69, 84, 32];
    assert buf[1] == 'e' as int;
    ClassifyIsDispatch(buf, 1);
    assert From(buf, 1)[0] != GET_PREFIX[0];
  }
}
