/** What the client prints, the server reads back. */
module RequestRoundTrip {
  import opened Wrappers
  import opened Decimals
  import opened RequestLine
  import opened RequestParse
  import RequestScan
  import opened Octets

  /** What a request is made from; `before` and `after` are header lines around the session's. */
  datatype Sent = Sent(command: string, host: string, preSuffix: string, suffix: string, cseq: word,
                       before: string, session: Option<string>, after: string, content: string)

  // ----- printing -----

  function PathText(r: Sent): string {
    if r.preSuffix == "" then r.suffix else r.preSuffix + "/" + r.suffix
  }

  function SessionHeader(session: Option<string>): string {
    match session
    case None => ""
    case Some(id) => "Session: " + id + "\r\n"
  }

  function ContentHeader(content: string): string {
    if content == "" then "" else "Content-Length: " + PrintedSigned(|content|) + "\r\n"
  }

  function CSeqHeader(cseq: word): string {
    "CSeq: " + PrintedSigned(cseq) + "\r\n"
  }

  /** Everything after `RTSP/`. */
  function Headers(r: Sent): string {
    "1.0\r\n" + CSeqHeader(r.cseq) + r.before + SessionHeader(r.session) + r.after + ContentHeader(r.content)
  }

  function Lines(r: Sent): string {
    r.command + " " + "rtsp://" + r.host + "/" + PathText(r) + " RTSP/" + Headers(r)
  }

  function Printed(r: Sent): string {
    Lines(r) + "\r\n" + r.content
  }

  // ----- what may be sent -----

  /** `pattern` occurs nowhere in `s`, in whichever case. */
  predicate Lacks(pattern: string, s: string) {
    forall k | 0 <= k <= |s| :: !Begins(pattern, s[k..])
  }

  predicate WholeLines(s: string) { s == "" || s[|s| - 1] == '\n' }

  /** No character of `s` is one that `p` holds of. */
  predicate Avoids(p: char -> bool, s: string) {
    forall i | 0 <= i < |s| :: !p(s[i])
  }

  predicate GoodCommand(c: string) {
    0 < |c| < PARAM_MAX - 1 && !White(c[0]) && Avoids(Blank, c)
  }

  predicate GoodPath(r: Sent) {
    && |r.preSuffix| < PARAM_MAX && |r.suffix| < PARAM_MAX
    && '/' !in r.suffix && ' ' !in PathText(r)
    && forall k | 0 <= k <= |PathText(r)| :: !ProtocolAt(PathText(r), k)
  }

  predicate GoodSession(id: string) {
    |id| < PARAM_MAX && Avoids(LineEnd, id) && (id != "" ==> !Blank(id[0]))
  }

  /** The header lines are whole lines, and name no session or content length of their own. */
  predicate GoodHeaders(r: Sent) {
    && WholeLines(r.before) && WholeLines(r.after)
    && Lacks(SESSION, r.before) && (r.session.None? ==> Lacks(SESSION, r.after))
    && Lacks(CONTENT_LENGTH, r.before) && Lacks(CONTENT_LENGTH, SessionHeader(r.session))
       && Lacks(CONTENT_LENGTH, r.after)
  }

  predicate Sendable(r: Sent) {
    && GoodCommand(r.command)
    && Avoids(HostEnd, r.host)
    && GoodPath(r) && GoodHeaders(r)
    && (r.session.Some? ==> GoodSession(r.session.value))
    && |r.content| < 0x1_0000_0000
  }

  // ----- finding things in text put together from parts -----

  lemma {:induction false} UntilExact(a: string, rest: string, stop: char -> bool, max: nat)
    requires |a| < max && Avoids(stop, a) && rest != "" && stop(rest[0])
    ensures Until(a + rest, stop, max) == Piece(a, true)
  {
    if a == "" {
      assert a + rest == rest;
    } else {
      assert (a + rest)[1..] == a[1..] + rest;
      UntilExact(a[1..], rest, stop, max - 1);
      assert a == [a[0]] + a[1..];
    }
  }

  /** A value may also just fill its buffer. */
  lemma {:induction false} UntilFull(a: string, rest: string, stop: char -> bool, max: nat)
    requires |a| <= max && Avoids(stop, a) && rest != "" && stop(rest[0])
    ensures Until(a + rest, stop, max).text == a
  {
    if a == "" {
      assert a + rest == rest;
    } else {
      assert (a + rest)[1..] == a[1..] + rest;
      UntilFull(a[1..], rest, stop, max - 1);
      assert a == [a[0]] + a[1..];
    }
  }

  lemma {:induction false} SkipHostExact(host: string, rest: string)
    requires Avoids(HostEnd, host) && rest != "" && HostEnd(rest[0])
    ensures SkipHost(host + rest) == rest
  {
    if host == "" {
      assert host + rest == rest;
    } else {
      assert (host + rest)[1..] == host[1..] + rest;
      SkipHostExact(host[1..], rest);
    }
  }

  predicate PlainPattern(p: string) { p != "" && '\n' !in p }

  /** A pattern that is in no line is not found across lines either. */
  lemma LacksAcross(p: string, x: string, y: string, k: nat)
    requires PlainPattern(p) && WholeLines(x) && Lacks(p, x) && k < |x|
    ensures !Begins(p, (x + y)[k..])
  {
    var s := (x + y)[k..];
    if k + |p| <= |x| {
      assert forall i | 0 <= i < |p| :: x[k..][i] == s[i];
      assert !Begins(p, x[k..]);
    } else {
      assert s[|x| - 1 - k] == '\n' && Lower('\n') == '\n';
    }
  }

  lemma LacksConcat(p: string, x: string, y: string)
    requires PlainPattern(p) && WholeLines(x) && Lacks(p, x) && Lacks(p, y)
    ensures Lacks(p, x + y)
  {
    forall k | 0 <= k <= |x + y|
      ensures !Begins(p, (x + y)[k..])
    {
      if k < |x| {
        LacksAcross(p, x, y, k);
      } else {
        assert (x + y)[k..] == y[k - |x|..];
      }
    }
  }

  lemma {:induction false} AfterSkips(p: string, x: string, y: string, margin: nat)
    requires margin >= |p| && |y| > margin
    requires forall k | 0 <= k < |x| :: !Begins(p, (x + y)[k..])
    ensures After(p, x + y, margin) == After(p, y, margin)
  {
    if x == "" {
      assert x + y == y;
    } else {
      assert (x + y)[0..] == x + y;
      assert (x + y)[1..] == x[1..] + y;
      assert forall k | 0 <= k < |x[1..]| :: (x[1..] + y)[k..] == (x + y)[k + 1..];
      AfterSkips(p, x[1..], y, margin);
    }
  }

  lemma {:induction false} AfterNothing(p: string, s: string, margin: nat)
    requires margin >= |p| && Lacks(p, s)
    ensures After(p, s, margin) == None
    decreases |s|
  {
    if |s| > margin {
      assert s[0..] == s;
      assert forall k | 0 <= k <= |s[1..]| :: s[1..][k..] == s[k + 1..];
      AfterNothing(p, s[1..], margin);
    }
  }

  lemma {:induction false} ContentSkips(x: string, y: string, sofar: nat)
    requires |y| > 15 && forall k | 0 <= k < |x| :: !Begins(CONTENT_LENGTH, (x + y)[k..])
    ensures ContentLength(x + y, sofar) == ContentLength(y, sofar)
  {
    if x == "" {
      assert x + y == y;
    } else {
      assert (x + y)[0..] == x + y;
      assert (x + y)[1..] == x[1..] + y;
      assert forall k | 0 <= k < |x[1..]| :: (x[1..] + y)[k..] == (x + y)[k + 1..];
      ContentSkips(x[1..], y, sofar);
    }
  }

  lemma {:induction false} ContentNothing(s: string, sofar: nat)
    requires Lacks(CONTENT_LENGTH, s)
    ensures ContentLength(s, sofar) == sofar
    decreases |s|
  {
    if |s| > 15 {
      assert s[0..] == s;
      assert forall k | 0 <= k <= |s[1..]| :: s[1..][k..] == s[k + 1..];
      ContentNothing(s[1..], sofar);
    }
  }

  // ----- numbers -----

  lemma {:induction false} DigitsExact(d: string, rest: string)
    requires AllDigits(d) && (rest == "" || !Digit(rest[0]))
    ensures Digits(d + rest) == d
  {
    if d == "" {
      assert d + rest == rest;
    } else {
      assert (d + rest)[1..] == d[1..] + rest;
      DigitsExact(d[1..], rest);
      assert d == [d[0]] + d[1..];
    }
  }

  /** A number printed as a signed one is read back, sign and all. */
  lemma SignedScanned(n: word, rest: string)
    requires rest != "" && !Digit(rest[0])
    ensures ScanUnsigned(PrintedSigned(n) + rest) == Some(n)
  {
    if n < 0x8000_0000 {
      NumberOfDecimal(n);
      ScanExact(Decimal(n), n, rest);
    } else {
      var m := 0x1_0000_0000 - n;
      NumberOfDecimal(m);
      ScanNegative(Decimal(m), m, rest);
      LowBitsNegative(m);
    }
  }

  lemma LowBitsNegative(m: nat)
    requires 0 < m < 0x1_0000_0000
    ensures LowBits(m, true) == 0x1_0000_0000 - m
  {
  }

  lemma ScanNegative(d: string, m: nat, rest: string)
    requires d != "" && AllDigits(d) && Number(d) == m && rest != "" && !Digit(rest[0])
    ensures ScanUnsigned("-" + d + rest) == Some(LowBits(m, true))
  {
    var t := "-" + d + rest;
    assert t[0] == '-' && t[1..] == d + rest;
    assert SkipSpace(t) == t;
    DigitsExact(d, rest);
  }

  lemma LowBitsSmall(n: nat)
    requires n < 0x1_0000_0000
    ensures LowBits(n, false) == n
  {
  }

  lemma ScanExact(d: string, n: nat, rest: string)
    requires d != "" && AllDigits(d) && Number(d) == n < 0x1_0000_0000 && rest != "" && !Digit(rest[0])
    ensures ScanUnsigned(d + rest) == Some(n)
  {
    var t := d + rest;
    assert t[0] == d[0] && Digit(d[0]);
    assert SkipSpace(t) == t && !Sign(t[0]);
    DigitsExact(d, rest);
    LowBitsSmall(n);
  }

  // ----- the request line -----

  lemma PathFound(host: string, tail: string)
    requires Avoids(HostEnd, host) && |tail| > 8 && tail[0] == '/'
    ensures PathPart(" " + ("rtsp://" + host + tail)) == tail
  {
    var v := "rtsp://" + host + tail;
    var s := " " + v;
    assert s[1..] == v;
    assert v[0] == 'r';
    assert Begins(RTSP_URL, v);
    assert v[6..] == "/" + (host + tail);
    assert ("/" + (host + tail))[1..] == host + tail;
    SkipHostExact(host, tail);
  }

  lemma NoSpace(j: nat)
    requires j < 5
    ensures "RTSP/"[j] != ' '
  {
    var p := "RTSP/";
    assert p[0] == 'R' && p[1] == 'T' && p[2] == 'S' && p[3] == 'P' && p[4] == '/';
  }

  /** The protocol follows the path; it is not found in the path, nor across the space. */
  lemma {:induction false} ProtocolFound(u: string, path: string, rest: string, k: nat)
    requires u == "/" + path + " RTSP/" + rest && rest != "" && 1 <= k <= |path| + 2
    requires forall i | 0 <= i <= |path| :: !ProtocolAt(path, i)
    requires ' ' !in path
    ensures FindProtocol(u, k) == |path| + 2
    decreases |path| + 2 - k
  {
    if k < |path| + 2 {
      if k + 4 <= |path| {
        SliceOfPath(u, path, rest, k);
        assert !ProtocolAt(path, k - 1);
      } else {
        SliceWithSpace(u, path, rest, k);
      }
      ProtocolFound(u, path, rest, k + 1);
    } else {
      ProtocolThere(u, path, rest);
    }
  }

  lemma SliceOfPath(u: string, path: string, rest: string, k: nat)
    requires u == "/" + path + " RTSP/" + rest && 1 <= k && k + 4 <= |path|
    ensures u[k..k + 5] == path[k - 1..k + 4]
  {
    var x, y := u[k..k + 5], path[k - 1..k + 4];
    forall i | 0 <= i < 5
      ensures x[i] == y[i]
    {
      assert u[k + i] == path[k - 1 + i];
    }
  }

  lemma SliceWithSpace(u: string, path: string, rest: string, k: nat)
    requires u == "/" + path + " RTSP/" + rest && 1 <= k <= |path| + 1 < k + 5
    ensures u[k..k + 5] != "RTSP/"
  {
    var j := |path| + 1 - k;
    assert u[|path| + 1] == ' ';
    assert u[k..k + 5][j] == ' ';
    NoSpace(j);
  }

  lemma ProtocolThere(u: string, path: string, rest: string)
    requires u == "/" + path + " RTSP/" + rest
    ensures u[|path| + 2..|path| + 7] == "RTSP/"
  {
  }

  lemma {:induction false} SlashFound(u: string, from: int, k: int)
    requires 0 <= from <= k < |u| && (from == 0 || u[from] == '/')
    requires forall i | from < i <= k :: u[i] != '/'
    ensures LastSlash(u, k) == from
    decreases k
  {
    if k > from {
      SlashFound(u, from, k - 1);
    }
  }

  /** Both halves of the path come out, the first decoded. */
  lemma PathSplit(r: Sent, rest: string)
    requires GoodPath(r) && rest != ""
    ensures SplitPath("/" + PathText(r) + " RTSP/" + rest) == Some(Path(Unescaped(r.preSuffix), r.suffix, rest))
  {
    var path := PathText(r);
    var u := "/" + path + " RTSP/" + rest;
    var k := |path|;
    var k1 := if r.preSuffix == "" then 0 else |r.preSuffix| + 1;
    ProtocolFound(u, path, rest, 1);
    PathPieces(r, rest);
    SlashFound(u, k1, k);
    SplitAt(u, k, k1, r.preSuffix, r.suffix, rest);
  }

  /** The two halves, given where the path ends and where its last slash is. */
  lemma SplitAt(u: string, k: nat, k1: nat, pre: string, suffix: string, rest: string)
    requires |u| == k + 7 + |rest| && rest != "" && k1 <= k
    requires FindProtocol(u, 1) == k + 2 && u[k + 1] == ' ' && u[k] != ' ' && LastSlash(u, k) == k1
    requires u[k1 + 1..k + 1] == suffix && u[k + 7..] == rest && pre == if k1 >= 1 then u[1..k1] else ""
    requires |pre| < PARAM_MAX && |suffix| < PARAM_MAX
    ensures SplitPath(u) == Some(Path(Unescaped(pre), suffix, rest))
  {
    assert LastNonSpace(u, k) == k;
    assert LastNonSpace(u, k + 1) == k;
  }

  lemma PathPieces(r: Sent, rest: string)
    requires GoodPath(r)
    ensures var path, u := PathText(r), "/" + PathText(r) + " RTSP/" + rest;
            var k := |path|;
            var k1 := if r.preSuffix == "" then 0 else |r.preSuffix| + 1;
            && |u| == k + 7 + |rest|
            && u[k + 1] == ' ' && u[k] != ' ' && (k1 == 0 || u[k1] == '/')
            && (forall i | k1 < i <= k :: u[i] != '/')
            && u[k1 + 1..k + 1] == r.suffix
            && (k1 >= 1 ==> u[1..k1] == r.preSuffix)
            && u[k + 7..] == rest
  {
  }

  // ----- the headers -----

  lemma NotBegins(p: string, s: string, i: nat)
    requires i < |p| && (i < |s| ==> Lower(s[i]) != p[i])
    ensures !Begins(p, s)
  {
  }

  /** A text without the first letter of a pattern lacks the pattern. */
  lemma LacksLetter(p: string, s: string)
    requires p != "" && forall i | 0 <= i < |s| :: Lower(s[i]) != p[0]
    ensures Lacks(p, s)
  {
    forall k | 0 <= k <= |s|
      ensures !Begins(p, s[k..])
    {
      NotBegins(p, s[k..], 0);
    }
  }

  predicate NotNumeric(c: char) { !Digit(c) && c != '-' }

  lemma SignedText(n: word)
    ensures var d := PrintedSigned(n); d != "" && |d| <= 11 && Avoids(NotNumeric, d)
  {
    TenDigits(if n < 0x8000_0000 then n else 0x1_0000_0000 - n);
  }

  lemma CSeqHeaderLacks(cseq: word)
    ensures var y := CSeqHeader(cseq); Lacks(SESSION, y) && Lacks(CONTENT_LENGTH, y) && WholeLines(y)
  {
    var d, y := PrintedSigned(cseq), CSeqHeader(cseq);
    SignedText(cseq);
    assert y[0] == 'C' && y[1] == 'S' && y[2] == 'e' && y[3] == 'q' && y[4] == ':' && y[5] == ' ';
    assert forall i | 6 <= i < |y| :: y[i] == (d + "\r\n")[i - 6];
    forall k | 0 <= k <= |y|
      ensures !Begins(SESSION, y[k..]) && !Begins(CONTENT_LENGTH, y[k..])
    {
      NotBegins(SESSION, y[k..], if k == 1 then 2 else 0);
      NotBegins(CONTENT_LENGTH, y[k..], if k == 0 then 1 else 0);
    }
  }

  /** The start of the headers: protocol version and sequence number name nothing else. */
  lemma StartLacks(cseq: word)
    ensures var x := "1.0\r\n" + CSeqHeader(cseq);
            Lacks(SESSION, x) && Lacks(CONTENT_LENGTH, x) && WholeLines(x)
  {
    LacksLetter(SESSION, "1.0\r\n");
    LacksLetter(CONTENT_LENGTH, "1.0\r\n");
    CSeqHeaderLacks(cseq);
    LacksConcat(SESSION, "1.0\r\n", CSeqHeader(cseq));
    LacksConcat(CONTENT_LENGTH, "1.0\r\n", CSeqHeader(cseq));
  }

  /** A header that follows `x`, in which its name does not occur: after the colon a blank, then the value. */
  lemma HeaderFound(name: string, x: string, y: string, value: string, tail: string)
    requires name != "" && Begins(name, y) && y[|name|..] == " " + (value + tail)
    requires forall k | 0 <= k < |x| :: !Begins(name, (x + y)[k..])
    requires value + tail != "" && !Blank((value + tail)[0])
    ensures Header(name, x + y) == Some(Until(value + tail, LineEnd, PARAM_MAX - 1))
  {
    AfterSkips(name, x, y, |name|);
    BlankSkipped(value + tail);
  }

  lemma BlankSkipped(s: string)
    requires s != "" && !Blank(s[0])
    ensures SkipBlank(" " + s) == s
  {
  }

  lemma CSeqFound(r: Sent)
    requires Sendable(r)
    ensures Header(CSEQ, Headers(r)) == Some(Piece(PrintedSigned(r.cseq), true))
  {
    var d := PrintedSigned(r.cseq);
    SignedText(r.cseq);
    var tail := "\r\n" + r.before + SessionHeader(r.session) + r.after + ContentHeader(r.content);
    FirstGrouped(d, r.before, SessionHeader(r.session), r.after, ContentHeader(r.content));
    CSeqIn(d, tail);
  }

  lemma FirstGrouped(d: string, a: string, b: string, c: string, e: string)
    ensures "1.0\r\n" + ("CSeq: " + d + "\r\n") + a + b + c + e
            == "1.0\r\n" + ("CSeq: " + (d + ("\r\n" + a + b + c + e)))
  {
  }

  lemma CSeqIn(d: string, tail: string)
    requires d != "" && Avoids(NotNumeric, d) && |d| < PARAM_MAX - 1 && tail != "" && LineEnd(tail[0])
    ensures Header(CSEQ, "1.0\r\n" + ("CSeq: " + (d + tail))) == Some(Piece(d, true))
  {
    var x, y := "1.0\r\n", "CSeq: " + (d + tail);
    LacksLetter(CSEQ, x);
    forall k | 0 <= k < |x|
      ensures !Begins(CSEQ, (x + y)[k..])
    {
      LacksAcross(CSEQ, x, y, k);
    }
    assert y[5..] == " " + (d + tail);
    assert (d + tail)[0] == d[0];
    HeaderFound(CSEQ, x, y, d, tail);
    UntilExact(d, tail, LineEnd, PARAM_MAX - 1);
  }

  lemma SessionFound(r: Sent)
    requires Sendable(r)
    ensures match r.session
            case None => Header(SESSION, Headers(r)) == None
            case Some(id) => Header(SESSION, Headers(r)).Some? && Header(SESSION, Headers(r)).value.text == id
  {
    StartLacks(r.cseq);
    LacksConcat(SESSION, "1.0\r\n" + CSeqHeader(r.cseq), r.before);
    match r.session
    case None => NoSession(r);
    case Some(id) => SomeSession(r, "1.0\r\n" + CSeqHeader(r.cseq) + r.before, id);
  }

  lemma NoSession(r: Sent)
    requires Sendable(r) && r.session.None?
    requires var x := "1.0\r\n" + CSeqHeader(r.cseq) + r.before; Lacks(SESSION, x) && WholeLines(x)
    ensures Header(SESSION, Headers(r)) == None
  {
    var x := "1.0\r\n" + CSeqHeader(r.cseq) + r.before;
    ContentHeaderLacks(r.content);
    NothingIn(x, r.after, ContentHeader(r.content));
  }

  lemma NothingIn(x: string, a: string, e: string)
    requires Lacks(SESSION, x) && WholeLines(x) && Lacks(SESSION, a) && WholeLines(a) && Lacks(SESSION, e)
    ensures Header(SESSION, x + "" + a + e) == None
  {
    LacksConcat(SESSION, x, a);
    LacksConcat(SESSION, x + a, e);
    assert x + "" == x;
    AfterNothing(SESSION, x + a + e, 8);
  }

  lemma SomeSession(r: Sent, x: string, id: string)
    requires Sendable(r) && r.session == Some(id)
    requires x == "1.0\r\n" + CSeqHeader(r.cseq) + r.before && Lacks(SESSION, x) && WholeLines(x)
    ensures Header(SESSION, Headers(r)).Some? && Header(SESSION, Headers(r)).value.text == id
  {
    var tail := "\r\n" + r.after + ContentHeader(r.content);
    SecondGrouped(x, id, r.after, ContentHeader(r.content));
    SessionIn(x, id, tail);
  }

  lemma SecondGrouped(x: string, id: string, c: string, e: string)
    ensures x + ("Session: " + id + "\r\n") + c + e == x + ("Session: " + (id + ("\r\n" + c + e)))
  {
  }

  lemma SessionIn(x: string, id: string, tail: string)
    requires Lacks(SESSION, x) && WholeLines(x) && GoodSession(id) && tail != "" && LineEnd(tail[0])
    ensures var h := Header(SESSION, x + ("Session: " + (id + tail))); h.Some? && h.value.text == id
  {
    var y := "Session: " + (id + tail);
    forall k | 0 <= k < |x|
      ensures !Begins(SESSION, (x + y)[k..])
    {
      LacksAcross(SESSION, x, y, k);
    }
    assert y[8..] == " " + (id + tail);
    assert (id + tail)[0] == if id == "" then tail[0] else id[0];
    HeaderFound(SESSION, x, y, id, tail);
    UntilFull(id, tail, LineEnd, PARAM_MAX - 1);
  }

  lemma ContentHeaderLacks(content: string)
    requires |content| < 0x1_0000_0000
    ensures Lacks(SESSION, ContentHeader(content))
  {
    var d, x := PrintedSigned(|content|), ContentHeader(content);
    SignedText(|content|);
    if content != "" {
      assert x == "Content-Length: " + (d + "\r\n");
      assert forall i | 16 <= i < |x| :: x[i] == (d + "\r\n")[i - 16];
      assert forall i | 0 <= i < 16 :: x[i] == "Content-Length: "[i];
    }
    LacksLetter(SESSION, x);
  }

  lemma ContentFound(r: Sent)
    requires Sendable(r)
    ensures ContentLength(Headers(r), 0) == |r.content|
  {
    var x := "1.0\r\n" + CSeqHeader(r.cseq);
    StartLacks(r.cseq);
    LacksConcat(CONTENT_LENGTH, x, r.before);
    LacksConcat(CONTENT_LENGTH, x + r.before, SessionHeader(r.session));
    var z := x + r.before + SessionHeader(r.session);
    LacksConcat(CONTENT_LENGTH, z, r.after);
    assert Headers(r) == z + r.after + ContentHeader(r.content);
    if r.content == "" {
      assert Headers(r) == z + r.after;
      ContentNothing(Headers(r), 0);
    } else {
      var y := ContentHeader(r.content);
      forall k | 0 <= k < |z + r.after|
        ensures !Begins(CONTENT_LENGTH, (z + r.after + y)[k..])
      {
        LacksAcross(CONTENT_LENGTH, z + r.after, y, k);
      }
      ContentSkips(z + r.after, y, 0);
      ContentRead(r.content);
    }
  }

  lemma ContentRead(content: string)
    requires content != "" && |content| < 0x1_0000_0000
    ensures ContentLength(ContentHeader(content), 0) == |content| && |ContentHeader(content)| > 15
  {
    var d := PrintedSigned(|content|);
    SignedText(|content|);
    SignedScanned(|content|, "\r\n");
    assert ContentHeader(content) == "Content-Length: " + (d + "\r\n");
    ContentIn(d, |content|);
  }

  lemma ContentIn(d: string, n: nat)
    requires d != "" && Avoids(NotNumeric, d) && ScanUnsigned(d + "\r\n") == Some(n)
    ensures ContentLength("Content-Length: " + (d + "\r\n"), 0) == n
  {
    ContentShape(d);
    ContentOne("Content-Length: " + (d + "\r\n"), d + "\r\n", n);
    DigitsLackContent(d);
    ContentNothing((d + "\r\n")[1..], n);
  }

  lemma ContentShape(d: string)
    requires d != "" && Avoids(NotNumeric, d)
    ensures var y := "Content-Length: " + (d + "\r\n");
            |y| > 15 && Begins(CONTENT_LENGTH, y) && SkipBlank(y[15..]) == d + "\r\n"
  {
  }

  lemma ContentOne(y: string, rest: string, n: nat)
    requires |y| > 15 && Begins(CONTENT_LENGTH, y) && SkipBlank(y[15..]) == rest != "" && ScanUnsigned(rest) == Some(n)
    ensures ContentLength(y, 0) == ContentLength(rest[1..], n)
  {
  }

  lemma DigitsLackContent(d: string)
    requires d != "" && Avoids(NotNumeric, d)
    ensures Lacks(CONTENT_LENGTH, (d + "\r\n")[1..])
  {
    var rest := (d + "\r\n")[1..];
    assert forall i | 0 <= i < |rest| :: rest[i] == (d + "\r\n")[i + 1];
    LacksLetter(CONTENT_LENGTH, rest);
  }

  // ----- the whole -----

  /**
   What the client put into a request is what the server gets out of it; only the first
   half of the path is unescaped.
   */
  lemma RoundTrip(r: Sent)
    requires Sendable(r)
    ensures Parse(Lines(r))
         == Some(Request(r.command, Unescaped(r.preSuffix), r.suffix, PrintedSigned(r.cseq),
                         if r.session.Some? then r.session.value else "", |r.content|))
  {
    CommandFound(r);
    PathSplit(r, Headers(r));
    CSeqFound(r);
    SessionFound(r);
    ContentFound(r);
  }

  /** A path without escapes comes through as it is. */
  lemma PlainPath(r: Sent)
    requires Sendable(r) && '%' !in r.preSuffix && '\0' !in r.preSuffix
    ensures Parse(Lines(r)).Some? && Parse(Lines(r)).value.preSuffix == r.preSuffix
  {
    RoundTrip(r);
    CStringWhole(r.preSuffix);
    DecodedPlain(r.preSuffix);
  }

  lemma CStringWhole(s: string)
    requires '\0' !in s
    ensures CString(s) == s
  {
  }

  /** A path is unescaped whatever part of it is escaped. */
  lemma EscapedPath(r: Sent, pre: string, how: seq<Spelling>)
    requires Sendable(r) && Escapable(pre, how) && '\0' !in pre && r.preSuffix == Escaped(pre, how)
    ensures Parse(Lines(r)).Some? && Parse(Lines(r)).value.preSuffix == pre
  {
    RoundTrip(r);
    EscapedHasNoNul(pre, how);
    CStringWhole(r.preSuffix);
    DecodedEscaped(pre, how);
    CStringWhole(pre);
  }

  lemma {:induction false} EscapedHasNoNul(s: string, how: seq<Spelling>)
    requires Escapable(s, how) && '\0' !in s
    ensures '\0' !in Escaped(s, how)
  {
    if s != "" {
      EscapedHasNoNul(s[1..], how[1..]);
    }
  }

  lemma CommandFound(r: Sent)
    requires Sendable(r)
    ensures var t := Lines(r);
            && t != "" && SkipWhite(t) == t && Until(t, Blank, PARAM_MAX - 1) == Piece(r.command, true)
            && PathPart(t[|r.command|..]) == "/" + PathText(r) + " RTSP/" + Headers(r)
  {
    CommandIn(r.command, r.host, PathText(r), Headers(r));
  }

  lemma CommandIn(command: string, host: string, path: string, headers: string)
    requires GoodCommand(command) && Avoids(HostEnd, host) && |headers| > 8
    ensures var t := command + " " + "rtsp://" + host + "/" + path + " RTSP/" + headers;
            && t != "" && SkipWhite(t) == t && Until(t, Blank, PARAM_MAX - 1) == Piece(command, true)
            && PathPart(t[|command|..]) == "/" + path + " RTSP/" + headers
  {
    var tail := "/" + path + " RTSP/" + headers;
    var rest := " " + ("rtsp://" + host + tail);
    var t := command + rest;
    Grouped(command, host, path, headers);
    assert t[0] == command[0];
    UntilExact(command, rest, Blank, PARAM_MAX - 1);
    assert t[|command|..] == rest;
    PathFound(host, tail);
  }

  lemma Grouped(command: string, host: string, path: string, headers: string)
    ensures command + " " + "rtsp://" + host + "/" + path + " RTSP/" + headers
         == command + (" " + ("rtsp://" + host + ("/" + path + " RTSP/" + headers)))
  {
  }

  // ----- through the server -----

  /** What the server's reading of the headers says about the body. */
  function BodyOf(lines: string): Option<nat> {
    match Parse(lines)
    case None => None
    case Some(q) => Some(q.contentLength)
  }

  // ----- no empty line but the last -----

  const CRLF: string := "\r\n"

  /** Whole lines, none of them empty. */
  ghost predicate Solid(s: string) {
    s == "" || (|s| > 2 && s[|s| - 2..] == CRLF && s[..2] != CRLF && forall e: nat :: !RequestScan.BlankAt(s, e))
  }

  /** No field breaks its line, and the other header lines are whole and not empty. */
  ghost predicate Unbroken(r: Sent) {
    && Avoids(LineEnd, r.command) && Avoids(LineEnd, r.host) && Avoids(LineEnd, PathText(r))
    && Solid(r.before) && Solid(r.after)
  }

  /** An empty line is spelt like this. */
  lemma BlankSpelt(s: string, e: nat)
    requires e + 4 <= |s|
    ensures RequestScan.BlankAt(s, e) <==> s[e] == '\r' && s[e + 1] == '\n' && s[e + 2] == '\r' && s[e + 3] == '\n'
  {
    var w := s[e..e + 4];
    assert w == [s[e], s[e + 1], s[e + 2], s[e + 3]];
  }

  lemma Ends(s: string)
    requires |s| >= 2
    ensures s[|s| - 2..] == CRLF <==> s[|s| - 2] == '\r' && s[|s| - 1] == '\n'
    ensures s[..2] == CRLF <==> s[0] == '\r' && s[1] == '\n'
  {
    assert s[|s| - 2..] == [s[|s| - 2], s[|s| - 1]];
    assert s[..2] == [s[0], s[1]];
  }

  lemma SolidConcat(a: string, b: string)
    requires Solid(a) && Solid(b)
    ensures Solid(a + b)
  {
    if a == "" {
      assert a + b == b;
    } else if b == "" {
      assert a + b == a;
    } else {
      Ends(a);
      Ends(b);
      Ends(a + b);
      forall e: nat
        ensures !RequestScan.BlankAt(a + b, e)
      {
        NoBlankAcross(a, b, e);
      }
    }
  }

  /** An empty line would have to lie within one of the parts, or begin with the second. */
  lemma NoBlankAcross(a: string, b: string, e: nat)
    requires a != "" && b != "" && Solid(a) && Solid(b)
    ensures !RequestScan.BlankAt(a + b, e)
  {
    var s, n := a + b, |a|;
    if e + 4 <= |s| {
      BlankSpelt(s, e);
      Ends(a);
      Ends(b);
      if e + 4 <= n {
        BlankSpelt(a, e);
      } else if e >= n {
        BlankSpelt(b, e - n);
        assert forall k | n <= k < |s| :: s[k] == b[k - n];
      } else {
        assert s[n - 1] == a[n - 1] && s[n] == b[0] && s[n + 1] == b[1];
      }
    }
  }

  /** One line that is not broken is solid. */
  lemma SolidLine(line: string)
    requires line != "" && Avoids(LineEnd, line)
    ensures Solid(line + CRLF)
  {
    var s := line + CRLF;
    Ends(s);
    assert s[0] == line[0];
    forall e: nat
      ensures !RequestScan.BlankAt(s, e)
    {
      if e + 4 <= |s| {
        BlankSpelt(s, e);
        assert s[e] == line[e];
      }
    }
  }

  /** The first empty line after solid lines is the one that is added. */
  lemma BlankAfterSolid(s: string)
    requires Solid(s) && s != ""
    ensures RequestScan.FirstBlank(s + CRLF, 0) == Some(|s| - 2)
  {
    var t, n := s + CRLF, |s|;
    Ends(s);
    BlankSpelt(t, n - 2);
    forall e: nat | e < n - 2
      ensures !RequestScan.BlankAt(t, e)
    {
      NoBlankBefore(s, e);
    }
    FirstAt(t, n - 2);
  }

  lemma NoBlankBefore(s: string, e: nat)
    requires Solid(s) && e + 2 < |s|
    ensures !RequestScan.BlankAt(s + CRLF, e)
  {
    var t := s + CRLF;
    BlankSpelt(t, e);
    if e + 4 <= |s| {
      BlankSpelt(s, e);
      assert t[e] == s[e] && t[e + 1] == s[e + 1] && t[e + 2] == s[e + 2] && t[e + 3] == s[e + 3];
    } else {
      assert t[e + 3] == '\r';
    }
  }

  lemma FirstAt(t: string, at: nat)
    requires RequestScan.BlankAt(t, at) && forall e: nat | e < at :: !RequestScan.BlankAt(t, e)
    ensures RequestScan.FirstBlank(t, 0) == Some(at)
  {
    var r := RequestScan.FirstBlank(t, 0);
  }

  lemma JoinedAvoids(p: char -> bool, a: string, b: string)
    requires Avoids(p, a) && Avoids(p, b)
    ensures Avoids(p, a + b)
  {
  }

  lemma FirstLineSolid(command: string, host: string, path: string)
    requires command != "" && Avoids(LineEnd, command) && Avoids(LineEnd, host) && Avoids(LineEnd, path)
    ensures Solid(command + " " + "rtsp://" + host + "/" + path + " RTSP/1.0" + CRLF)
  {
    JoinedAvoids(LineEnd, command, " ");
    JoinedAvoids(LineEnd, command + " ", "rtsp://");
    JoinedAvoids(LineEnd, command + " " + "rtsp://", host);
    JoinedAvoids(LineEnd, command + " " + "rtsp://" + host, "/");
    JoinedAvoids(LineEnd, command + " " + "rtsp://" + host + "/", path);
    JoinedAvoids(LineEnd, command + " " + "rtsp://" + host + "/" + path, " RTSP/1.0");
    SolidLine(command + " " + "rtsp://" + host + "/" + path + " RTSP/1.0");
  }

  lemma HeaderSolid(name: string, value: string)
    requires name != "" && Avoids(LineEnd, name) && Avoids(LineEnd, value)
    ensures Solid(name + value + CRLF)
  {
    JoinedAvoids(LineEnd, name, value);
    SolidLine(name + value);
  }

  lemma NumberSolid(name: string, n: word)
    requires name != "" && Avoids(LineEnd, name)
    ensures Solid(name + PrintedSigned(n) + CRLF)
  {
    SignedText(n);
    HeaderSolid(name, PrintedSigned(n));
  }

  /** Six blocks of solid lines one after the other. */
  lemma SolidBlocks(a: string, b: string, c: string, d: string, e: string, f: string)
    requires Solid(a) && Solid(b) && Solid(c) && Solid(d) && Solid(e) && Solid(f)
    ensures Solid(a + (b + c + d + e + f))
  {
    SolidConcat(b, c);
    SolidConcat(b + c, d);
    SolidConcat(b + c + d, e);
    SolidConcat(b + c + d + e, f);
    SolidConcat(a, b + c + d + e + f);
  }

  /** No line of a request is empty but the last. */
  lemma NoEmptyLine(r: Sent)
    requires Sendable(r) && Unbroken(r)
    ensures RequestScan.FirstBlank(Lines(r) + CRLF, 0) == Some(|Lines(r)| - 2)
  {
    LinesSolid(r);
    BlankAfterSolid(Lines(r));
  }

  lemma HeadersSolid(cseq: word, session: Option<string>, content: string)
    requires |content| < 0x1_0000_0000
    requires session.Some? ==> Avoids(LineEnd, session.value)
    ensures Solid(CSeqHeader(cseq)) && Solid(SessionHeader(session)) && Solid(ContentHeader(content))
  {
    NumberSolid("CSeq: ", cseq);
    NumberSolid("Content-Length: ", |content|);
    SessionSolid(session);
  }

  lemma SessionSolid(session: Option<string>)
    requires session.Some? ==> Avoids(LineEnd, session.value)
    ensures Solid(SessionHeader(session))
  {
    if session.Some? {
      HeaderSolid("Session: ", session.value);
    }
  }

  lemma LinesSolid(r: Sent)
    requires Sendable(r) && Unbroken(r)
    ensures Solid(Lines(r)) && Lines(r) != ""
  {
    FirstLineSolid(r.command, r.host, PathText(r));
    HeadersSolid(r.cseq, r.session, r.content);
    SolidBlocks(r.command + " " + "rtsp://" + r.host + "/" + PathText(r) + " RTSP/1.0" + CRLF,
      CSeqHeader(r.cseq), r.before, SessionHeader(r.session), r.after, ContentHeader(r.content));
    LinesGrouped(r);
  }

  lemma LinesGrouped(r: Sent)
    ensures Lines(r) == r.command + " " + "rtsp://" + r.host + "/" + PathText(r) + " RTSP/1.0" + CRLF
                        + (CSeqHeader(r.cseq) + r.before + SessionHeader(r.session) + r.after
                          + ContentHeader(r.content))
  {
    VersionGrouped(r.command + " " + "rtsp://" + r.host + "/" + PathText(r), CSeqHeader(r.cseq), r.before,
      SessionHeader(r.session), r.after, ContentHeader(r.content));
  }

  lemma VersionGrouped(x: string, a: string, b: string, c: string, d: string, e: string)
    ensures x + " RTSP/" + ("1.0\r\n" + a + b + c + d + e) == x + " RTSP/1.0" + CRLF + (a + b + c + d + e)
  {
    assert " RTSP/" + "1.0\r\n" == " RTSP/1.0" + CRLF;
    FiveGrouped("1.0\r\n", a, b, c, d, e);
  }

  lemma FiveGrouped(x: string, a: string, b: string, c: string, d: string, e: string)
    ensures x + a + b + c + d + e == x + (a + b + c + d + e)
  {
  }

  function Message(r: Sent): RequestScan.Request {
    RequestScan.Request(Lines(r) + "\r\n", r.content)
  }

  lemma BodyOfSent(r: Sent)
    requires Sendable(r)
    ensures |Lines(r)| >= 2 && BodyOf(Lines(r)) == Some(|r.content|)
  {
    RoundTrip(r);
  }

  lemma WellFormedAnyway(parse: RequestScan.HeaderParser, lines: string, body: string)
    requires RequestScan.FirstBlank(lines + "\r\n", 0) == Some(|lines| - 2) && |lines| >= 2
    requires parse(lines) == Some(|body|)
    ensures RequestScan.WellFormed(parse, RequestScan.Request(lines + "\r\n", body))
  {
    assert (lines + "\r\n")[..|lines|] == lines;
  }

  function Map<A, B>(f: A -> B, xs: seq<A>): seq<B> {
    seq(|xs|, i requires 0 <= i < |xs| => f(xs[i]))
  }

  lemma MapTail<A, B>(f: A -> B, xs: seq<A>)
    requires xs != []
    ensures Map(f, xs) == [f(xs[0])] + Map(f, xs[1..])
  {
  }

  function Messages(rs: seq<Sent>): seq<RequestScan.Request> {
    Map(Message, rs)
  }

  /** The bytes of requests sent one after the other. */
  function PrintedAll(rs: seq<Sent>): string {
    if rs == [] then "" else Printed(rs[0]) + PrintedAll(rs[1..])
  }

  lemma {:induction false} PrintedMessages(rs: seq<Sent>)
    ensures RequestScan.Print(Messages(rs)) == PrintedAll(rs)
  {
    if rs != [] {
      PrintedMessages(rs[1..]);
      MessagePrinted(rs[0]);
      MapTail(Message, rs);
      OnePrinted(Message(rs[0]), Messages(rs[1..]), Printed(rs[0]));
    }
  }

  lemma MessagePrinted(r: Sent)
    ensures Message(r).head + Message(r).body == Printed(r)
  {
  }

  lemma OnePrinted(m: RequestScan.Request, ms: seq<RequestScan.Request>, text: string)
    requires m.head + m.body == text
    ensures RequestScan.Print([m] + ms) == text + RequestScan.Print(ms)
  {
  }

  /** They reach the server as they were, however many there are. */
  lemma Pipelined(rs: seq<Sent>)
    requires forall r <- rs :: Sendable(r) && Unbroken(r)
    ensures RequestScan.Requests(BodyOf, PrintedAll(rs)) == RequestScan.Split(Messages(rs), "")
  {
    forall r <- rs
      ensures RequestScan.WellFormed(BodyOf, Message(r))
    {
      BodyOfSent(r);
      NoEmptyLine(r);
      WellFormedMessage(BodyOf, r);
    }
    PrintedMessages(rs);
    MapAll(Message, q => RequestScan.WellFormed(BodyOf, q), rs);
    RequestScan.PrintedRequests(BodyOf, Messages(rs));
  }

  lemma MapAll<A, B>(f: A -> B, p: B -> bool, xs: seq<A>)
    requires forall x <- xs :: p(f(x))
    ensures forall y <- Map(f, xs) :: p(y)
  {
  }

  lemma WellFormedMessage(parse: RequestScan.HeaderParser, r: Sent)
    requires |Lines(r)| >= 2 && parse(Lines(r)) == Some(|r.content|)
    requires RequestScan.FirstBlank(Lines(r) + CRLF, 0) == Some(|Lines(r)| - 2)
    ensures RequestScan.WellFormed(parse, Message(r))
  {
    WellFormedAnyway(parse, Lines(r), r.content);
  }
}
