/** What a request must have to be accepted, and how large its parts can be. */
module RequestLimits {
  import opened Wrappers
  import opened Decimals
  import opened RequestLine
  import opened RequestParse
  import opened RequestRoundTrip

  /** Every part, with its final NUL, fits a buffer of 200 characters. */
  lemma PartsFit(s: string)
    requires Parse(s).Some?
    ensures var r := Parse(s).value;
            && |r.command| < 200 && |r.preSuffix| < 200 && |r.suffix| < 200
            && |r.cseq| < 200 && |r.session| < 200 && r.contentLength < 0x1_0000_0000
  {
    var t := SkipWhite(s);
    var command := Until(t, Blank, PARAM_MAX - 1);
    var u := PathPart(t[|command.text|..]);
    HalvesFit(u);
    var path := SplitPath(u).value;
    LengthBound(path.rest, 0);
  }

  lemma HalvesFit(u: string)
    requires SplitPath(u).Some?
    ensures |SplitPath(u).value.preSuffix| < 200 && |SplitPath(u).value.suffix| < 200
  {
    var k := LastNonSpace(u, FindProtocol(u, 1) - 1);
    var k1 := LastSlash(u, k);
    UnescapedShorter(if k1 >= 1 then u[1..k1] else "");
  }

  lemma UnescapedShorter(s: string)
    ensures |Unescaped(s)| <= |s|
  {
  }

  lemma {:induction false} LengthBound(s: string, sofar: nat)
    requires sofar < 0x1_0000_0000
    ensures ContentLength(s, sofar) < 0x1_0000_0000
    decreases |s|
  {
    if |s| > 15 {
      if Begins(CONTENT_LENGTH, s) {
        var rest := SkipBlank(s[15..]);
        SkipBlankShrinks(s[15..]);
        var n := ScanUnsigned(rest);
        if rest != "" {
          LengthBound(rest[1..], if n.Some? then n.value else sofar);
        }
      } else {
        LengthBound(s[1..], sofar);
      }
    }
  }

  // ----- what must be there -----

  /** `t` is the end of `s`. */
  predicate Ends(s: string, t: string) {
    |t| <= |s| && s[|s| - |t|..] == t
  }

  lemma EndsFurther(s: string, t: string, i: nat)
    requires Ends(s, t) && i <= |t|
    ensures Ends(s, t[i..])
  {
    assert s[|s| - |t[i..]|..] == s[|s| - |t|..][i..];
  }

  lemma {:induction false} WhiteEnds(s: string)
    ensures Ends(s, SkipWhite(s))
  {
    if s != "" && White(s[0]) {
      WhiteEnds(s[1..]);
      assert s[|s| - |SkipWhite(s)|..] == s[1..][|s[1..]| - |SkipWhite(s)|..];
    }
  }

  lemma {:induction false} BlankEnds(s: string)
    ensures Ends(s, SkipBlank(s))
  {
    if s != "" && Blank(s[0]) {
      BlankEnds(s[1..]);
      assert s[|s| - |SkipBlank(s)|..] == s[1..][|s[1..]| - |SkipBlank(s)|..];
    }
  }

  lemma {:induction false} HostEnds(s: string)
    ensures Ends(s, SkipHost(s))
  {
    if s != "" && !HostEnd(s[0]) {
      HostEnds(s[1..]);
      assert s[|s| - |SkipHost(s)|..] == s[1..][|s[1..]| - |SkipHost(s)|..];
    }
  }

  lemma {:induction false} AfterEnds(pattern: string, s: string, margin: nat)
    requires margin >= |pattern| && After(pattern, s, margin).Some?
    ensures Ends(s, After(pattern, s, margin).value)
    decreases |s|
  {
    if !Begins(pattern, s) {
      AfterEnds(pattern, s[1..], margin);
      var t := After(pattern, s, margin).value;
      assert s[|s| - |t|..] == s[1..][|s[1..]| - |t|..];
    }
  }

  lemma EndsTwice(s: string, t: string, u: string)
    requires Ends(s, t) && Ends(t, u)
    ensures Ends(s, u)
  {
    EndsFurther(s, t, |t| - |u|);
  }

  /** From the second character on, the path and what follows it is the end of the request. */
  lemma PathEnds(s: string)
    requires PathPart(s) != ""
    ensures Ends(s, PathPart(s)[1..])
  {
    assert Ends(s, s);
    EndsFurther(s, s, 1);
    var v := SkipBlank(s[1..]);
    BlankEnds(s[1..]);
    EndsTwice(s, s[1..], v);
    if After(RTSP_URL, v, 8).Some? {
      var rest := After(RTSP_URL, v, 8).value;
      AfterEnds(RTSP_URL, v, 8);
      EndsTwice(s, v, rest);
      if rest != "" && rest[0] == '/' {
        EndsFurther(s, rest, 1);
        HostEnds(rest[1..]);
        EndsTwice(s, rest[1..], SkipHost(rest[1..]));
        EndsFurther(s, SkipHost(rest[1..]), 1);
      } else {
        assert ("/" + rest)[1..] == rest;
      }
    }
  }

  lemma LacksEnd(pattern: string, s: string, t: string)
    requires Lacks(pattern, s) && Ends(s, t)
    ensures Lacks(pattern, t)
  {
    forall k | 0 <= k <= |t|
      ensures !Begins(pattern, t[k..])
    {
      assert t[k..] == s[|s| - |t| + k..];
    }
  }

  /** The path and what follows it, found behind the command. */
  lemma PartFound(s: string) returns (part: string)
    requires Parse(s).Some?
    ensures part != "" && Ends(s, part[1..]) && SplitPath(part).Some?
    ensures Header(CSEQ, SplitPath(part).value.rest).Some?
  {
    var t := SkipWhite(s);
    WhiteEnds(s);
    var n := |Until(t, Blank, PARAM_MAX - 1).text|;
    part := PathPart(t[n..]);
    EndsFurther(s, t, n);
    PathEnds(t[n..]);
    EndsTwice(s, t[n..], part[1..]);
  }

  /** The headers are at the end of that. */
  lemma HeadersEnd(part: string)
    requires part != "" && SplitPath(part).Some?
    ensures Ends(part[1..], SplitPath(part).value.rest)
  {
    var k := LastNonSpace(part, FindProtocol(part, 1) - 1);
    if k + 7 <= |part| {
      assert part[1..][k + 6..] == part[k + 7..];
    }
  }

  /** Without a sequence number, in whichever case its name is written, nothing is accepted. */
  lemma SequenceNumberNeeded(s: string)
    requires Lacks(CSEQ, s)
    ensures Parse(s) == None
  {
    if Parse(s).Some? {
      var part := PartFound(s);
      var u := SplitPath(part).value.rest;
      HeadersEnd(part);
      EndsTwice(s, part[1..], u);
      LacksEnd(CSEQ, s, u);
      AfterNothing(CSEQ, u, |CSEQ|);
      assert false;
    }
  }

  /** Nor without the protocol. */
  lemma ProtocolNeeded(s: string)
    requires Parse(s).Some?
    ensures exists k :: 0 <= k <= |s| && ProtocolAt(s, k)
  {
    var part := PartFound(s);
    var p := ProtocolIn(part);
    ProtocolWithin(s, part, p);
  }

  lemma ProtocolWithin(s: string, part: string, p: nat)
    requires 1 <= p && ProtocolAt(part, p) && Ends(s, part[1..])
    ensures exists k :: 0 <= k <= |s| && ProtocolAt(s, k)
  {
    Within(s, part[1..], p - 1, 5);
    assert part[1..][p - 1..p + 4] == part[p..p + 5];
    var k := |s| - |part[1..]| + (p - 1);
    assert ProtocolAt(s, k);
  }

  lemma ProtocolIn(part: string) returns (p: nat)
    requires SplitPath(part).Some?
    ensures 1 <= p && ProtocolAt(part, p)
  {
    p := FindProtocol(part, 1);
  }

  lemma Within(s: string, t: string, i: nat, n: nat)
    requires Ends(s, t) && i + n <= |t|
    ensures s[|s| - |t| + i..|s| - |t| + i + n] == t[i..i + n]
  {
    var from := |s| - |t|;
    var x, y := s[from + i..from + i + n], t[i..i + n];
    forall k | 0 <= k < n
      ensures x[k] == y[k]
    {
      assert s[from..][i + k] == t[i + k];
    }
  }

  // ----- numbers -----

  /**
   A number of any size after white space and perhaps a sign: the low 32 bits of it, or of
   what is missing to 2^64, but the largest if it takes more than 64.
   */
  lemma NumberScanned(space: string, sign: string, v: nat, rest: string)
    requires (forall c <- space :: c in " \t\n\r\U{000b}\U{000c}") && (sign == "" || sign == "+" || sign == "-")
    requires rest == "" || !Digit(rest[0])
    ensures ScanUnsigned(space + (sign + (Decimal(v) + rest)))
         == Some(if v >= 0x1_0000_0000_0000_0000 then 0xFFFF_FFFF
                 else if sign == "-" then (0x1_0000_0000_0000_0000 - v) % 0x1_0000_0000 else v % 0x1_0000_0000)
  {
    var d := Decimal(v);
    var t := sign + (d + rest);
    assert (d + rest)[0] == d[0] && Digit(d[0]);
    SpaceSkipped(space, t);
    SignTaken(sign, d + rest);
    NumberOfDecimal(v);
    DigitsExact(d, rest);
    ScanOf(space + t, t, d + rest, d);
    LowBitsAre(v, t[0] == '-');
  }

  lemma SignTaken(sign: string, u: string)
    requires (sign == "" || sign == "+" || sign == "-") && u != "" && !Sign(u[0])
    ensures u == if Sign((sign + u)[0]) then (sign + u)[1..] else sign + u
    ensures (sign + u)[0] == '-' <==> sign == "-"
  {
  }

  lemma ScanOf(s: string, t: string, u: string, d: string)
    requires SkipSpace(s) == t != "" && u == (if Sign(t[0]) then t[1..] else t) && Digits(u) == d != ""
    ensures ScanUnsigned(s) == Some(LowBits(Number(d), t[0] == '-'))
  {
  }

  lemma LowBitsAre(v: nat, negative: bool)
    ensures LowBits(v, negative)
         == if v >= 0x1_0000_0000_0000_0000 then 0xFFFF_FFFF
            else if negative then (0x1_0000_0000_0000_0000 - v) % 0x1_0000_0000 else v % 0x1_0000_0000
  {
  }

  lemma {:induction false} SpaceSkipped(space: string, t: string)
    requires (forall c <- space :: Space(c)) && t != "" && !Space(t[0])
    ensures SkipSpace(space + t) == t
  {
    if space == "" {
      assert space + t == t;
    } else {
      assert (space + t)[1..] == space[1..] + t && space[0] in space;
      SpaceSkipped(space[1..], t);
    }
  }

  /** White space, and NULs, before a request do not matter. */
  lemma {:induction false} WhiteIgnored(white: string, s: string)
    requires forall c <- white :: c == ' ' || c == '\t' || c == '\r' || c == '\n' || c == '\0'
    ensures Parse(white + s) == Parse(s)
  {
    WhiteSkipped(white, s);
  }

  lemma {:induction false} WhiteSkipped(white: string, s: string)
    requires forall c <- white :: White(c)
    ensures SkipWhite(white + s) == SkipWhite(s)
  {
    if white == "" {
      assert white + s == s;
    } else {
      assert (white + s)[1..] == white[1..] + s && white[0] in white;
      WhiteSkipped(white[1..], s);
    }
  }

  // ----- more than one content length -----

  function LengthHeader(n: nat): string {
    "Content-Length: " + (Decimal(n) + "\r\n")
  }

  /** One header is read, and the search goes on behind it. */
  lemma HeaderThen(n: nat, more: string, sofar: nat)
    requires n < 0x1_0000_0000
    ensures ContentLength(LengthHeader(n) + more, sofar) == ContentLength(more, n)
  {
    HeaderRead(n, more, sofar);
    var d := Decimal(n);
    FirstOff(d, "\r\n", more);
    DecimalNumeric(n);
    DigitsLackContent(d);
    SearchedOver(d[1..] + "\r\n", more, n);
  }

  lemma HeaderRead(n: nat, more: string, sofar: nat)
    requires n < 0x1_0000_0000
    ensures ContentLength(LengthHeader(n) + more, sofar) == ContentLength(Decimal(n)[1..] + "\r\n" + more, n)
  {
    var d := Decimal(n);
    HeaderShape(d, more);
    NumberOfDecimal(n);
    LineScanned(d, n, "\r\n", more);
    FirstOff(d, "\r\n", more);
    HeaderStep(LengthHeader(n) + more, d + "\r\n" + more, n, sofar);
  }

  lemma LineScanned(d: string, n: nat, end: string, more: string)
    requires d != "" && AllDigits(d) && Number(d) == n < 0x1_0000_0000 && end != "" && !Digit(end[0])
    ensures ScanUnsigned(d + end + more) == Some(n)
  {
    assert d + end + more == d + (end + more);
    ScanExact(d, n, end + more);
  }

  lemma FirstOff(d: string, end: string, more: string)
    requires d != ""
    ensures (d + end)[1..] == d[1..] + end && (d + end + more)[1..] == d[1..] + end + more
  {
  }

  lemma HeaderStep(y: string, rest: string, n: nat, sofar: nat)
    requires |y| > 15 && Begins(CONTENT_LENGTH, y) && SkipBlank(y[15..]) == rest != "" && ScanUnsigned(rest) == Some(n)
    ensures ContentLength(y, sofar) == ContentLength(rest[1..], n)
  {
  }

  lemma DecimalNumeric(n: nat)
    ensures Avoids(NotNumeric, Decimal(n))
  {
  }

  lemma HeaderShape(d: string, more: string)
    requires d != "" && AllDigits(d)
    ensures var y := "Content-Length: " + (d + "\r\n") + more;
            |y| > 15 && Begins(CONTENT_LENGTH, y) && SkipBlank(y[15..]) == d + "\r\n" + more
  {
    var y := "Content-Length: " + (d + "\r\n") + more;
    assert y[15..] == " " + (d + "\r\n" + more);
    assert y[15..][1..] == d + "\r\n" + more;
    assert (d + "\r\n" + more)[0] == d[0] && Digit(d[0]);
  }

  /** Whole lines without the name are passed over. */
  lemma SearchedOver(x: string, more: string, sofar: nat)
    requires WholeLines(x) && Lacks(CONTENT_LENGTH, x)
    ensures ContentLength(x + more, sofar) == ContentLength(more, sofar)
  {
    forall k | 0 <= k < |x|
      ensures !Begins(CONTENT_LENGTH, (x + more)[k..])
    {
      LacksAcross(CONTENT_LENGTH, x, more, k);
    }
    PassedOver(x, more, sofar);
  }

  lemma {:induction false} PassedOver(x: string, more: string, sofar: nat)
    requires forall k | 0 <= k < |x| :: !Begins(CONTENT_LENGTH, (x + more)[k..])
    ensures ContentLength(x + more, sofar) == ContentLength(more, sofar)
  {
    if x == "" {
      assert x + more == more;
    } else {
      assert (x + more)[0..] == x + more;
      assert (x + more)[1..] == x[1..] + more;
      assert forall k | 0 <= k < |x[1..]| :: (x[1..] + more)[k..] == (x + more)[k + 1..];
      PassedOver(x[1..], more, sofar);
    }
  }

  /** Of two content lengths, whatever lines are around them, the last decides. */
  lemma LastLengthDecides(x: string, n: nat, y: string, m: nat, z: string)
    requires n < 0x1_0000_0000 && m < 0x1_0000_0000 && WholeLines(x) && WholeLines(y)
    requires Lacks(CONTENT_LENGTH, x) && Lacks(CONTENT_LENGTH, y) && Lacks(CONTENT_LENGTH, z)
    ensures ContentLength(x + (LengthHeader(n) + (y + (LengthHeader(m) + z))), 0) == m
  {
    SearchedOver(x, LengthHeader(n) + (y + (LengthHeader(m) + z)), 0);
    HeaderThen(n, y + (LengthHeader(m) + z), 0);
    SearchedOver(y, LengthHeader(m) + z, n);
    HeaderThen(m, z, n);
    ContentNothing(z, m);
  }
}
