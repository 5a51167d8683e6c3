/**
 Reading an RTSP request: command, the two halves of the path, and the
 headers the server needs, each copied to a buffer of limited size.
 */
module RequestParse {
  import opened Wrappers
  import opened Decimals
  import opened RequestLine

  datatype Request = Request(command: string, preSuffix: string, suffix: string, cseq: string, session: string,
    contentLength: nat)

  // ----- pieces of text -----

  function SkipWhite(s: string): string {
    if s != "" && White(s[0]) then SkipWhite(s[1..]) else s
  }

  function SkipBlank(s: string): string {
    if s != "" && Blank(s[0]) then SkipBlank(s[1..]) else s
  }

  datatype Piece = Piece(text: string, stopped: bool)

  /** The text up to a character that `stop` holds of; at most `max` characters are looked at. */
  function Until(s: string, stop: char -> bool, max: nat): (p: Piece)
    ensures |p.text| <= max && |p.text| <= |s|
  {
    if max == 0 || s == "" then Piece("", false)
    else if stop(s[0]) then Piece("", true)
    else
      var rest := Until(s[1..], stop, max - 1);
      Piece([s[0]] + rest.text, rest.stopped)
  }

  /** `s` begins with `pattern`, in whichever case; patterns are in lower case. */
  predicate Begins(pattern: string, s: string) {
    |pattern| <= |s| && forall k | 0 <= k < |pattern| :: Lower(s[k]) == pattern[k]
  }

  /** What follows the first occurrence of `pattern`, which may not be within `margin` of the end. */
  function After(pattern: string, s: string, margin: nat): (r: Option<string>)
    requires margin >= |pattern|
    ensures r.Some? ==> |r.value| < |s| || pattern == ""
  {
    if |s| <= margin then None
    else if Begins(pattern, s) then Some(s[|pattern|..])
    else After(pattern, s[1..], margin)
  }

  const RTSP_URL := "rtsp:/"
  const CSEQ := "cseq:"
  const SESSION := "session:"
  const CONTENT_LENGTH := "content-length:"

  // ----- the request line -----

  predicate HostEnd(c: char) { c == '/' || c == ' ' }

  function SkipHost(s: string): string {
    if s == "" || HostEnd(s[0]) then s else SkipHost(s[1..])
  }

  /**
   Where the path starts, given the blank after the command and all that follows: at the
   slash after the host, or else at the blank.
   */
  function PathPart(s: string): string {
    if s == "" then s else
    match After(RTSP_URL, SkipBlank(s[1..]), 8)
    case None => s
    case Some(rest) => if rest != "" && rest[0] == '/' then SkipHost(rest[1..]) else "/" + rest
  }

  predicate ProtocolAt(s: string, k: nat) {
    k + 5 <= |s| && s[k..k + 5] == "RTSP/"
  }

  /** The first `RTSP/` from `k` on that is not at the very end. */
  function FindProtocol(s: string, k: nat): (r: nat)
    ensures k + 5 < |s| ==> k <= r <= |s| - 5 && (r < |s| - 5 ==> ProtocolAt(s, r))
    ensures k + 5 >= |s| ==> r == k
    decreases |s| - k
  {
    if k + 5 < |s| && !ProtocolAt(s, k) then FindProtocol(s, k + 1) else k
  }

  /** Back over spaces, but not past the start. */
  function LastNonSpace(s: string, k: int): (r: int)
    requires -1 <= k < |s|
    ensures -1 <= r <= k
    decreases k + 1
  {
    if k >= 0 && s[k] == ' ' then LastNonSpace(s, k - 1) else k
  }

  /** Back to a slash; the start counts as one. */
  function LastSlash(s: string, k: int): (r: int)
    requires -1 <= k < |s|
    ensures -1 <= r <= k
    decreases k + 1
  {
    if k > 0 && s[k] != '/' then LastSlash(s, k - 1) else k
  }

  datatype Path = Path(preSuffix: string, suffix: string, rest: string)

  /** A C string ends at its first NUL. */
  function CString(s: string): (r: string)
    ensures r <= s && '\0' !in r
    ensures r == s || s[|r|] == '\0'
  {
    if s == "" || s[0] == '\0' then "" else [s[0]] + CString(s[1..])
  }

  /** What is left of a string once it has been through a buffer and decoded there. */
  function Unescaped(s: string): string {
    CString(Decoded(CString(s)))
  }

  /** The two halves of a path that ends at `k`, with its last slash at `k1`; both must fit their buffers. */
  function Halves(u: string, k: int, k1: int, unescape: string -> string): Option<Path>
    requires -1 <= k1 <= k < |u|
  {
    if (k1 + 1 <= k && k - k1 + 1 > PARAM_MAX) || (2 <= k1 && k1 > PARAM_MAX) then None
    else
      var rest := if k + 7 <= |u| then u[k + 7..] else "";
      Some(Path(unescape(if k1 >= 1 then u[1..k1] else ""), u[k1 + 1..k + 1], rest))
  }

  /** The path is what comes before the protocol. */
  function SplitPath(u: string): Option<Path> {
    var p := FindProtocol(u, 1);
    if p + 5 >= |u| then None else
      var k := LastNonSpace(u, p - 1);
      Halves(u, k, LastSlash(u, k), Unescaped)
  }

  // ----- headers -----

  /** The value of the first header with this name, or nothing. */
  function Header(name: string, s: string): Option<Piece>
    requires name != ""
  {
    match After(name, s, |name|)
    case None => None
    case Some(rest) => Some(Until(SkipBlank(rest), LineEnd, PARAM_MAX - 1))
  }

  predicate Space(c: char) { c == ' ' || '\t' <= c <= '\r' }

  function SkipSpace(s: string): string {
    if s != "" && Space(s[0]) then SkipSpace(s[1..]) else s
  }

  function Digits(s: string): (d: string)
    ensures d <= s && AllDigits(d)
  {
    if s != "" && Digit(s[0]) then [s[0]] + Digits(s[1..]) else ""
  }

  predicate Sign(c: char) { c == '-' || c == '+' }

  /**
   An unsigned number after any white space and perhaps a sign: the low 32 bits of what
   `strtoul` makes of it in 64.
   */
  function ScanUnsigned(s: string): Option<nat> {
    var t := SkipSpace(s);
    var d := Digits(if t != "" && Sign(t[0]) then t[1..] else t);
    if d == "" then None else Some(LowBits(Number(d), t[0] == '-'))
  }

  /** A number that is too large is read as the largest, and a negative one wraps around. */
  function LowBits(v: nat, negative: bool): nat {
    if v >= 0x1_0000_0000_0000_0000 then 0xFFFF_FFFF
    else if negative then (0x1_0000_0000_0000_0000 - v) % 0x1_0000_0000
    else v % 0x1_0000_0000
  }

  /** The last `Content-Length:` that is followed by a number decides. */
  function ContentLength(s: string, sofar: nat): nat
    decreases |s|
  {
    if |s| <= 15 then sofar
    else if Begins(CONTENT_LENGTH, s) then
      var rest := SkipBlank(s[15..]);
      SkipBlankShrinks(s[15..]);
      var n := ScanUnsigned(rest);
      var now := if n.Some? then n.value else sofar;
      if rest == "" then now else ContentLength(rest[1..], now)
    else ContentLength(s[1..], sofar)
  }

  lemma SkipBlankShrinks(s: string)
    ensures |SkipBlank(s)| <= |s|
  {
  }

  // ----- the whole -----

  /** The headers: a sequence number there must be. */
  function Fields(command: string, path: Path): Option<Request> {
    var cseq := Header(CSEQ, path.rest);
    if cseq.None? || !cseq.value.stopped then None else
      var session := Header(SESSION, path.rest);
      Some(Request(command, path.preSuffix, path.suffix, cseq.value.text,
                   if session.Some? then session.value.text else "", ContentLength(path.rest, 0)))
  }

  function Parse(s: string): Option<Request> {
    var t := SkipWhite(s);
    if t == "" then None else
      var command := Until(t, Blank, PARAM_MAX - 1);
      if !command.stopped then None else
        match SplitPath(PathPart(t[|command.text|..]))
        case None => None
        case Some(path) => Fields(command.text, path)
  }

  // ----- the program -----

  /** Copies characters up to one that `stop` holds of, at most `max`. */
  method CopyUntil(s: string, stop: char -> bool, max: nat) returns (p: Piece)
    ensures p == Until(s, stop, max)
  {
    var n, text: string := 0, "";
    ghost var all := Until(s, stop, max);
    ghost var left := all;
    assert s[0..] == s;
    while n < max && n < |s|
      invariant n <= max && n <= |s|
      invariant all == Prefixed(text, left) && left == Until(s[n..], stop, max - n)
    {
      UntilStep(s, n, stop, max - n);
      if stop(s[n]) {
        return Piece(text, true);
      }
      ghost var next := Until(s[n + 1..], stop, max - n - 1);
      PrefixedTwice(text, s[n], next);
      left := next;
      text := text + [s[n]];
      n := n + 1;
    }
    assert left == Piece("", false);
    return Piece(text, false);
  }

  function Prefixed(text: string, p: Piece): Piece { Piece(text + p.text, p.stopped) }

  lemma PrefixedTwice(text: string, c: char, p: Piece)
    ensures Prefixed(text, Prefixed([c], p)) == Prefixed(text + [c], p)
  {
  }

  lemma UntilStep(s: string, n: nat, stop: char -> bool, max: nat)
    requires n < |s| && max > 0
    ensures Until(s[n..], stop, max) == if stop(s[n]) then Piece("", true)
            else Prefixed([s[n]], Until(s[n + 1..], stop, max - 1))
  {
  }

  /** Looks for the pattern and skips over it. */
  method Find(pattern: string, s: string, margin: nat) returns (r: Option<string>)
    requires margin >= |pattern|
    ensures r == After(pattern, s, margin)
  {
    var j := 0;
    assert s[0..] == s;
    while |s| - j > margin
      invariant 0 <= j <= |s| && After(pattern, s, margin) == After(pattern, s[j..], margin)
    {
      var here := BeginsHere(pattern, s, j);
      if here {
        assert s[j..][|pattern|..] == s[j + |pattern|..];
        return Some(s[j + |pattern|..]);
      }
      assert s[j..][1..] == s[j + 1..];
      j := j + 1;
    }
    return None;
  }

  /** Compares without regard to case. */
  method BeginsHere(pattern: string, s: string, j: nat) returns (yes: bool)
    requires j + |pattern| <= |s|
    ensures yes == Begins(pattern, s[j..])
  {
    for k := 0 to |pattern|
      invariant forall i | 0 <= i < k :: Lower(s[j..][i]) == pattern[i]
    {
      assert s[j..][k] == s[j + k];
      if Lower(s[j + k]) != pattern[k] {
        return false;
      }
    }
    return true;
  }

  method SkipBlanks(s: string) returns (rest: string)
    ensures rest == SkipBlank(s)
  {
    var j := 0;
    assert s[0..] == s;
    while j < |s| && Blank(s[j])
      invariant 0 <= j <= |s| && SkipBlank(s) == SkipBlank(s[j..])
    {
      assert s[j..][1..] == s[j + 1..];
      j := j + 1;
    }
    rest := s[j..];
  }

  /** Where the path starts. */
  method FindPath(s: string) returns (u: string)
    ensures u == PathPart(s)
  {
    if s == "" {
      return s;
    }
    var v := SkipBlanks(s[1..]);
    var found := Find(RTSP_URL, v, 8);
    match found
    case None => u := s;
    case Some(rest) =>
      if rest != "" && rest[0] == '/' {
        var t := rest[1..];
        var j := 0;
        assert t[0..] == t;
        while j < |t| && t[j] != '/' && t[j] != ' '
          invariant 0 <= j <= |t| && SkipHost(t) == SkipHost(t[j..])
        {
          assert t[j..][1..] == t[j + 1..];
          j := j + 1;
        }
        u := t[j..];
      } else {
        u := "/" + rest;
      }
  }

  /** Looks for the protocol, then back for the end of the path and its last slash. */
  method Locate(u: string) returns (p: nat, k: int, k1: int)
    ensures p == FindProtocol(u, 1)
    ensures p + 5 < |u| ==> k == LastNonSpace(u, p - 1) && k1 == LastSlash(u, k)
  {
    p, k, k1 := 1, 0, 0;
    while p + 5 < |u| && u[p..p + 5] != "RTSP/"
      invariant 1 <= p && FindProtocol(u, 1) == FindProtocol(u, p)
      decreases |u| - p
    {
      p := p + 1;
    }
    if p + 5 >= |u| {
      return;
    }
    k := p - 1;
    while k >= 0 && u[k] == ' '
      invariant -1 <= k < p && LastNonSpace(u, p - 1) == LastNonSpace(u, k)
    {
      k := k - 1;
    }
    k1 := k;
    while k1 > 0 && u[k1] != '/'
      invariant -1 <= k1 <= k && LastSlash(u, k) == LastSlash(u, k1)
    {
      k1 := k1 - 1;
    }
  }

  method ReadPath(u: string) returns (r: Option<Path>)
    ensures r == SplitPath(u)
  {
    var p, k, k1 := Locate(u);
    if p + 5 >= |u| {
      return None;
    }
    r := CopyHalves(u, k, k1, Unescaped);
  }

  ghost predicate Unescapes(unescape: string -> string) {
    forall s {:trigger Unescaped(s)} :: unescape(s) == Unescaped(s)
  }

  method CopyHalves(u: string, k: int, k1: int, ghost unescape: string -> string) returns (r: Option<Path>)
    requires -1 <= k1 <= k < |u| && Unescapes(unescape)
    ensures r == Halves(u, k, k1, unescape)
  {
    if k1 + 1 <= k && k - k1 + 1 > PARAM_MAX {
      return None;
    }
    if 2 <= k1 && k1 > PARAM_MAX {
      return None;
    }
    var pre := Unescape(if k1 >= 1 then u[1..k1] else "", unescape);
    r := Some(Path(pre, u[k1 + 1..k + 1], if k + 7 <= |u| then u[k + 7..] else ""));
  }

  /** Copies the string to a buffer, decodes it there and reads it back. */
  method Unescape(s: string, ghost unescape: string -> string) returns (r: string)
    requires |s| < PARAM_MAX && Unescapes(unescape)
    ensures r == unescape(s)
  {
    assert unescape(s) == Unescaped(s);
    var url := new char[PARAM_MAX];
    forall i | 0 <= i < |s| {
      url[i] := s[i];
    }
    url[|s|] := '\0';
    ghost var c := CString(s);
    CStringIn(s);
    assert url[..|c|] == c && url[|c|] == '\0';
    DecodeURL(url, |c|);
    r := ReadString(url, Decoded(c));
  }

  /** Reads up to the first NUL. */
  method ReadString(url: array<char>, ghost d: string) returns (r: string)
    requires |d| < url.Length && url[..|d| + 1] == d + ['\0']
    ensures r == CString(d)
  {
    assert forall k | 0 <= k <= |d| :: url[k] == (d + ['\0'])[k];
    var n := 0;
    while url[n] != '\0'
      invariant 0 <= n <= |d| && forall k | 0 <= k < n :: url[k] != '\0'
      decreases |d| - n
    {
      n := n + 1;
    }
    assert url[..n] == d[..n];
    CStringIs(d, n);
    r := url[..n];
  }

  lemma CStringIn(s: string)
    ensures var c := CString(s);
            |c| <= |s| && (forall i | 0 <= i < |c| :: s[i] == c[i] != '\0') && (|c| < |s| ==> s[|c|] == '\0')
  {
  }

  lemma {:induction false} CStringIs(d: string, n: nat)
    requires n <= |d| && '\0' !in d[..n] && (n < |d| ==> d[n] == '\0')
    ensures CString(d) == d[..n]
  {
  }

  method ReadHeader(name: string, s: string) returns (r: Option<Piece>)
    requires name != ""
    ensures r == Header(name, s)
  {
    var found := Find(name, s, |name|);
    match found
    case None => r := None;
    case Some(rest) =>
      var v := SkipBlanks(rest);
      var piece := CopyUntil(v, LineEnd, PARAM_MAX - 1);
      r := Some(piece);
  }

  method ReadContentLength(s: string) returns (contentLength: nat)
    ensures contentLength == ContentLength(s, 0)
  {
    contentLength := 0;
    var t := s;
    while |t| > 15
      invariant ContentLength(s, 0) == ContentLength(t, contentLength)
      decreases |t|
    {
      var here := BeginsHere(CONTENT_LENGTH, t, 0);
      assert t[0..] == t;
      if here {
        var rest := SkipBlanks(t[15..]);
        SkipBlankShrinks(t[15..]);
        var n := ScanUnsigned(rest);
        if n.Some? {
          contentLength := n.value;
        }
        t := if rest == "" then "" else rest[1..];
      } else {
        t := t[1..];
      }
    }
  }

  method ParseRTSPRequestString(s: string) returns (r: Option<Request>)
    ensures r == Parse(s)
  {
    var i := 0;
    assert s[0..] == s;
    while i < |s| && White(s[i])
      invariant 0 <= i <= |s| && SkipWhite(s) == SkipWhite(s[i..])
    {
      assert s[i..][1..] == s[i + 1..];
      i := i + 1;
    }
    if i == |s| {
      return None;
    }
    var t := s[i..];
    var command := CopyUntil(t, Blank, PARAM_MAX - 1);
    if !command.stopped {
      return None;
    }
    var u := FindPath(t[|command.text|..]);
    var path := ReadPath(u);
    if path.None? {
      return None;
    }
    r := ReadFields(command.text, path.value);
  }

  method ReadFields(command: string, path: Path) returns (r: Option<Request>)
    ensures r == Fields(command, path)
  {
    var cseq := ReadHeader(CSEQ, path.rest);
    if cseq.None? || !cseq.value.stopped {
      return None;
    }
    var session := ReadHeader(SESSION, path.rest);
    var contentLength := ReadContentLength(path.rest);
    var id := if session.Some? then session.value.text else "";
    r := Some(Request(command, path.preSuffix, path.suffix, cseq.value.text, id, contentLength));
  }
}
