/**
 RTSP requests as the client prints them and the server reads them: the
 request line and the headers the server looks at (sections 6 and 12 of
 RFC 2326), and percent-decoding in place.
 */
module RequestLine {

  /** Size of the buffers that parts of a request are copied to, the final NUL included. */
  const PARAM_MAX: nat := 200

  predicate White(c: char) { c == ' ' || c == '\t' || c == '\r' || c == '\n' || c == '\0' }
  predicate Blank(c: char) { c == ' ' || c == '\t' }
  predicate LineEnd(c: char) { c == '\r' || c == '\n' }

  function Lower(c: char): char {
    if 'A' <= c <= 'Z' then c - 'A' + 'a' else c
  }

  // ----- percent-decoding -----

  predicate IsHex(c: char) { '0' <= c <= '9' || 'a' <= c <= 'f' || 'A' <= c <= 'F' }

  function HexValue(c: char): (v: nat)
    requires IsHex(c)
    ensures v < 16
  {
    if '0' <= c <= '9' then (c - '0') as nat
    else if 'a' <= c <= 'f' then (c - 'a') as nat + 10
    else (c - 'A') as nat + 10
  }

  predicate Escape(s: string) {
    |s| >= 3 && s[0] == '%' && IsHex(s[1]) && IsHex(s[2])
  }

  /**
   How much of `s` makes its first character, and which: a `%` that is not followed by
   two hexadecimal digits stays as it is.
   */
  function Width(s: string): (w: nat)
    requires s != ""
    ensures 0 < w <= |s|
  {
    if Escape(s) then 3 else 1
  }

  function FirstChar(s: string): char
    requires s != ""
  {
    if Escape(s) then (16 * HexValue(s[1]) + HexValue(s[2])) as char else s[0]
  }

  function Decoded(s: string): (d: string)
    ensures |d| <= |s|
  {
    if s == "" then "" else [FirstChar(s)] + Decoded(s[Width(s)..])
  }

  function HexDigit(v: nat, capital: bool): (c: char)
    requires v < 16
    ensures IsHex(c)
  {
    if v < 10 then '0' + v as char else if capital then 'A' + (v - 10) as char else 'a' + (v - 10) as char
  }

  /** A digit in either case stands for its place among the digits. */
  lemma HexPlace(c: char)
    requires IsHex(c)
    ensures "0123456789abcdef"[HexValue(c)] == Lower(c)
  {
  }

  lemma HexBack(v: nat, capital: bool)
    requires v < 16
    ensures HexValue(HexDigit(v, capital)) == v
  {
  }

  /** How a character is written: as it is, or as an escape with each digit in either case. */
  datatype Spelling = Plain | Hex(capital1: bool, capital2: bool)

  function Spelled(c: char, how: Spelling): string
    requires how.Hex? ==> c as int < 256
  {
    match how
    case Plain => [c]
    case Hex(capital1, capital2) => ['%', HexDigit(c as nat / 16, capital1), HexDigit(c as nat % 16, capital2)]
  }

  /** Characters above 255 have no escape, and a percent sign is not written as it is. */
  predicate Escapable(s: string, how: seq<Spelling>) {
    |how| == |s| && forall i | 0 <= i < |s| :: if how[i].Hex? then s[i] as int < 256 else s[i] != '%'
  }

  /** `s` with any choice of characters escaped. */
  function Escaped(s: string, how: seq<Spelling>): string
    requires Escapable(s, how)
  {
    if s == "" then "" else Spelled(s[0], how[0]) + Escaped(s[1..], how[1..])
  }

  lemma SpelledDecoded(c: char, how: Spelling, rest: string)
    requires if how.Hex? then c as int < 256 else c != '%'
    ensures Decoded(Spelled(c, how) + rest) == [c] + Decoded(rest)
  {
    var e := Spelled(c, how) + rest;
    if how.Hex? {
      HexBack(c as nat / 16, how.capital1);
      HexBack(c as nat % 16, how.capital2);
      assert e[1] == HexDigit(c as nat / 16, how.capital1) && e[2] == HexDigit(c as nat % 16, how.capital2);
      assert e[3..] == rest;
    } else {
      assert e[1..] == rest;
    }
  }

  /** Decoding undoes every way of escaping. */
  lemma {:induction false} DecodedEscaped(s: string, how: seq<Spelling>)
    requires Escapable(s, how)
    ensures Decoded(Escaped(s, how)) == s
  {
    if s != "" {
      DecodedEscaped(s[1..], how[1..]);
      SpelledDecoded(s[0], how[0], Escaped(s[1..], how[1..]));
    }
  }

  /** A percent sign that two hexadecimal digits do not follow stays. */
  lemma DecodedBogus(rest: string)
    requires |rest| < 2 || !IsHex(rest[0]) || !IsHex(rest[1])
    ensures Decoded("%" + rest) == "%" + Decoded(rest)
  {
    assert ("%" + rest)[1..] == rest;
  }

  lemma {:induction false} DecodedPlain(s: string)
    requires '%' !in s
    ensures Decoded(s) == s
  {
    if s != "" {
      DecodedPlain(s[1..]);
    }
  }

  /**
   Replaces each escape in the string that ends at the first NUL of `url`; what is read
   is never overwritten first.
   */
  method DecodeURL(url: array<char>, ghost n: nat)
    requires n < url.Length && url[n] == '\0' && forall k | 0 <= k < n :: url[k] != '\0'
    modifies url
    ensures var d := Decoded(old(url[..n]));
            url[..|d| + 1] == d + ['\0'] && url[|d| + 1..] == old(url[|d| + 1..])
  {
    var cursor, to := 0, 0;
    ghost var all := Decoded(url[..n]);
    while url[cursor] != '\0'
      invariant 0 <= to <= cursor <= n
      invariant forall k | to <= k < url.Length :: url[k] == old(url[k])
      invariant all == url[..to] + Decoded(url[cursor..n])
      decreases n - cursor
    {
      cursor, to := DecodeOne(url, cursor, to, n, all);
    }
    assert cursor == n && all == url[..to];
    url[to] := '\0';
  }

  /** One turn of the loop: what is done and what is to come make up the whole as before. */
  method DecodeOne(url: array<char>, cursor: nat, to: nat, ghost n: nat, ghost all: string)
    returns (cursor2: nat, to2: nat)
    requires to <= cursor < n < url.Length && url[n] == '\0' && forall k | cursor <= k < n :: url[k] != '\0'
    requires all == url[..to] + Decoded(url[cursor..n])
    modifies url
    ensures to2 == to + 1 <= cursor + 1 <= cursor2 <= n
    ensures all == url[..to2] + Decoded(url[cursor2..n])
    ensures forall k | to2 <= k < url.Length :: url[k] == old(url[k])
  {
    ghost var rest := url[cursor..n];
    DecodedFirst(url[..to], rest);
    SliceOn(url[..], cursor, n, Width(rest));
    assert url[..][cursor..n] == rest;
    cursor2, to2 := CopyOne(url, cursor, to, n);
    assert url[cursor2..n] == rest[Width(rest)..];
  }

  /** Moves one character down, decoding it if it is escaped. */
  method CopyOne(url: array<char>, cursor: nat, to: nat, ghost n: nat) returns (cursor2: nat, to2: nat)
    requires to <= cursor < n < url.Length && url[n] == '\0' && forall k | cursor <= k < n :: url[k] != '\0'
    modifies url
    ensures to2 == to + 1 && cursor2 == cursor + Width(old(url[cursor..n]))
    ensures url[..to2] == old(url[..to]) + [FirstChar(old(url[cursor..n]))]
    ensures forall k | to2 <= k < url.Length :: url[k] == old(url[k])
  {
    var c, width := NextChar(url, cursor, n);
    url[to] := c;
    return cursor + width, to + 1;
  }

  lemma DecodedFirst(done: string, rest: string)
    requires rest != ""
    ensures done + Decoded(rest) == done + [FirstChar(rest)] + Decoded(rest[Width(rest)..])
  {
  }

  lemma SliceOn(s: string, from: nat, n: nat, width: nat)
    requires from + width <= n <= |s|
    ensures s[from..n][width..] == s[from + width..n]
  {
  }

  method NextChar(url: array<char>, cursor: nat, ghost n: nat) returns (c: char, width: nat)
    requires cursor < n < url.Length && url[n] == '\0' && forall k | cursor <= k < n :: url[k] != '\0'
    ensures c == FirstChar(url[cursor..n]) && width == Width(url[cursor..n])
  {
    ghost var s := url[cursor..n];
    assert forall k | 0 <= k < |s| :: s[k] == url[cursor + k];
    if url[cursor] == '%' && url[cursor + 1] != '\0' && IsHex(url[cursor + 1]) && url[cursor + 2] != '\0'
      && IsHex(url[cursor + 2]) {
      c, width := (16 * HexValue(url[cursor + 1]) + HexValue(url[cursor + 2])) as char, 3;
    } else {
      c, width := url[cursor], 1;
    }
  }
}
