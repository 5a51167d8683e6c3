/**
 A playlist as a client reads it: line by line, each number up to the first
 character that is no digit.
 */
module PlaylistRead {
  import opened Wrappers
  import opened Decimals
  import opened Playlist

  /** What follows `p`, if `s` begins with it. */
  function Strip(p: string, s: string): Option<string> {
    if p <= s then Some(s[|p|..]) else None
  }

  /** The digits at the beginning of `s`. */
  function Leading(s: string): (d: string)
    ensures AllDigits(d) && d <= s
  {
    if s != "" && Digit(s[0]) then [s[0]] + Leading(s[1..]) else ""
  }

  datatype Found<T> = Found(value: T, rest: string)

  /** `p`, and then a number. */
  function ReadNumber(p: string, s: string): Option<Found<nat>> {
    match Strip(p, s)
    case None => None
    case Some(t) => Some(Found(Number(Leading(t)), t[|Leading(t)|..]))
  }

  /** The duration; then where the segment starts and, again, how long it is. */
  function ReadSegment(name: string, s: string): Option<Found<Segment>> {
    match ReadNumber("#EXTINF:", s)
    case None => None
    case Some(Found(length, s1)) =>
      match ReadNumber(",\r\n" + name + "?segment=", s1)
      case None => None
      case Some(Found(start, s2)) =>
        match ReadNumber(",", s2)
        case None => None
        case Some(Found(again, s3)) =>
          match Strip("\r\n", s3)
          case None => None
          case Some(rest) => if again == length then Some(Found(Segment(start, length), rest)) else None
  }

  /** Takes one segment off the front. */
  type Reader = string -> Option<Found<Segment>>

  /** As many segments as there are. */
  function ReadAll(read: Reader, s: string): Found<seq<Segment>>
    decreases |s|
  {
    match read(s)
    case None => Found([], s)
    case Some(Found(e, rest)) =>
      if |rest| >= |s| then Found([], s)
      else var more := ReadAll(read, rest); Found([e] + more.value, more.rest)
  }

  function Reading(name: string): Reader {
    s => ReadSegment(name, s)
  }

  datatype Listing = Listing(target: nat, segments: seq<Segment>)

  /** A whole playlist, up to its end mark. */
  function ReadPlaylist(name: string, s: string): Option<Listing> {
    match ReadNumber(PREFIX_START, s)
    case None => None
    case Some(Found(target, s1)) =>
      match Strip("\r\n", s1)
      case None => None
      case Some(s2) =>
        var body := ReadAll(Reading(name), s2);
        if body.rest == "#EXT-X-ENDLIST\r\n" then Some(Listing(target, body.value)) else None
  }

  lemma StripBack(p: string, rest: string)
    ensures Strip(p, p + rest) == Some(rest)
  {
  }

  lemma {:induction false} LeadingBack(d: string, rest: string)
    requires AllDigits(d) && (rest == "" || !Digit(rest[0]))
    ensures Leading(d + rest) == d
  {
    if d == "" {
      assert d + rest == rest;
    } else {
      assert (d + rest)[1..] == d[1..] + rest;
      LeadingBack(d[1..], rest);
    }
  }

  lemma ReadNumberBack(p: string, n: nat, rest: string)
    requires rest == "" || !Digit(rest[0])
    ensures ReadNumber(p, p + Decimal(n) + rest) == Some(Found(n, rest))
  {
    var t := Decimal(n) + rest;
    assert p + Decimal(n) + rest == p + t;
    StripBack(p, t);
    LeadingBack(Decimal(n), rest);
    NumberOfDecimal(n);
    assert t[|Decimal(n)|..] == rest;
  }

  lemma SpecBack(name: string, e: Segment, rest: string)
    requires e.start < 0x8000_0000
    ensures ReadSegment(name, Spec(name, e) + rest) == Some(Found(e, rest))
  {
    var p1, p2, p3, p4 := "#EXTINF:", ",\r\n" + name + "?segment=", ",", "\r\n";
    var a, b := Decimal(e.length), Decimal(e.start);
    var s3 := p4 + rest;
    var s2 := p3 + a + s3;
    var s1 := p2 + b + s2;
    SpecPieces(p1, ",\r\n", name, "?segment=", a, b, p3, p4, rest);
    assert Spec(name, e) + rest == p1 + a + s1;
    ReadNumberBack(p1, e.length, s1);
    ReadNumberBack(p2, e.start, s2);
    ReadNumberBack(p3, e.length, s3);
    StripBack(p4, rest);
  }

  lemma SpecPieces(p1: string, x: string, name: string, y: string, a: string, b: string, p3: string, p4: string,
    rest: string)
    ensures p1 + a + x + name + y + b + p3 + a + p4 + rest
         == p1 + a + (x + name + y + b + (p3 + a + (p4 + rest)))
  {
  }

  lemma {:induction false} SpecsFirst(describe: Segment -> string, es: seq<Segment>)
    requires es != []
    ensures Specs(describe, es) == describe(es[0]) + Specs(describe, es[1..])
  {
    var n := |es| - 1;
    if n == 0 {
      assert es[..0] == [] && es[1..] == [];
    } else {
      SpecsFirst(describe, es[..n]);
      assert es[..n][1..] == es[1..][..n - 1] && es[1..][n - 1] == es[n];
      Regrouped(describe(es[0]), Specs(describe, es[1..][..n - 1]), describe(es[n]));
    }
  }

  lemma Regrouped(x: string, y: string, z: string)
    ensures (x + y) + z == x + (y + z)
  {
  }

  lemma {:induction false} SpecsBack(read: Reader, describe: Segment -> string, es: seq<Segment>, suffix: string)
    requires read(suffix) == None
    requires forall e <- es, rest :: read(describe(e) + rest) == Some(Found(e, rest)) && describe(e) != ""
    ensures ReadAll(read, Specs(describe, es) + suffix) == Found(es, suffix)
    decreases |es|
  {
    if es == [] {
      assert Specs(describe, es) + suffix == suffix;
    } else {
      var more := Specs(describe, es[1..]) + suffix;
      SpecsFirst(describe, es);
      Regrouped(describe(es[0]), Specs(describe, es[1..]), suffix);
      SpecsBack(read, describe, es[1..], suffix);
      assert read(describe(es[0]) + more) == Some(Found(es[0], more));
      assert es == [es[0]] + es[1..];
    }
  }

  lemma NoMore(name: string)
    ensures ReadSegment(name, SUFFIX) == None
  {
    assert SUFFIX[4] == '-' && "#EXTINF:"[4] == 'I';
  }

  /** A client reads the target duration and every segment, in order, from the text that is sent. */
  lemma TextBack(name: string, target: nat, es: seq<Segment>)
    requires forall e <- es :: e.start < 0x8000_0000
    ensures ReadPlaylist(name, Text(name, target, es)) == Some(Listing(target, es))
  {
    var body := Specs(Describing(name), es) + SUFFIX;
    PrefixPieces(PREFIX_START, Decimal(target), "\r\n", Specs(Describing(name), es), SUFFIX);
    ReadNumberBack(PREFIX_START, target, "\r\n" + body);
    StripBack("\r\n", body);
    BodyBack(name, es);
  }

  lemma PrefixPieces(p: string, d: string, end: string, specs: string, suffix: string)
    ensures p + d + end + specs + suffix == p + d + (end + (specs + suffix))
  {
  }

  lemma BodyBack(name: string, es: seq<Segment>)
    requires forall e <- es :: e.start < 0x8000_0000
    ensures ReadAll(Reading(name), Specs(Describing(name), es) + SUFFIX) == Found(es, SUFFIX)
  {
    var read, describe := Reading(name), Describing(name);
    NoMore(name);
    forall e <- es, rest: string
      ensures read(describe(e) + rest) == Some(Found(e, rest)) && describe(e) != ""
    {
      SpecBack(name, e, rest);
    }
    SpecsBack(read, describe, es, SUFFIX);
  }
}
