/**
 How the RTSP server finds requests in the bytes a client sends: each request
 is a block of header lines ended by an empty line, then as many bytes as its
 `Content-Length:` says. The bytes come in pieces of any size.
 */
module RequestScan {
  import opened Wrappers

  /** `head` ends with the empty line. */
  datatype Request = Request(head: string, body: string)

  /**
   The header parser, given the header lines without the empty one: the
   content length of a well-formed request, or nothing if it is not RTSP.
   */
  type HeaderParser = string -> Option<nat>

  const BLANK: string := "\r\n\r\n"

  // ----- the stream as a whole -----

  predicate BlankAt(s: string, e: nat) {
    e + 4 <= |s| && s[e..e + 4] == BLANK
  }

  /** Where the first empty line at or after `from` is. */
  function FirstBlank(s: string, from: nat): (r: Option<nat>)
    ensures r.None? ==> forall e :: from <= e ==> !BlankAt(s, e)
    ensures r.Some? ==> from <= r.value && BlankAt(s, r.value) && forall e :: from <= e < r.value ==> !BlankAt(s, e)
    decreases |s| - from
  {
    if from + 4 > |s| then None
    else if BlankAt(s, from) then Some(from)
    else FirstBlank(s, from + 1)
  }

  function BodyLength(parse: HeaderParser, lines: string): nat {
    match parse(lines)
    case None => 0
    case Some(n) => n
  }

  /** The request at the start of `s`, once all of it is there. */
  function First(parse: HeaderParser, s: string): (r: Option<Request>)
    ensures r.Some? ==> 0 < Size(r.value) <= |s|
  {
    match FirstBlank(s, 0)
    case None => None
    case Some(e) =>
      var n := BodyLength(parse, s[..e + 2]);
      if e + 4 + n <= |s| then Some(Request(s[..e + 4], s[e + 4..e + 4 + n])) else None
  }

  function Size(r: Request): nat { |r.head| + |r.body| }

  datatype Split = Split(requests: seq<Request>, tail: string)

  /** Takes a request off the front of a stream. */
  type Cut = string -> Option<Request>

  function SplitBy(cut: Cut, s: string): Split
    decreases |s|
  {
    var r := cut(s);
    if r.Some? && 0 < Size(r.value) <= |s| then
      var rest := SplitBy(cut, s[Size(r.value)..]);
      Split([r.value] + rest.requests, rest.tail)
    else
      Split([], s)
  }

  function CutFirst(parse: HeaderParser): Cut {
    s => First(parse, s)
  }

  /** `cut` takes off what `First` finds. */
  ghost predicate Cuts(cut: Cut, parse: HeaderParser) {
    forall s {:trigger First(parse, s)} :: cut(s) == First(parse, s)
  }

  /** All complete requests in `s`, and what is left over. */
  function Requests(parse: HeaderParser, s: string): Split {
    SplitBy(CutFirst(parse), s)
  }

  /** A complete request is the same whatever follows it. */
  lemma FirstStable(parse: HeaderParser, a: string, b: string)
    requires First(parse, a).Some?
    ensures First(parse, a + b) == First(parse, a)
  {
    var e := FirstBlank(a, 0).value;
    var n := BodyLength(parse, a[..e + 2]);
    SameBlanks(a, b, e);
    SamePieces(a, b, e, n);
    assert FirstBlank(a + b, 0) == Some(e);
  }

  lemma SamePieces(a: string, b: string, e: nat, n: nat)
    requires e + 4 + n <= |a|
    ensures (a + b)[..e + 2] == a[..e + 2] && (a + b)[..e + 4] == a[..e + 4]
    ensures (a + b)[e + 4..e + 4 + n] == a[e + 4..e + 4 + n]
  {
    SameSlice(a, b, 0, e + 2);
    SameSlice(a, b, 0, e + 4);
    SameSlice(a, b, e + 4, e + 4 + n);
  }

  lemma SameBlanks(a: string, b: string, e: nat)
    requires BlankAt(a, e)
    ensures forall k: nat | k <= e :: BlankAt(a + b, k) == BlankAt(a, k)
  {
    forall k: nat | k <= e
      ensures BlankAt(a + b, k) == BlankAt(a, k)
    {
      SameSlice(a, b, k, k + 4);
    }
  }

  lemma SameSlice(a: string, b: string, i: nat, j: nat)
    requires i <= j <= |a|
    ensures (a + b)[i..j] == a[i..j]
  {
  }

  /** Splitting can be resumed: only the left-over part need be kept. */
  lemma RequestsResume(parse: HeaderParser, a: string, b: string)
    ensures var r := Requests(parse, a);
            var rest := Requests(parse, r.tail + b);
            Requests(parse, a + b) == Split(r.requests + rest.requests, rest.tail)
  {
    forall a: string, b: string | CutFirst(parse)(a).Some?
      ensures CutFirst(parse)(a + b) == CutFirst(parse)(a)
    {
      FirstStable(parse, a, b);
    }
    SplitResume(CutFirst(parse), a, b);
  }

  ghost predicate Stable(cut: Cut) {
    forall a: string, b: string :: cut(a).Some? ==> cut(a + b) == cut(a)
  }

  lemma {:induction false} SplitResume(cut: Cut, a: string, b: string)
    requires Stable(cut)
    ensures var r := SplitBy(cut, a);
            var rest := SplitBy(cut, r.tail + b);
            SplitBy(cut, a + b) == Split(r.requests + rest.requests, rest.tail)
    decreases |a|
  {
    var r := cut(a);
    if r.Some? && 0 < Size(r.value) <= |a| {
      var n := Size(r.value);
      SplitResume(cut, a[n..], b);
      assert (a + b)[n..] == a[n..] + b;
    }
  }

  /** Of all the requests of `all`, those of `s` remain once `done` are handled. */
  ghost predicate Resumes(cut: Cut, all: string, done: seq<Request>, s: string) {
    SplitBy(cut, all) == Split(done + SplitBy(cut, s).requests, SplitBy(cut, s).tail)
  }

  lemma ResumesStep(cut: Cut, all: string, done: seq<Request>, s: string)
    requires Resumes(cut, all, done, s) && (cut(s).Some? ==> 0 < Size(cut(s).value) <= |s|)
    ensures match cut(s)
            case None => SplitBy(cut, all) == Split(done, s)
            case Some(r) => Resumes(cut, all, done + [r], s[Size(r)..])
  {
  }

  lemma SplitNothing(cut: Cut, all: string, done: seq<Request>)
    requires Resumes(cut, all, done, "")
    ensures SplitBy(cut, all) == Split(done, "")
  {
  }

  // ----- what a client sends -----

  /** A well-formed message: one empty line, at the end of the head, and a body of the length announced. */
  predicate WellFormed(parse: HeaderParser, r: Request) {
    && |r.head| >= 4
    && FirstBlank(r.head, 0) == Some(|r.head| - 4)
    && match parse(r.head[..|r.head| - 2])
       case None => r.body == ""          // what is not RTSP has no body
       case Some(n) => |r.body| == n
  }

  function Concat(parts: seq<string>): string {
    if parts == [] then "" else Concat(parts[..|parts| - 1]) + parts[|parts| - 1]
  }

  function Print(rs: seq<Request>): string {
    if rs == [] then "" else rs[0].head + rs[0].body + Print(rs[1..])
  }

  lemma FirstOfPrinted(parse: HeaderParser, r: Request, more: string)
    requires WellFormed(parse, r)
    ensures First(parse, r.head + r.body + more) == Some(r)
  {
    var e := |r.head| - 4;
    var s := r.head + r.body;
    SameBlanks(r.head, r.body, e);
    assert BlankAt(s, e);
    assert FirstBlank(s, 0) == Some(e);
    assert s[..e + 2] == r.head[..e + 2];
    assert s[..e + 4] == r.head;
    assert s[e + 4..] == r.body;
    FirstStable(parse, s, more);
  }

  /** Pipelined requests come out as they went in. */
  lemma PrintedRequests(parse: HeaderParser, rs: seq<Request>)
    requires forall r <- rs :: WellFormed(parse, r)
    ensures Requests(parse, Print(rs)) == Split(rs, "")
  {
    forall r <- rs, more: string
      ensures CutFirst(parse)(r.head + r.body + more) == Some(r) && Size(r) > 0
    {
      FirstOfPrinted(parse, r, more);
    }
    SplitPrinted(CutFirst(parse), rs);
  }

  lemma {:induction false} SplitPrinted(cut: Cut, rs: seq<Request>)
    requires forall r <- rs, more: string :: cut(r.head + r.body + more) == Some(r) && Size(r) > 0
    requires cut("").None?
    ensures SplitBy(cut, Print(rs)) == Split(rs, "")
  {
    if rs != [] {
      SplitPrinted(cut, rs[1..]);
      var s := Print(rs);
      assert cut(rs[0].head + rs[0].body + Print(rs[1..])) == Some(rs[0]);
      assert s[Size(rs[0])..] == Print(rs[1..]);
    }
  }

  /**
   Conversely, nothing is dropped or invented: requests and left-over bytes make up the
   stream, and each request is well formed.
   */
  lemma RequestsPrint(parse: HeaderParser, s: string)
    ensures var r := Requests(parse, s);
            Print(r.requests) + r.tail == s && forall q <- r.requests :: WellFormed(parse, q)
  {
    var cut, good := CutFirst(parse), q => WellFormed(parse, q);
    forall s: string
      ensures TakesGood(cut, good, s)
    {
      if First(parse, s).Some? {
        FirstWellFormed(parse, s);
      }
    }
    SplitPrint(cut, good, s);
  }

  ghost predicate Heads(q: Request, s: string) {
    q.head + q.body <= s
  }

  /** What `cut` takes off a stream is good, and is the beginning of the stream. */
  ghost predicate TakesGood(cut: Cut, good: Request -> bool, s: string) {
    cut(s).Some? ==> good(cut(s).value) && Heads(cut(s).value, s)
  }

  ghost predicate TakesAllGood(cut: Cut, good: Request -> bool) {
    forall s: string :: TakesGood(cut, good, s)
  }

  lemma {:induction false} SplitPrint(cut: Cut, good: Request -> bool, s: string)
    requires TakesAllGood(cut, good)
    ensures var r := SplitBy(cut, s); Print(r.requests) + r.tail == s && forall q <- r.requests :: good(q)
    decreases |s|
  {
    var r := cut(s);
    if r.Some? && 0 < Size(r.value) <= |s| {
      var q := r.value;
      var rest := s[Size(q)..];
      SplitPrint(cut, good, rest);
      PrintCons(q, SplitBy(cut, rest).requests, SplitBy(cut, rest).tail);
      assert TakesGood(cut, good, s);
      HeadAndRest(q, s);
    }
  }

  lemma HeadAndRest(q: Request, s: string)
    requires Heads(q, s)
    ensures s == q.head + q.body + s[Size(q)..]
  {
  }

  lemma PrintCons(q: Request, rs: seq<Request>, tail: string)
    ensures Print([q] + rs) + tail == q.head + q.body + (Print(rs) + tail)
  {
  }

  lemma FirstWellFormed(parse: HeaderParser, s: string)
    requires First(parse, s).Some?
    ensures var q := First(parse, s).value; WellFormed(parse, q) && Heads(q, s)
  {
    var q := First(parse, s).value;
    var e := FirstBlank(s, 0).value;
    assert q.head[e..e + 4] == s[e..e + 4];
    SameBlanks(q.head, s[e + 4..], e);
    assert q.head + s[e + 4..] == s;
    assert FirstBlank(q.head, 0) == Some(e);
    assert q.head[..e + 2] == s[..e + 2];
  }

  // ----- the connection -----

  predicate CrlfAt(s: string, p: int) {
    0 <= p && p + 2 <= |s| && s[p] == '\r' && s[p + 1] == '\n'
  }

  lemma BlankIsTwoCrlfs(s: string, e: nat)
    ensures BlankAt(s, e) <==> CrlfAt(s, e) && CrlfAt(s, e + 2)
  {
    if e + 4 <= |s| {
      assert s[e..e + 4] == [s[e], s[e + 1], s[e + 2], s[e + 3]];
      assert BLANK == ['\r', '\n', '\r', '\n'];
    }
  }

  /** `mark` is a line end with no empty line before it; -3 before any is found. */
  predicate Marked(s: string, mark: int) {
    mark == -3 || (CrlfAt(s, mark) && forall e: nat | e < mark :: !(CrlfAt(s, e) && CrlfAt(s, e + 2)))
  }

  lemma MarkedOn(s: string, n: nat, mark: int)
    requires n <= |s| && Marked(s[..n], mark)
    ensures Marked(s, mark)
  {
    if mark >= 0 {
      forall e: nat | e < mark
        ensures !(CrlfAt(s, e) && CrlfAt(s, e + 2))
      {
        assert CrlfAt(s[..n], mark) && !(CrlfAt(s[..n], e) && CrlfAt(s[..n], e + 2));
      }
    }
  }

  lemma SameSlices(a: array<char>, end: nat, m: nat, n: nat)
    requires m <= n <= end <= a.Length
    ensures a[m..n] == a[..end][m..n]
  {
  }

  /** When the scan stops, the first empty line is at the mark, or nowhere. */
  lemma Scanned(s: string, mark: int, tmp: nat, found: bool)
    requires Marked(s, mark) && forall e: nat | mark < e < tmp :: !CrlfAt(s, e)
    requires if found then mark >= 0 && tmp == mark + 2 && CrlfAt(s, tmp) else tmp >= |s| - 1
    ensures FirstBlank(s, 0) == if found then Some(mark) else None
  {
    var r := FirstBlank(s, 0);
    if found {
      BlankIsTwoCrlfs(s, mark);
    }
    if r.Some? {
      BlankIsTwoCrlfs(s, r.value);
    }
  }

  class ClientConnection {
    const parse: HeaderParser
    const buffer: array<char>
    var seen: nat               // bytes of the buffer in use
    var bytesLeft: nat
    var lastCRLF: int
    var isActive: bool
    var log: seq<Request>       // requests handled

    constructor (p: HeaderParser, capacity: nat)
      requires capacity > 0
      ensures Valid() && isActive && seen == 0 && log == [] && parse == p && buffer.Length == capacity && fresh(buffer)
    {
      parse, buffer := p, new char[capacity];
      seen, bytesLeft, lastCRLF, isActive, log := 0, capacity, -3, true, [];
    }

    ghost predicate Valid()
      reads this, buffer
    {
      && bytesLeft > 0 && seen + bytesLeft == buffer.Length
      && Marked(buffer[..seen], lastCRLF)
    }

    method ResetRequestBuffer()
      modifies this`seen, this`bytesLeft, this`lastCRLF
      ensures seen == 0 && bytesLeft == buffer.Length && lastCRLF == -3
    {
      seen, bytesLeft, lastCRLF := 0, buffer.Length, -3;
    }

    /** Goes on from the last line end found, up to `end`, for a line end right after another. */
    method ScanForEnd(end: nat) returns (endOfMsg: bool)
      requires end <= buffer.Length && Marked(buffer[..end], lastCRLF)
      modifies this`lastCRLF
      ensures Marked(buffer[..end], lastCRLF)
      ensures endOfMsg ==> lastCRLF >= 0 && FirstBlank(buffer[..end], 0) == Some(lastCRLF)
      ensures !endOfMsg ==> FirstBlank(buffer[..end], 0) == None
    {
      ghost var s := buffer[..end];
      var tmp := lastCRLF + 2;
      if tmp < 0 {
        tmp := 0;
      }
      endOfMsg := false;
      while tmp < end - 1
        invariant 0 <= tmp && Marked(s, lastCRLF) && lastCRLF < tmp
        invariant forall e: nat | lastCRLF < e < tmp :: !CrlfAt(s, e)
      {
        if buffer[tmp] == '\r' && buffer[tmp + 1] == '\n' {
          if tmp - lastCRLF == 2 {
            endOfMsg := true;
            break;
          }
          lastCRLF := tmp;
        }
        tmp := tmp + 1;
      }
      Scanned(s, lastCRLF, tmp, endOfMsg);
    }

    /** Moves the bytes after a request to the front. */
    method MoveDown(from: nat, count: nat)
      requires from + count <= buffer.Length
      modifies buffer
      ensures buffer[..count] == old(buffer[from..from + count])
    {
      forall i | 0 <= i < count {
        buffer[i] := buffer[from + i];
      }
    }

    /** The headers end at the last line end found: parses them, and waits if the body is not all there. */
    method ParseRequest() returns (r: Option<Request>)
      requires Valid() && lastCRLF >= 0 && FirstBlank(buffer[..seen], 0) == Some(lastCRLF)
      modifies buffer
      ensures buffer[..seen] == old(buffer[..seen]) && r == First(parse, buffer[..seen])
    {
      ghost var s := buffer[..seen];
      buffer[seen] := '\0';
      assert buffer[..seen] == s;
      SameSlices(buffer, seen, 0, lastCRLF + 2);
      SameSlices(buffer, seen, 0, lastCRLF + 4);
      var contentLength := 0;
      var parsed := parse(buffer[..lastCRLF + 2]);
      if parsed.Some? {
        contentLength := parsed.value;
        if seen < lastCRLF + 4 + contentLength {
          return None;
        }
      }
      r := Some(Request(buffer[..lastCRLF + 4], buffer[lastCRLF + 4..lastCRLF + 4 + contentLength]));
      SameSlices(buffer, seen, lastCRLF + 4, lastCRLF + 4 + contentLength);
    }

    /** Looks for a complete request once `count` new bytes stand after those already seen. */
    method TakeNew(count: nat) returns (r: Option<Request>)
      requires Valid() && count < bytesLeft
      modifies this`seen, this`bytesLeft, this`lastCRLF, buffer
      ensures Valid() && seen == old(seen) + count && buffer[..seen] == old(buffer[..seen + count])
      ensures r == First(parse, buffer[..seen])
      ensures r.Some? ==> Size(r.value) <= seen
    {
      ghost var s := buffer[..seen + count];
      assert s[..seen] == buffer[..seen];
      MarkedOn(s, seen, lastCRLF);
      var endOfMsg := ScanForEnd(seen + count);
      bytesLeft := bytesLeft - count;
      seen := seen + count;
      if endOfMsg {
        r := ParseRequest();
      } else {
        r := None;
      }
    }

    /** One round: the request, if complete, is handled and what follows it is moved to the front. */
    method HandleOne(count: nat, ghost cut: Cut) returns (remaining: nat)
      requires Valid() && count < bytesLeft && Cuts(cut, parse)
      modifies this`seen, this`bytesLeft, this`lastCRLF, this`log, buffer
      ensures Valid() && remaining <= bytesLeft
      ensures var s := old(buffer[..seen + count]);
              match cut(s)
              case None => remaining == 0 && log == old(log) && buffer[..seen] == s
              case Some(r) =>
                && 0 < Size(r) <= |s| && log == old(log) + [r] && seen == 0 && remaining == |s| - Size(r)
                && buffer[..remaining] == s[Size(r)..]
    {
      var r := TakeNew(count);
      if r.None? {
        return 0;
      }
      ghost var s := buffer[..seen];
      log := log + [r.value];
      var requestSize := Size(r.value);
      remaining := seen - requestSize;
      assert s[requestSize..] == buffer[requestSize..requestSize + remaining];
      ResetRequestBuffer();
      if remaining > 0 {
        MoveDown(requestSize, remaining);
      }
    }

    /** Round after round, while bytes remain after a request. */
    method HandleAll(newBytesRead: nat, ghost cut: Cut)
      requires Valid() && newBytesRead < bytesLeft && Cuts(cut, parse)
      modifies this`seen, this`bytesLeft, this`lastCRLF, this`log, buffer
      ensures Valid()
      ensures var split := SplitBy(cut, old(buffer[..seen + newBytesRead]));
              log == old(log) + split.requests && buffer[..seen] == split.tail
    {
      ghost var all := buffer[..seen + newBytesRead];
      ghost var done: seq<Request> := [];
      ghost var s := all;
      var count: nat := newBytesRead;
      var again := true;
      while again
        invariant Valid() && count < bytesLeft
        invariant s == buffer[..seen + count] && log == old(log) + done
        invariant if again then Resumes(cut, all, done, s) else count == 0 && SplitBy(cut, all) == Split(done, s)
        decreases again, |s|
      {
        ghost var first := cut(s);
        count := HandleOne(count, cut);
        ResumesStep(cut, all, done, s);
        again := count > 0;
        if first.Some? {
          done := done + [first.value];
          s := s[Size(first.value)..];
        }
        assert s == buffer[..seen + count];
        if !again && first.Some? {
          SplitNothing(cut, all, done);
        }
      }
    }

    /**
     The buffer holds `newBytesRead` bytes after those already seen; negative
     when the socket has died. Every request completed by them is handled and
     the buffer is left with exactly the rest, unless it was filled up.
     */
    method HandleRequestBytes(newBytesRead: int)
      requires Valid() && newBytesRead <= bytesLeft
      modifies this`seen, this`bytesLeft, this`lastCRLF, this`log, this`isActive, buffer
      ensures isActive == (old(isActive) && 0 <= newBytesRead < old(bytesLeft))
      ensures 0 <= newBytesRead < old(bytesLeft) ==>
          var split := Requests(parse, old(buffer[..seen + newBytesRead]));
          Valid() && log == old(log) + split.requests && buffer[..seen] == split.tail
      ensures !(0 <= newBytesRead < old(bytesLeft)) ==> log == old(log)
    {
      if newBytesRead < 0 || newBytesRead >= bytesLeft {
        isActive := false;
        return;
      }
      HandleAll(newBytesRead, CutFirst(parse));
    }

    /** The socket is readable: as much of `chunk` as there is room for is read and dealt with. */
    method IncomingRequest(chunk: string)
      requires Valid()
      modifies this`seen, this`bytesLeft, this`lastCRLF, this`log, this`isActive, buffer
      ensures isActive == (old(isActive) && old(seen) + |chunk| < buffer.Length)
      ensures old(seen) + |chunk| < buffer.Length ==>
          var split := Requests(parse, old(buffer[..seen]) + chunk);
          Valid() && log == old(log) + split.requests && buffer[..seen] == split.tail
      ensures old(seen) + |chunk| >= buffer.Length ==> log == old(log)
    {
      var count := if |chunk| <= bytesLeft then |chunk| else bytesLeft;
      forall i | 0 <= i < count {
        buffer[seen + i] := chunk[i];
      }
      assert buffer[..seen] == old(buffer[..seen]);
      assert buffer[..seen + count] == old(buffer[..seen]) + chunk[..count];
      assert count == |chunk| ==> chunk[..count] == chunk;
      HandleRequestBytes(count);
    }
  }

  /** Piece `i` finds room in the buffer next to the unfinished request before it. */
  ghost predicate Fits(parse: HeaderParser, capacity: nat, chunks: seq<string>, i: nat)
    requires i < |chunks|
  {
    |Requests(parse, Concat(chunks[..i])).tail| + |chunks[i]| < capacity
  }

  ghost predicate AllFit(parse: HeaderParser, capacity: nat, chunks: seq<string>) {
    forall i | 0 <= i < |chunks| :: Fits(parse, capacity, chunks, i)
  }

  /**
   A connection fed any pieces. It stays open exactly as long as every piece
   fits; while it does, it has handled exactly the requests of the stream as
   a whole, and its buffer holds exactly what is left over.
   */
  method Serve(parse: HeaderParser, capacity: nat, chunks: seq<string>) returns (c: ClientConnection, taken: nat)
    requires capacity > 0
    ensures fresh(c) && taken <= |chunks|
    ensures c.isActive <==> AllFit(parse, capacity, chunks)
    ensures c.isActive ==> taken == |chunks|
    ensures !c.isActive ==> taken > 0 && AllFit(parse, capacity, chunks[..taken - 1])
    ensures var done := if c.isActive then taken else taken - 1;
            c.log == Requests(parse, Concat(chunks[..done])).requests
    ensures c.isActive ==> c.seen <= c.buffer.Length && c.buffer[..c.seen] == Requests(parse, Concat(chunks)).tail
  {
    c := new ClientConnection(parse, capacity);
    taken := 0;
    assert chunks[..0] == [] && c.buffer[..0] == [];
    while taken < |chunks|
      invariant fresh(c) && fresh(c.buffer) && taken <= |chunks| && c.isActive && c.Valid() && c.parse == parse
                && c.buffer.Length == capacity
      invariant AllFit(parse, capacity, chunks[..taken])
      invariant Split(c.log, c.buffer[..c.seen]) == Requests(parse, Concat(chunks[..taken]))
    {
      ghost var before := Concat(chunks[..taken]);
      RequestsResume(parse, before, chunks[taken]);
      AllFitStep(parse, capacity, chunks, taken);
      c.IncomingRequest(chunks[taken]);
      taken := taken + 1;
      if !c.isActive {
        assert chunks[..taken][..taken - 1] == chunks[..taken - 1];
        return;
      }
    }
    assert chunks[..taken] == chunks;
  }

  lemma AllFitStep(parse: HeaderParser, capacity: nat, chunks: seq<string>, n: nat)
    requires n < |chunks|
    ensures AllFit(parse, capacity, chunks[..n + 1]) <==>
            AllFit(parse, capacity, chunks[..n]) && Fits(parse, capacity, chunks, n)
    ensures Concat(chunks[..n + 1]) == Concat(chunks[..n]) + chunks[n]
  {
    forall i: nat | i <= n
      ensures Fits(parse, capacity, chunks[..n + 1], i) == Fits(parse, capacity, chunks, i)
      ensures i < n ==> Fits(parse, capacity, chunks[..n], i) == Fits(parse, capacity, chunks, i)
    {
      assert chunks[..n + 1][..i] == chunks[..i];
      assert i < n ==> chunks[..n][..i] == chunks[..i];
    }
    assert chunks[..n + 1][..n] == chunks[..n];
    if AllFit(parse, capacity, chunks[..n + 1]) {
      assert Fits(parse, capacity, chunks[..n + 1], n);
      forall i | 0 <= i < n
        ensures Fits(parse, capacity, chunks[..n], i)
      {
        assert Fits(parse, capacity, chunks[..n + 1], i);
      }
    } else {
      var i :| 0 <= i < n + 1 && !Fits(parse, capacity, chunks[..n + 1], i);
      assert i < n ==> !Fits(parse, capacity, chunks[..n], i);
    }
  }
}
