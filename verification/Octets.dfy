/** Bytes, and 32-bit words in network order. */
module Octets {
  import opened Arith

  type byte = b: nat | b < 256
  type word = w: nat | w < 0x1_0000_0000

  function WordBytes(w: word): (b: seq<byte>)
    ensures |b| == 4
  {
    [w / 0x100_0000, w / 0x1_0000 % 256, w / 0x100 % 256, w % 256]
  }

  function WordAt(b: seq<byte>, i: nat): word
    requires i + 4 <= |b|
  {
    (b[i] as nat) * 0x100_0000 + (b[i + 1] as nat) * 0x1_0000 + (b[i + 2] as nat) * 0x100 + b[i + 3]
  }

  function WordsBytes(ws: seq<word>): (b: seq<byte>)
    ensures |b| == 4 * |ws|
  {
    if ws == [] then [] else WordBytes(ws[0]) + WordsBytes(ws[1..])
  }

  /** A word written is read back, wherever it stands. */
  lemma WordBack(w: word, before: seq<byte>, rest: seq<byte>)
    ensures WordAt(before + WordBytes(w) + rest, |before|) == w
  {
    var b := before + WordBytes(w) + rest;
    assert b[|before|] == w / 0x100_0000 && b[|before| + 1] == w / 0x1_0000 % 256;
    assert b[|before| + 2] == w / 0x100 % 256 && b[|before| + 3] == w % 256;
    DigitsBack(w);
  }

  lemma DigitsBack(w: word)
    ensures 0x100_0000 * (w / 0x100_0000) + 0x1_0000 * (w / 0x1_0000 % 256) + 0x100 * (w / 0x100 % 256) + w % 256 == w
  {
    var a, d := w / 0x100, w % 256;
    var b, c := a / 0x100, a % 256;
    var top, e := b / 0x100, b % 256;
    DivUnique(w, 0x1_0000, b);
    DivUnique(w, 0x100_0000, top);
  }

  lemma {:induction false} WordsConcat(x: seq<word>, y: seq<word>)
    ensures WordsBytes(x + y) == WordsBytes(x) + WordsBytes(y)
  {
    if x == [] {
      assert x + y == y;
    } else {
      WordsConcat(x[1..], y);
      assert (x + y)[1..] == x[1..] + y;
      BytesRegrouped(WordBytes(x[0]), WordsBytes(x[1..]), WordsBytes(y));
    }
  }

  lemma BytesRegrouped(a: seq<byte>, b: seq<byte>, c: seq<byte>)
    ensures a + (b + c) == (a + b) + c
  {
  }

  /** Bytes, four at a time. */
  function Pack(b: seq<byte>): (ws: seq<word>)
    ensures |ws| == |b| / 4
  {
    if |b| < 4 then [] else [WordAt(b, 0)] + Pack(b[4..])
  }

  lemma {:induction false} PackBack(b: seq<byte>)
    requires |b| % 4 == 0
    ensures WordsBytes(Pack(b)) == b
  {
    if |b| >= 4 {
      PackBack(b[4..]);
      assert Pack(b)[1..] == Pack(b[4..]);
      BytesBack(b);
    }
  }

  lemma BytesBack(b: seq<byte>)
    requires |b| >= 4
    ensures WordBytes(WordAt(b, 0)) + b[4..] == b
  {
    WordDigits(b[0], b[1], b[2], b[3]);
    assert b[..4] == [b[0], b[1], b[2], b[3]] && b == b[..4] + b[4..];
  }

  lemma WordDigits(a: byte, b: byte, c: byte, d: byte)
    ensures var w := 0x100_0000 * a + 0x1_0000 * b + 0x100 * c + d;
            w / 0x100_0000 == a && w / 0x1_0000 % 256 == b && w / 0x100 % 256 == c && w % 256 == d
  {
    var w := 0x100_0000 * a + 0x1_0000 * b + 0x100 * c + d;
    DivUnique(w, 0x100_0000, a);
    DivUnique(w, 0x1_0000, 0x100 * a + b);
    DivUnique(0x100 * a + b, 0x100, a);
    DivUnique(w, 0x100, 0x1_0000 * a + 0x100 * b + c);
    DivUnique(0x1_0000 * a + 0x100 * b + c, 0x100, 0x100 * a + b);
  }

  /** Words come back from their bytes. */
  lemma {:induction false} PackWords(ws: seq<word>)
    ensures Pack(WordsBytes(ws)) == ws
  {
    if ws != [] {
      PackWords(ws[1..]);
      PackOne(ws[0], WordsBytes(ws[1..]));
    }
  }

  lemma PackOne(w: word, rest: seq<byte>)
    ensures Pack(WordBytes(w) + rest) == [w] + Pack(rest)
  {
    var b := WordBytes(w) + rest;
    WordBack(w, [], rest);
    assert [] + WordBytes(w) + rest == b;
    assert b[4..] == rest;
  }
}
