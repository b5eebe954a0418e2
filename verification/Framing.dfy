// Length-prefixed framing: the bytes that signatures and provenance ids are computed over.
// A string holds one character per byte.
module Framing {
  import opened Wrappers

  const WORD := 8
  const WORD_LIMIT := 0x1_0000_0000_0000_0000
  const SIGN_LIMIT := 0x8000_0000_0000_0000

  // Text that fits an address space, and the 64-bit integers.
  type Text = s: string | |s| < WORD_LIMIT
  type Unsigned = n: int | 0 <= n < WORD_LIMIT
  type Signed = n: int | -SIGN_LIMIT <= n < SIGN_LIMIT

  function BigEndian(n: nat, width: nat): (r: string)
    ensures |r| == width
  {
    if width == 0 then "" else BigEndian(n / 256, width - 1) + [(n % 256) as char]
  }

  function Power256(width: nat): (r: nat)
    ensures r > 0
  {
    if width == 0 then 1 else 256 * Power256(width - 1)
  }

  lemma {:induction false} BigEndianIsInjective(a: nat, b: nat, width: nat)
    requires a < Power256(width) && b < Power256(width)
    requires BigEndian(a, width) == BigEndian(b, width)
    ensures a == b
  {
    if width > 0 {
      var x, y := BigEndian(a, width), BigEndian(b, width);
      assert x[..width - 1] == BigEndian(a / 256, width - 1) && x[width - 1] == (a % 256) as char;
      assert y[..width - 1] == BigEndian(b / 256, width - 1) && y[width - 1] == (b % 256) as char;
      BigEndianIsInjective(a / 256, b / 256, width - 1);
    }
  }

  lemma PowerOfWord()
    ensures Power256(WORD) == WORD_LIMIT
  {
    assert Power256(4) == 0x1_0000_0000;
    assert Power256(8) == 256 * (256 * (256 * (256 * Power256(4))));
  }

  // The two's complement of a 64-bit integer.
  function TwosComplement(n: Signed): Unsigned {
    if n < 0 then n + WORD_LIMIT else n
  }

  function WordText(n: Unsigned): (r: string)
    ensures |r| == WORD
  {
    BigEndian(n, WORD)
  }

  lemma WordTextIsInjective(a: Unsigned, b: Unsigned)
    requires WordText(a) == WordText(b)
    ensures a == b
  {
    PowerOfWord();
    BigEndianIsInjective(a, b, WORD);
  }

  const ABSENT: string := [0 as char]
  const PRESENT: string := [1 as char]

  datatype Piece =
    | Frame(bytes: Text)
    | OptionalFrame(optional: Option<Text>)
    | Number(number: Signed)
    | OptionalNumber(optionalNumber: Option<Signed>)

  predicate SameKind(p: Piece, q: Piece) {
    match p
    case Frame(_) => q.Frame?
    case OptionalFrame(_) => q.OptionalFrame?
    case Number(_) => q.Number?
    case OptionalNumber(_) => q.OptionalNumber?
  }

  // The length prefix is the low 64 bits of the length.
  function FrameText(bytes: string): string {
    WordText(|bytes| % WORD_LIMIT) + bytes
  }

  function NumberText(n: Signed): string {
    WordText(TwosComplement(n))
  }

  function PieceText(p: Piece): string {
    match p
    case Frame(bytes) => FrameText(bytes)
    case OptionalFrame(None) => ABSENT
    case OptionalFrame(Some(bytes)) => PRESENT + FrameText(bytes)
    case Number(n) => NumberText(n)
    case OptionalNumber(None) => ABSENT
    case OptionalNumber(Some(n)) => PRESENT + NumberText(n)
  }

  // The pieces in the order they were pushed.
  function PiecesText(pieces: seq<Piece>): string {
    if pieces == [] then "" else PiecesText(pieces[..|pieces| - 1]) + PieceText(pieces[|pieces| - 1])
  }

  lemma {:induction false} PiecesTextOfCons(p: Piece, rest: seq<Piece>)
    ensures PiecesText([p] + rest) == PieceText(p) + PiecesText(rest)
  {
    if rest == [] {
      assert [p] + rest == [p];
      assert PiecesText([p]) == PiecesText([]) + PieceText(p);
    } else {
      var front, last := rest[..|rest| - 1], rest[|rest| - 1];
      PiecesTextOfCons(p, front);
      assert ([p] + rest)[..|rest|] == [p] + front;
      Associate(PieceText(p), PiecesText(front), PieceText(last));
    }
  }

  lemma {:induction false} PiecesTextOfConcat(a: seq<Piece>, b: seq<Piece>)
    ensures PiecesText(a + b) == PiecesText(a) + PiecesText(b)
  {
    if b == [] {
      assert a + b == a;
    } else {
      var front, last := b[..|b| - 1], b[|b| - 1];
      PiecesTextOfConcat(a, front);
      assert (a + b)[..|a + b| - 1] == a + front;
      Associate(PiecesText(a), PiecesText(front), PieceText(last));
    }
  }

  lemma Associate(a: string, b: string, c: string)
    ensures a + b + c == a + (b + c)
  {
  }

  // Two texts that agree after parts of equal length agree part by part.
  lemma SplitEqual(a: string, u: string, b: string, v: string)
    requires |a| == |b| && a + u == b + v
    ensures a == b && u == v
  {
    assert a == (a + u)[..|a|] == (b + v)[..|b|] == b;
    assert u == (a + u)[|a|..] == (b + v)[|b|..] == v;
  }

  lemma FrameIsSelfDelimiting(a: Text, u: string, b: Text, v: string)
    requires FrameText(a) + u == FrameText(b) + v
    ensures a == b && u == v
  {
    hide WordText;
    assert |a| % WORD_LIMIT == |a| && |b| % WORD_LIMIT == |b|;
    Associate(WordText(|a|), a, u);
    Associate(WordText(|b|), b, v);
    SplitEqual(WordText(|a|), a + u, WordText(|b|), b + v);
    WordTextIsInjective(|a|, |b|);
    SplitEqual(a, u, b, v);
  }

  lemma NumberIsSelfDelimiting(a: Signed, u: string, b: Signed, v: string)
    requires NumberText(a) + u == NumberText(b) + v
    ensures a == b && u == v
  {
    hide WordText;
    SplitEqual(NumberText(a), u, NumberText(b), v);
    WordTextIsInjective(TwosComplement(a), TwosComplement(b));
  }

  // A piece of known kind can be read off the front of any text.
  lemma PieceIsSelfDelimiting(p: Piece, u: string, q: Piece, v: string)
    requires SameKind(p, q)
    requires PieceText(p) + u == PieceText(q) + v
    ensures p == q && u == v
  {
    hide FrameText, NumberText;
    match p
    case Frame(a) =>
      FrameIsSelfDelimiting(a, u, q.bytes, v);
    case Number(a) =>
      NumberIsSelfDelimiting(a, u, q.number, v);
    case OptionalFrame(a) =>
      assert (PieceText(p) + u)[0] == (PieceText(q) + v)[0];
      if a.Some? {
        Associate(PRESENT, FrameText(a.value), u);
        Associate(PRESENT, FrameText(q.optional.value), v);
        SplitEqual(PRESENT, FrameText(a.value) + u, PRESENT, FrameText(q.optional.value) + v);
        FrameIsSelfDelimiting(a.value, u, q.optional.value, v);
      } else {
        SplitEqual(ABSENT, u, ABSENT, v);
      }
    case OptionalNumber(a) =>
      assert (PieceText(p) + u)[0] == (PieceText(q) + v)[0];
      if a.Some? {
        Associate(PRESENT, NumberText(a.value), u);
        Associate(PRESENT, NumberText(q.optionalNumber.value), v);
        SplitEqual(PRESENT, NumberText(a.value) + u, PRESENT, NumberText(q.optionalNumber.value) + v);
        NumberIsSelfDelimiting(a.value, u, q.optionalNumber.value, v);
      } else {
        SplitEqual(ABSENT, u, ABSENT, v);
      }
  }

  ghost predicate SameShape(ps: seq<Piece>, qs: seq<Piece>) {
    |ps| == |qs| && forall i :: 0 <= i < |ps| ==> SameKind(ps[i], qs[i])
  }

  // A record of known shape can be read off the front of any text.
  lemma {:induction false} RecordIsSelfDelimiting(ps: seq<Piece>, u: string, qs: seq<Piece>, v: string)
    requires SameShape(ps, qs)
    requires PiecesText(ps) + u == PiecesText(qs) + v
    ensures ps == qs && u == v
  {
    if ps == [] {
      assert PiecesText(ps) + u == u && PiecesText(qs) + v == v;
    } else {
      var p, q := ps[0], qs[0];
      assert ps == [p] + ps[1..] && qs == [q] + qs[1..];
      PiecesTextOfCons(p, ps[1..]);
      PiecesTextOfCons(q, qs[1..]);
      Associate(PieceText(p), PiecesText(ps[1..]), u);
      Associate(PieceText(q), PiecesText(qs[1..]), v);
      PieceIsSelfDelimiting(p, PiecesText(ps[1..]) + u, q, PiecesText(qs[1..]) + v);
      RecordIsSelfDelimiting(ps[1..], u, qs[1..], v);
    }
  }

  lemma RecordIsInjective(ps: seq<Piece>, qs: seq<Piece>)
    requires SameShape(ps, qs)
    requires PiecesText(ps) == PiecesText(qs)
    ensures ps == qs
  {
    assert PiecesText(ps) + "" == PiecesText(qs) + "";
    RecordIsSelfDelimiting(ps, "", qs, "");
  }

  ghost predicate AllFrames(ps: seq<Piece>) {
    forall i :: 0 <= i < |ps| ==> ps[i].Frame?
  }

  lemma FramesAreNotEmpty(ps: seq<Piece>)
    requires AllFrames(ps)
    ensures PiecesText(ps) == "" <==> ps == []
  {
    if ps != [] {
      assert |PieceText(ps[|ps| - 1])| >= WORD;
    }
  }

  // A list of frames can be read back without knowing how many there are.
  lemma {:induction false} FrameListIsInjective(ps: seq<Piece>, qs: seq<Piece>)
    requires AllFrames(ps) && AllFrames(qs)
    requires PiecesText(ps) == PiecesText(qs)
    ensures ps == qs
  {
    FramesAreNotEmpty(ps);
    FramesAreNotEmpty(qs);
    if ps != [] {
      assert ps == [ps[0]] + ps[1..] && qs == [qs[0]] + qs[1..];
      PiecesTextOfCons(ps[0], ps[1..]);
      PiecesTextOfCons(qs[0], qs[1..]);
      PieceIsSelfDelimiting(ps[0], PiecesText(ps[1..]), qs[0], PiecesText(qs[1..]));
      FrameListIsInjective(ps[1..], qs[1..]);
    }
  }

  // A growing byte vector and the helpers that push onto it.
  class FrameBuffer {
    var bytes: string
    ghost var pieces: seq<Piece>

    ghost predicate Valid()
      reads this
    {
      bytes == PiecesText(pieces)
    }

    constructor ()
      ensures Valid() && pieces == []
    {
      bytes, pieces := "", [];
    }

    method PushFrame(value: Text)
      requires Valid()
      modifies this
      ensures Valid() && pieces == old(pieces) + [Frame(value)]
    {
      hide WordText;
      Associate(bytes, WordText(|value|), value);
      bytes := bytes + WordText(|value|);
      bytes := bytes + value;
      pieces := pieces + [Frame(value)];
    }

    method PushOptional(value: Option<Text>)
      requires Valid()
      modifies this
      ensures Valid() && pieces == old(pieces) + [OptionalFrame(value)]
    {
      hide WordText;
      if value.Some? {
        Associate(bytes, PRESENT, FrameText(value.value));
        Associate(bytes + PRESENT, WordText(|value.value|), value.value);
        bytes := bytes + PRESENT;
        bytes := bytes + WordText(|value.value|);
        bytes := bytes + value.value;
      } else {
        bytes := bytes + ABSENT;
      }
      pieces := pieces + [OptionalFrame(value)];
    }

    method PushNumber(value: Signed)
      requires Valid()
      modifies this
      ensures Valid() && pieces == old(pieces) + [Number(value)]
    {
      bytes := bytes + NumberText(value);
      pieces := pieces + [Number(value)];
    }

    method PushOptionalNumber(value: Option<Signed>)
      requires Valid()
      modifies this
      ensures Valid() && pieces == old(pieces) + [OptionalNumber(value)]
    {
      hide WordText;
      if value.Some? {
        Associate(bytes, PRESENT, NumberText(value.value));
        bytes := bytes + PRESENT;
        bytes := bytes + NumberText(value.value);
      } else {
        bytes := bytes + ABSENT;
      }
      pieces := pieces + [OptionalNumber(value)];
    }
  }
}
