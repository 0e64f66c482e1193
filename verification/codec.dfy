/** The text import format of the editor and an encoder that inverts it.

    An imported text has 81 or 162 characters. The 81-character form holds
    one character per cell. The 162-character form holds 81 two-character
    base-32 tokens; a token's value `n` carries a clue bit (`n % 2`) and a
    9-bit payload (`n / 2`): one set bit is a placed digit, any other payload
    a list of pencil marks. In both forms the `p`-th cell is `Pos(p % 9, p / 9)`,
    so the first index runs fastest.

    The decoder is modelled as the editor performs it. The encoder here is
    the decoder's inverse (one base, one clue polarity, one-hot digits, first
    index fastest); the editor's own exporter is modelled as written in
    module LegacyExport. */
module Codec {
  import opened Grid
  import opened Bits

  datatype DecodeError =
    | InvalidLength(length: nat)   // the text is neither 81 nor 162 characters long
    | InvalidToken                 // some two-character token is not base 32

  /** The cell the `p`-th character or token of a text stands for. */
  function TextPos(p: int): (q: Pos)
    requires 0 <= p < 81
    ensures Valid(q) && TextIndex(q) == p
  {
    Pos(p % 9, p / 9)
  }

  /** Number of the character or token that stands for cell `q`. */
  function TextIndex(q: Pos): int {
    9 * q.row + q.col
  }

  lemma TextIndexInverse(q: Pos)
    requires Valid(q)
    ensures 0 <= TextIndex(q) < 81 && TextPos(TextIndex(q)) == q
  {
  }

  // ---------------------------------------------------------------------
  // The 81-character format

  /** One character of the plain format: '0' and '.' leave the cell empty;
      any other character becomes a given, unchecked. */
  function PlainCell(ch: char): (c: Cell)
    ensures c == Empty <==> ch == '0' || ch == '.'
    ensures c != Empty ==> c.Given? && c.value + '0' as int == ch as int
  {
    if ch == '0' || ch == '.' then Empty else Given(ch as int - '0' as int)
  }

  function DecodePlain(text: string): (b: Board)
    requires |text| == 81
    ensures forall p | 0 <= p < 81 :: At(b, TextPos(p)) == PlainCell(text[p])
  {
    seq(9, i requires 0 <= i < 9 => seq(9, j requires 0 <= j < 9 => PlainCell(text[9 * j + i])))
  }

  /** A board the plain format can write: only empty cells and givens 1..9. */
  ghost predicate PlainWritable(b: Board) {
    forall q | Valid(q) :: At(b, q) == Empty || (At(b, q).Given? && 1 <= At(b, q).value <= 9)
  }

  /** The plain character for a cell: '.' for empty, the digit for a given. */
  function PlainChar(c: Cell): char
    requires c == Empty || (c.Given? && 1 <= c.value <= 9)
  {
    if c == Empty then '.' else ('0' as int + c.value) as char
  }

  /** Writes a board in the plain format, the inverse of `DecodePlain`. */
  function EncodePlain(b: Board): (text: string)
    requires PlainWritable(b)
    ensures |text| == 81
    ensures forall p | 0 <= p < 81 :: PlainCell(text[p]) == At(b, TextPos(p))
  {
    seq(81, p requires 0 <= p < 81 => PlainChar(At(b, TextPos(p))))
  }

  /** Writing a plain-format board and reading it back gives the board. */
  lemma PlainRoundTrip(b: Board)
    requires PlainWritable(b)
    ensures Decode(EncodePlain(b)) == Ok(b)
  {
    var d := DecodePlain(EncodePlain(b));
    forall q | Valid(q)
      ensures At(d, q) == At(b, q)
    {
      TextIndexInverse(q);
    }
    BoardsEqual(d, b);
  }

  /** A plain text over the digits 1..9 and '.' is written back unchanged. */
  lemma PlainTextRoundTrip(text: string)
    requires |text| == 81
    requires forall p | 0 <= p < 81 :: '1' <= text[p] <= '9' || text[p] == '.'
    ensures PlainWritable(DecodePlain(text))
    ensures EncodePlain(DecodePlain(text)) == text
  {
    var b := DecodePlain(text);
    forall q | Valid(q)
      ensures At(b, q) == Empty || (At(b, q).Given? && 1 <= At(b, q).value <= 9)
    {
      TextIndexInverse(q);
    }
    var e := EncodePlain(b);
    forall p | 0 <= p < 81
      ensures e[p] == text[p]
    {
      PlainCharInverse(text[p]);
    }
  }

  /** The plain character of a cell read from '1'..'9' or '.' is that
      character. */
  lemma PlainCharInverse(ch: char)
    requires '1' <= ch <= '9' || ch == '.'
    ensures var c := PlainCell(ch); (c == Empty || (c.Given? && 1 <= c.value <= 9)) && PlainChar(c) == ch
  {
  }

  // ---------------------------------------------------------------------
  // The 162-character format

  /** A digit of base 32 as `int(_, 32)` accepts it: 0-9, then a-v or A-V. */
  predicate IsDigit32(ch: char) {
    '0' <= ch <= '9' || 'a' <= ch <= 'v' || 'A' <= ch <= 'V'
  }

  function DigitValue(ch: char): (v: nat)
    requires IsDigit32(ch)
    ensures v < 32
  {
    if '0' <= ch <= '9' then ch as int - '0' as int
    else if 'a' <= ch <= 'v' then ch as int - 'a' as int + 10
    else ch as int - 'A' as int + 10
  }

  /** The lower-case digit of base 32 for `v`. */
  function DigitChar(v: nat): (ch: char)
    requires v < 32
    ensures IsDigit32(ch) && DigitValue(ch) == v
    ensures !('A' <= ch <= 'V')
  {
    if v < 10 then ('0' as int + v) as char else ('a' as int + v - 10) as char
  }

  /** Digits are written back as they were read, up to letter case. */
  lemma DigitCharValue(ch: char)
    requires IsDigit32(ch) && !('A' <= ch <= 'V')
    ensures DigitChar(DigitValue(ch)) == ch
  {
  }

  /** Token `p` of a 162-character text is two base-32 digits. */
  predicate TokenOk(text: string, p: int)
    requires |text| == 162 && 0 <= p < 81
  {
    IsDigit32(text[2 * p]) && IsDigit32(text[2 * p + 1])
  }

  /** The value of token `p`, high digit first. */
  function TokenValue(text: string, p: int): (n: nat)
    requires |text| == 162 && 0 <= p < 81 && TokenOk(text, p)
    ensures n < 1024
  {
    32 * DigitValue(text[2 * p]) + DigitValue(text[2 * p + 1])
  }

  /** The two-character token of `n`, in lower case. */
  function Token(n: nat): (t: string)
    requires n < 1024
    ensures |t| == 2 && IsDigit32(t[0]) && IsDigit32(t[1])
    ensures 32 * DigitValue(t[0]) + DigitValue(t[1]) == n
  {
    [DigitChar(n / 32), DigitChar(n % 32)]
  }

  /** The cell a token value stands for. The clue bit set means "not a
      given"; a payload with one set bit is a placed digit; any other
      payload, zero included, is the list of its set positions. */
  function PackedCell(n: nat): (c: Cell)
    ensures c != Empty
  {
    var payload := n / 2;
    var bits := SetBits(payload);
    if PopCount(payload) == 1 then
      assert |bits| == 1;
      if n % 2 == 0 then Given(bits[0]) else Entered(bits[0])
    else
      Candidates(bits)
  }

  /** A given `d` is read from `2^d`, an entered `d` from `2^d + 1`, and a mark
      list from any other code: its marks are distinct, ascending, positive,
      and their mask is the payload, which has no single set bit. */
  lemma PackedCellMeaning(n: nat)
    ensures PackedCell(n).Given? ==> PackedCell(n).value >= 1 && n == Pow2(PackedCell(n).value)
    ensures PackedCell(n).Entered? ==> PackedCell(n).value >= 1 && n == Pow2(PackedCell(n).value) + 1
    ensures PackedCell(n).Candidates? ==>
              && StrictlyAscending(PackedCell(n).marks)
              && (forall t | 0 <= t < |PackedCell(n).marks| :: PackedCell(n).marks[t] >= 1)
              && Mask(PackedCell(n).marks) == n / 2
              && |PackedCell(n).marks| != 1
  {
    var payload := n / 2;
    OneHot(payload);
    SetBitsAscending(payload, 1);
    MaskOfSetBits(payload, 1);
  }

  /** The decoded value cells are exactly the one-hot codes: `Pow2(d)` for a
      given `d` (clue bit clear) and `Pow2(d) + 1` for an entered `d`. */
  lemma PackedValueIff(n: nat, d: int)
    requires d >= 1
    ensures PackedCell(n) == Given(d) <==> n == Pow2(d)
    ensures PackedCell(n) == Entered(d) <==> n == Pow2(d) + 1
  {
    PackedCellMeaning(n);
    if n == Pow2(d) || n == Pow2(d) + 1 {
      OneHotBits(d);
      assert n / 2 == Pow2(d - 1);
    }
  }

  function DecodePacked(text: string): (b: Board)
    requires |text| == 162 && forall p | 0 <= p < 81 :: TokenOk(text, p)
    ensures forall p | 0 <= p < 81 :: At(b, TextPos(p)) == PackedCell(TokenValue(text, p))
  {
    seq(9, i requires 0 <= i < 9 => seq(9, j requires 0 <= j < 9 => PackedCell(TokenValue(text, 9 * j + i))))
  }

  /** The importer: the length decides the format; any other length, and any
      token that is not base 32, is rejected and yields no board. */
  function Decode(text: string): (r: Result<Board, DecodeError>)
    ensures |text| != 81 && |text| != 162 ==> r == Err(InvalidLength(|text|))
    ensures |text| == 81 ==> r.Ok? && forall p | 0 <= p < 81 :: At(r.value, TextPos(p)) == PlainCell(text[p])
    ensures |text| == 162 ==> (r.Ok? <==> forall p | 0 <= p < 81 :: TokenOk(text, p))
    ensures |text| == 162 && r.Ok? ==>
              forall p | 0 <= p < 81 :: At(r.value, TextPos(p)) == PackedCell(TokenValue(text, p))
    ensures |text| == 162 && r.Err? ==> r.error == InvalidToken
  {
    if |text| == 81 then Ok(DecodePlain(text))
    else if |text| == 162 then
      if forall p | 0 <= p < 81 :: TokenOk(text, p) then Ok(DecodePacked(text)) else Err(InvalidToken)
    else Err(InvalidLength(|text|))
  }

  /** Token `p` of a packed text the importer accepts is cell `TextPos(p)`. */
  lemma DecodedToken(text: string, p: int)
    requires |text| == 162 && Decode(text).Ok? && 0 <= p < 81
    ensures TokenOk(text, p) && At(Decode(text).value, TextPos(p)) == PackedCell(TokenValue(text, p))
  {
  }

  // ---------------------------------------------------------------------
  // The encoder

  /** A cell the packed format can hold: digits 1..9, and mark lists of
      distinct marks 1..9 in ascending order other than a single mark (one
      mark would read back as a digit). An empty cell is written as the empty
      mark list. */
  predicate Encodable(c: Cell) {
    match c
    case Empty => true
    case Given(d) => 1 <= d <= 9
    case Entered(d) => 1 <= d <= 9
    case Candidates(ms) => StrictlyAscending(ms) && Within(ms, 1, 10) && |ms| != 1
  }

  /** What an encoded cell reads back as: an empty cell comes back as the
      empty mark list, since the format has no code of its own for it. */
  function Canonical(c: Cell): Cell {
    if c == Empty then Candidates([]) else c
  }

  lemma Pow2Monotone(a: nat, b: nat)
    requires a <= b
    ensures Pow2(a) <= Pow2(b)
    decreases b
  {
    if a < b {
      Pow2Monotone(a, b - 1);
    }
  }

  /** The token value of an encodable cell, below 32 * 32. */
  function CellCode(c: Cell): (n: nat)
    requires Encodable(c)
    ensures n < 1024
  {
    match c
    case Empty => 0
    case Given(d) => Pow2Monotone(d, 9); Pow2(d)
    case Entered(d) => Pow2Monotone(d, 9); Pow2(d) + 1
    case Candidates(ms) => MaskBound(ms, 1, 9); MaskShift(ms, 0); MaskFrom(ms, 0)
  }

  /** A list of distinct positive marks other than a single mark, written as
      the sum of 2^m over its marks, reads back as the same list. */
  lemma MarksRoundTrip(ms: seq<int>)
    requires StrictlyAscending(ms) && (forall t | 0 <= t < |ms| :: ms[t] >= 1) && |ms| != 1
    ensures PackedCell(MaskFrom(ms, 0)) == Candidates(ms)
  {
    var n := MaskFrom(ms, 0);
    MaskShift(ms, 0);
    SetBitsOfMask(ms, 1);
    assert n / 2 == Mask(ms);
  }

  /** Every encodable cell reads back as itself, an empty cell as the empty
      mark list. */
  lemma CellRoundTrip(c: Cell)
    requires Encodable(c)
    ensures PackedCell(CellCode(c)) == Canonical(c)
  {
    match c
    case Empty =>
    case Given(d) => PackedValueIff(CellCode(c), d);
    case Entered(d) => PackedValueIff(CellCode(c), d);
    case Candidates(ms) => MarksRoundTrip(ms);
  }

  /** Every token value reads as an encodable cell that is written back with
      the same code, except that the clue bit of a mark list is dropped. */
  lemma PackedEncodable(n: nat)
    requires n < 1024
    ensures Encodable(PackedCell(n))
    ensures CellCode(PackedCell(n)) == if PackedCell(n).Candidates? then n / 2 * 2 else n
  {
    if PackedCell(n).Candidates? {
      PackedMarksCode(n);
    } else {
      PackedValueCode(n);
    }
  }

  /** A decoded digit is 1..9 and is written back with its own code. */
  lemma PackedValueCode(n: nat)
    requires n < 1024 && !PackedCell(n).Candidates?
    ensures Encodable(PackedCell(n)) && CellCode(PackedCell(n)) == n
  {
    PackedCellMeaning(n);
    var d := PackedCell(n).value;
    if d > 9 {
      assert Pow2(10) == 1024;
      Pow2Monotone(10, d);
    }
  }

  /** A decoded mark list lies within 1..9 and is written back with the
      code's payload and a clear clue bit. */
  lemma PackedMarksCode(n: nat)
    requires n < 1024 && PackedCell(n).Candidates?
    ensures Encodable(PackedCell(n)) && CellCode(PackedCell(n)) == n / 2 * 2
  {
    var ms := PackedCell(n).marks;
    PackedCellMeaning(n);
    assert ms == SetBits(n / 2);
    assert Pow2(9) == 512;
    SetBitsBound(n / 2, 1, 9);
    MaskShift(ms, 0);
  }

  /** The tokens of all cells in token order, two characters per cell. */
  function Tokens(b: Board): (s: string)
    requires forall q | Valid(q) :: Encodable(At(b, q))
    ensures |s| == 162
    ensures forall k | 0 <= k < 162 :: s[k] == Token(CellCode(At(b, TextPos(k / 2))))[k % 2]
  {
    seq(162, k requires 0 <= k < 162 => Token(CellCode(At(b, TextPos(k / 2))))[k % 2])
  }

  /** Token `p` of the encoded text holds the code of cell `p`. */
  lemma TokensLayout(b: Board)
    requires forall q | Valid(q) :: Encodable(At(b, q))
    ensures forall p | 0 <= p < 81 ::
              TokenOk(Tokens(b), p) && TokenValue(Tokens(b), p) == CellCode(At(b, TextPos(p)))
  {
    var s := Tokens(b);
    forall p | 0 <= p < 81
      ensures TokenOk(s, p) && TokenValue(s, p) == CellCode(At(b, TextPos(p)))
    {
      var t := Token(CellCode(At(b, TextPos(p))));
      assert (2 * p) / 2 == p && (2 * p) % 2 == 0;
      assert (2 * p + 1) / 2 == p && (2 * p + 1) % 2 == 1;
      assert s[2 * p] == t[0] && s[2 * p + 1] == t[1];
    }
  }

  datatype EncodeError = Unencodable   // some cell is not `Encodable`

  /** The packed encoder: 81 lower-case base-32 tokens, first index fastest;
      a board with a cell the format cannot hold is refused. */
  function Encode(b: Board): (r: Result<string, EncodeError>)
    ensures r.Ok? <==> forall q | Valid(q) :: Encodable(At(b, q))
    ensures r.Ok? ==> |r.value| == 162
    ensures r.Ok? ==> forall p | 0 <= p < 81 ::
              TokenOk(r.value, p) && TokenValue(r.value, p) == CellCode(At(b, TextPos(p)))
  {
    if forall c, r | 0 <= c < 9 && 0 <= r < 9 :: Encodable(At(b, Pos(c, r))) then
      TokensLayout(b);
      Ok(Tokens(b))
    else
      Err(Unencodable)
  }

  /** Encoding a board and importing the text gives the board back, each
      empty cell as an empty mark list. */
  lemma EncodeRoundTrip(b: Board)
    requires forall q | Valid(q) :: Encodable(At(b, q))
    ensures Encode(b).Ok?
    ensures Decode(Encode(b).value).Ok?
    ensures forall q | Valid(q) :: At(Decode(Encode(b).value).value, q) == Canonical(At(b, q))
  {
    var text := Encode(b).value;
    var d := Decode(text).value;
    forall q | Valid(q)
      ensures At(d, q) == Canonical(At(b, q))
    {
      TextIndexInverse(q);
      CellRoundTrip(At(b, q));
    }
  }

  /** Every board the packed format delivers can be encoded, and importing
      that text again delivers the same board. */
  lemma DecodedReencodes(text: string)
    requires |text| == 162 && Decode(text).Ok?
    ensures Encode(Decode(text).value).Ok?
    ensures Decode(Encode(Decode(text).value).value) == Decode(text)
  {
    var b := Decode(text).value;
    forall q | Valid(q)
      ensures Encodable(At(b, q)) && Canonical(At(b, q)) == At(b, q)
    {
      TextIndexInverse(q);
      PackedEncodable(TokenValue(text, TextIndex(q)));
    }
    EncodeRoundTrip(b);
    BoardsEqual(Decode(Encode(b).value).value, b);
  }
}
