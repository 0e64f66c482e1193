/** The editor's exporter as it is written: every cell becomes the integer
    `2 * value + given` (value cells), the sum of `2^m` over its marks (mark
    lists) or 0 (empty cells), printed as hexadecimal with at least two
    digits, the cells visited with the second index fastest.

    None of these choices matches the importer, which reads base-32 tokens of
    exactly two characters, takes a clear clue bit to mean "given", expects a
    one-hot digit, and lets the first index run fastest. The lemmas at the
    end exhibit each mismatch on a one-cell board; module Codec holds the
    encoder the importer actually inverts. */
module LegacyExport {
  import opened Grid
  import opened Bits
  import opened Codec

  /** The exporter stops with Python's ValueError: `int` of a value that is
      not a digit character, or a negative shift for a negative mark. */
  datatype ExportError = ValueError

  /** The integer the exporter computes for one cell. A value is the offset
      of its character from '0', so `int` succeeds exactly for 0..9. */
  function LegacyCode(c: Cell): (r: Result<nat, ExportError>)
    ensures r.Ok? <==> match c
                       case Given(v) => 0 <= v <= 9
                       case Entered(v) => 0 <= v <= 9
                       case Candidates(ms) => forall t | 0 <= t < |ms| :: ms[t] >= 0
                       case Empty => true
    ensures r.Ok? && c.HasValue() ==> r.value % 2 == (if c.Given? then 1 else 0) && r.value / 2 == c.value
  {
    match c
    case Empty => Ok(0)
    case Given(v) => if 0 <= v <= 9 then Ok(2 * v + 1) else Err(ValueError)
    case Entered(v) => if 0 <= v <= 9 then Ok(2 * v) else Err(ValueError)
    case Candidates(ms) =>
      if forall t | 0 <= t < |ms| :: ms[t] >= 0 then Ok(MaskFrom(ms, 0)) else Err(ValueError)
  }

  /** The digits of `n` in base 16, most significant first, in lower case
      (the hexadecimal digits are the first sixteen base-32 digits). */
  function HexDigits(n: nat): (s: string)
    ensures |s| >= 1 && forall t | 0 <= t < |s| :: IsDigit32(s[t])
    decreases n
  {
    if n < 16 then [DigitChar(n)] else HexDigits(n / 16) + [DigitChar(n % 16)]
  }

  /** Python's `f"{n:02x}"`: hexadecimal, padded to at least two digits. */
  function Hex2(n: nat): (s: string)
    ensures |s| >= 2 && forall t | 0 <= t < |s| :: IsDigit32(s[t])
  {
    if n < 16 then ['0', DigitChar(n)] else HexDigits(n)
  }

  /** The value of a string of digits in base `base`. */
  function ReadBase(s: string, base: nat): nat
    requires forall t | 0 <= t < |s| :: IsDigit32(s[t])
  {
    if s == [] then 0 else ReadBase(s[..|s| - 1], base) * base + DigitValue(s[|s| - 1])
  }

  lemma {:induction false} HexDigitsReadBack(n: nat)
    ensures ReadBase(HexDigits(n), 16) == n
    decreases n
  {
    if n >= 16 {
      var front := HexDigits(n / 16);
      HexDigitsReadBack(n / 16);
      assert (front + [DigitChar(n % 16)])[..|front|] == front;
    }
  }

  /** Read in base 16, the exporter's digits give back the cell's integer. */
  lemma Hex2ReadBack(n: nat)
    ensures ReadBase(Hex2(n), 16) == n
  {
    if n < 16 {
      var s := Hex2(n);
      assert s[..1] == ['0'] && s[1] == DigitChar(n);
      assert ['0'][..0] == [];
      assert DigitValue('0') == 0;
    } else {
      HexDigitsReadBack(n);
    }
  }

  /** Below 256 the exporter writes exactly two digits; from 256 on, three
      or more. */
  lemma Hex2Width(n: nat)
    ensures n < 256 ==> Hex2(n) == [DigitChar(n / 16), DigitChar(n % 16)]
    ensures n >= 256 ==> |Hex2(n)| >= 3
  {
    if n >= 16 {
      assert |HexDigits(n / 16)| >= 1;
      if n >= 256 {
        assert n / 16 >= 16;
        assert |HexDigits(n / 16)| >= 2;
      }
    }
  }

  /** The number the importer reads from the two hexadecimal digits of `n`
      (below 256) when it takes them as a base-32 token. */
  function Misread(n: nat): nat
    requires n < 256
  {
    32 * (n / 16) + n % 16
  }

  /** The exporter's text for a list of cell codes: the codes' digits, one
      after another, with no separator. */
  function HexText(cs: seq<nat>): string {
    if cs == [] then [] else Hex2(cs[0]) + HexText(cs[1..])
  }

  /** Characters `2k` and `2k + 1` of `s` are the two hexadecimal digits of
      `n`. */
  predicate HexPairAt(s: string, k: nat, n: nat)
    requires n < 256
  {
    2 * k + 1 < |s| && s[2 * k] == DigitChar(n / 16) && s[2 * k + 1] == DigitChar(n % 16)
  }

  /** Every code has at least two digits, so the text is at least twice as
      long as the list. */
  lemma {:induction false} HexTextAtLeast(cs: seq<nat>)
    ensures |HexText(cs)| >= 2 * |cs|
    decreases |cs|
  {
    if cs != [] {
      HexTextAtLeast(cs[1..]);
    }
  }

  /** With every code below 256, code `k` fills characters `2k` and `2k + 1`. */
  lemma {:induction false} HexTextNarrow(cs: seq<nat>)
    requires forall k | 0 <= k < |cs| :: cs[k] < 256
    ensures |HexText(cs)| == 2 * |cs|
    ensures forall k: nat | k < |cs| :: HexPairAt(HexText(cs), k, cs[k])
    decreases |cs|
  {
    if cs != [] {
      var rest := cs[1..];
      HexTextNarrow(rest);
      Hex2Width(cs[0]);
      forall k: nat | k < |cs|
        ensures HexPairAt(HexText(cs), k, cs[k])
      {
        if k > 0 {
          assert rest[k - 1] == cs[k];
          HexPairShift(Hex2(cs[0]), HexText(rest), k - 1, cs[k]);
        }
      }
    }
  }

  /** Prefixing two characters moves a digit pair one place along. */
  lemma HexPairShift(h: string, t: string, k: nat, n: nat)
    requires n < 256 && |h| == 2 && HexPairAt(t, k, n)
    ensures HexPairAt(h + t, k + 1, n)
  {
    assert (h + t)[2 * (k + 1)] == t[2 * k];
    assert (h + t)[2 * (k + 1) + 1] == t[2 * k + 1];
  }

  /** With every code but code `j` below 256, the text's length is fixed by
      the width of code `j`. */
  lemma {:induction false} HexTextOneWide(cs: seq<nat>, j: nat)
    requires j < |cs| && forall k | 0 <= k < |cs| && k != j :: cs[k] < 256
    ensures |HexText(cs)| == 2 * (|cs| - 1) + |Hex2(cs[j])|
    decreases |cs|
  {
    if j == 0 {
      HexTextNarrow(cs[1..]);
    } else {
      Hex2Width(cs[0]);
      HexTextOneWide(cs[1..], j - 1);
    }
  }

  /** The importer's view of a text with the two-digit layout: token `k`
      carries the hexadecimal digits of code `k`, read in base 32. */
  lemma ImportPairs(s: string, cs: seq<nat>)
    requires |cs| == 81 && |s| == 162
    requires forall k | 0 <= k < 81 :: cs[k] < 256
    requires forall k: nat | k < 81 :: HexPairAt(s, k, cs[k])
    ensures Decode(s).Ok?
    ensures forall k | 0 <= k < 81 :: At(Decode(s).value, TextPos(k)) == PackedCell(Misread(cs[k]))
  {
    forall k | 0 <= k < 81
      ensures TokenOk(s, k) && TokenValue(s, k) == Misread(cs[k])
    {
      assert HexPairAt(s, k, cs[k]);
    }
    assert Decode(s).Ok?;
    forall k | 0 <= k < 81
      ensures At(Decode(s).value, TextPos(k)) == PackedCell(Misread(cs[k]))
    {
      DecodedToken(s, k);
    }
  }

  /** The importer reads the exporter's text for 81 codes below 256 as the
      codes' hexadecimal digits in base 32, code `k` at cell `TextPos(k)`. */
  lemma ImportHexText(cs: seq<nat>, k: int)
    requires |cs| == 81 && forall j | 0 <= j < 81 :: cs[j] < 256
    requires 0 <= k < 81
    ensures |HexText(cs)| == 162 && Decode(HexText(cs)).Ok?
    ensures At(Decode(HexText(cs)).value, TextPos(k)) == PackedCell(Misread(cs[k]))
  {
    HexTextNarrow(cs);
    ImportPairs(HexText(cs), cs);
  }

  /** Every cell has a code. */
  ghost predicate Exportable(b: Board) {
    forall q | Valid(q) :: LegacyCode(At(b, q)).Ok?
  }

  /** The codes of the cells in the exporter's order: first index `i`
      outermost, second index `j` innermost. */
  function Codes(b: Board): (cs: seq<nat>)
    requires Exportable(b)
    ensures |cs| == 81
  {
    seq(81, k requires 0 <= k < 81 => LegacyCode(At(b, ScanPos(k))).value)
  }

  /** The exporter as written; a cell whose value or marks Python cannot
      shift raises, and no text is produced. */
  function ExportAsWritten(b: Board): (r: Result<string, ExportError>)
    ensures r.Ok? <==> Exportable(b)
  {
    if forall c, row | 0 <= c < 9 && 0 <= row < 9 :: LegacyCode(At(b, Pos(c, row))).Ok? then
      assert Exportable(b);
      Ok(HexText(Codes(b)))
    else
      Err(ValueError)
  }

  /** The export under its guard: the codes' digits in scan order. */
  lemma ExportText(b: Board)
    requires Exportable(b)
    ensures ExportAsWritten(b) == Ok(HexText(Codes(b)))
  {
  }

  /** When every code fits two digits, pair `k` of the text is the two-digit
      form of code `k`. */
  lemma NarrowPair(cs: seq<nat>, k: nat)
    requires forall j | 0 <= j < |cs| :: cs[j] < 256
    requires k < |cs|
    ensures |HexText(cs)| == 2 * |cs|
    ensures HexText(cs)[2 * k..2 * k + 2] == Hex2(cs[k])
  {
    HexTextNarrow(cs);
    assert HexPairAt(HexText(cs), k, cs[k]);
    Hex2Width(cs[k]);
  }

  /** Code `k` of a board is the code of the cell at scan step `k`. */
  lemma CodeAt(b: Board, p: Pos)
    requires Exportable(b) && Valid(p)
    ensures 0 <= Index(p) < 81 && Codes(b)[Index(p)] == LegacyCode(At(b, p)).value
  {
    StepOf(p);
  }

  /** The number that characters `2k` and `2k + 1` of `s` stand for in
      `base`, or -1 when `s` has no such pair of digits. */
  function ReadPair(s: string, k: nat, base: nat): int {
    if 2 * k + 2 <= |s| && IsDigit32(s[2 * k]) && IsDigit32(s[2 * k + 1]) then
      ReadBase(s[2 * k..2 * k + 2], base)
    else
      -1
  }

  /** When every code fits two digits, the export is 162 characters, and the
      pair at the scan step of cell `p` reads back in base 16 as the code the
      exporter computed for `p`. */
  lemma ExportReadBack(b: Board, p: Pos)
    requires Exportable(b) && Valid(p)
    requires forall q | Valid(q) :: LegacyCode(At(b, q)).value < 256
    ensures ExportAsWritten(b).Ok? && |ExportAsWritten(b).value| == 162
    ensures ReadPair(ExportAsWritten(b).value, Index(p), 16) == LegacyCode(At(b, p)).value
  {
    var cs := Codes(b);
    var k := Index(p);
    CodesNarrow(b);
    NarrowReadPair(cs, k);
    CodeAt(b, p);
    ExportText(b);
  }

  /** Cell codes below 256 make every entry of `Codes` below 256. */
  lemma CodesNarrow(b: Board)
    requires Exportable(b)
    requires forall q | Valid(q) :: LegacyCode(At(b, q)).value < 256
    ensures forall k | 0 <= k < 81 :: Codes(b)[k] < 256
  {
    forall k | 0 <= k < 81
      ensures Codes(b)[k] < 256
    {
      CodeAt(b, ScanPos(k));
    }
  }

  /** Pair `k` of the text of codes below 256 reads back in base 16 as code
      `k`. */
  lemma NarrowReadPair(cs: seq<nat>, k: nat)
    requires forall j | 0 <= j < |cs| :: cs[j] < 256
    requires k < |cs|
    ensures |HexText(cs)| == 2 * |cs|
    ensures ReadPair(HexText(cs), k, 16) == cs[k]
  {
    NarrowPair(cs, k);
    Hex2Width(cs[k]);
    Hex2ReadBack(cs[k]);
  }

  /** The text is never shorter than the importer's 162 characters. */
  lemma ExportLength(b: Board)
    requires Exportable(b)
    ensures ExportAsWritten(b).Ok? && |ExportAsWritten(b).value| >= 162
  {
    ExportText(b);
    HexTextAtLeast(Codes(b));
  }

  /** The codes of a board whose only non-empty cell is visited at step `j`
      and has code `n`. */
  function Spike(j: int, n: nat): (cs: seq<nat>)
    ensures |cs| == 81
  {
    seq(81, k => if k == j then n else 0)
  }

  /** A board whose only non-empty cell is `c` at `p`. */
  function Lone(p: Pos, c: Cell): (b: Board)
    requires Valid(p)
    ensures At(b, p) == c
    ensures forall q | Valid(q) && q != p :: At(b, q) == Empty
  {
    Put(EmptyBoard(), p, c)
  }

  /** The cell at `p` mirrored across the main diagonal. */
  function Transpose(p: Pos): Pos {
    Pos(p.row, p.col)
  }

  /** The exporter visits `p` at the step whose token the importer assigns
      to the transpose of `p`. */
  lemma StepOf(p: Pos)
    requires Valid(p)
    ensures 0 <= Index(p) < 81 && ScanPos(Index(p)) == p && TextPos(Index(p)) == Transpose(p)
  {
  }

  /** The exporter's text for a one-cell board is the text of its codes:
      the cell's own at the step that visits `p`, zero elsewhere. */
  lemma LoneExport(p: Pos, c: Cell, n: nat)
    requires Valid(p) && LegacyCode(c) == Ok(n)
    ensures ExportAsWritten(Lone(p, c)) == Ok(HexText(Spike(Index(p), n)))
  {
    var b := Lone(p, c);
    assert Exportable(b);
    forall k | 0 <= k < 81
      ensures Codes(b)[k] == Spike(Index(p), n)[k]
    {
      if ScanPos(k) != p {
        assert k != Index(p);
      }
    }
    assert Codes(b) == Spike(Index(p), n);
    ExportText(b);
  }

  /** The importer's reading of the text of a single code `n` below 256 at
      step `j`, all other codes zero. */
  lemma SpikeImport(j: int, n: nat, k: int)
    requires n < 256 && 0 <= k < 81
    ensures Decode(HexText(Spike(j, n))).Ok?
    ensures At(Decode(HexText(Spike(j, n))).value, TextPos(k)) == PackedCell(if k == j then Misread(n) else 0)
  {
    var cs := Spike(j, n);
    assert forall i | 0 <= i < 81 :: cs[i] < 256;
    ImportHexText(cs, k);
  }

  /** The length of the text of a single code at step `j`, all others zero. */
  lemma SpikeWidth(j: int, n: nat)
    requires 0 <= j < 81
    ensures |HexText(Spike(j, n))| == 160 + |Hex2(n)|
  {
    HexTextOneWide(Spike(j, n), j);
  }

  /** On a one-cell board with a code below 256, the importer reads that
      code, as base 32, at the transposed position, and zero everywhere else. */
  lemma LoneReadBack(p: Pos, c: Cell, n: nat, k: int)
    requires Valid(p) && LegacyCode(c) == Ok(n) && n < 256 && 0 <= k < 81
    ensures ExportAsWritten(Lone(p, c)).Ok?
    ensures Decode(ExportAsWritten(Lone(p, c)).value).Ok?
    ensures At(Decode(ExportAsWritten(Lone(p, c)).value).value, TextPos(k))
            == PackedCell(if k == Index(p) then Misread(n) else 0)
  {
    LoneExport(p, c, n);
    SpikeImport(Index(p), n, k);
  }

  /** On a one-cell board, the importer puts the cell's misread code at the
      transposed position. */
  lemma LoneTransposed(p: Pos, c: Cell, n: nat, d: Cell)
    requires Valid(p) && LegacyCode(c) == Ok(n) && n < 256 && PackedCell(Misread(n)) == d
    ensures ExportAsWritten(Lone(p, c)).Ok?
    ensures Decode(ExportAsWritten(Lone(p, c)).value).Ok?
    ensures At(Decode(ExportAsWritten(Lone(p, c)).value).value, Transpose(p)) == d
  {
    StepOf(p);
    LoneReadBack(p, c, n, Index(p));
  }

  /** On a one-cell board, every position but the transposed one comes back
      as an empty mark list. */
  lemma LoneElsewhere(p: Pos, c: Cell, n: nat, q: Pos)
    requires Valid(p) && LegacyCode(c) == Ok(n) && n < 256 && Valid(q) && q != Transpose(p)
    ensures ExportAsWritten(Lone(p, c)).Ok?
    ensures Decode(ExportAsWritten(Lone(p, c)).value).Ok?
    ensures At(Decode(ExportAsWritten(Lone(p, c)).value).value, q) == Candidates([])
  {
    StepOf(p);
    TextIndexInverse(q);
    LoneReadBack(p, c, n, TextIndex(q));
    assert PackedCell(0) == Candidates([]);
  }

  // ---------------------------------------------------------------------
  // The mismatches, each on a board with a single non-empty cell

  lemma GivenOneCodes()
    ensures LegacyCode(Given(1)) == Ok(3) && PackedCell(Misread(3)) == Entered(1)
  {
    assert Misread(3) == 3;
    assert SetBits(1) == [1];
  }

  lemma EnteredThreeCodes()
    ensures LegacyCode(Entered(3)) == Ok(6) && PackedCell(Misread(6)) == Candidates([1, 2])
  {
    assert Misread(6) == 6;
    PackedSix();
  }

  lemma MarksOneFourCodes()
    ensures LegacyCode(Candidates([1, 4])) == Ok(18) && PackedCell(Misread(18)) == Candidates([1, 5])
  {
    assert MaskFrom([1, 4], 0) == 18;
    assert Misread(18) == 34;
  }

  lemma MarksOneNineCodes()
    ensures LegacyCode(Candidates([1, 9])) == Ok(514) && |Hex2(514)| == 3
  {
    assert MaskFrom([1, 9], 0) == 514;
  }

  lemma MarksOneTwoCodes()
    ensures LegacyCode(Candidates([1, 2])) == Ok(6) && PackedCell(Misread(6)) == Candidates([1, 2])
  {
    assert MaskFrom([1, 2], 0) == 6;
    assert Misread(6) == 6;
    PackedSix();
  }

  /** The code 6 has the payload 3, whose set bits are 1 and 2. */
  lemma PackedSix()
    ensures PackedCell(6) == Candidates([1, 2])
  {
    assert SetBitsFrom(1, 2) == [2];
    assert SetBits(3) == [1, 2];
  }

  /** A given 1 comes back as an entered 1: the exporter sets the low bit for
      a given, the importer reads a set low bit as "not a given". */
  lemma GivenComesBackEntered(p: Pos)
    requires Valid(p)
    ensures Decode(ExportAsWritten(Lone(p, Given(1))).value).Ok?
    ensures At(Decode(ExportAsWritten(Lone(p, Given(1))).value).value, Transpose(p)) == Entered(1)
  {
    GivenOneCodes();
    LoneTransposed(p, Given(1), 3, Entered(1));
  }

  /** An entered 3 comes back as the marks 1 and 2: the exporter writes the
      value times two, the importer expects a single set bit. */
  lemma DigitComesBackAsMarks(p: Pos)
    requires Valid(p)
    ensures Decode(ExportAsWritten(Lone(p, Entered(3))).value).Ok?
    ensures At(Decode(ExportAsWritten(Lone(p, Entered(3))).value).value, Transpose(p)) == Candidates([1, 2])
  {
    EnteredThreeCodes();
    LoneTransposed(p, Entered(3), 6, Candidates([1, 2]));
  }

  /** The marks 1 and 4 come back as 1 and 5: their sum 18 is written "12"
      in hexadecimal and read as 34 in base 32. */
  lemma MarksComeBackShifted(p: Pos)
    requires Valid(p)
    ensures Decode(ExportAsWritten(Lone(p, Candidates([1, 4]))).value).Ok?
    ensures At(Decode(ExportAsWritten(Lone(p, Candidates([1, 4]))).value).value, Transpose(p)) == Candidates([1, 5])
  {
    MarksOneFourCodes();
    LoneTransposed(p, Candidates([1, 4]), 18, Candidates([1, 5]));
  }

  /** The marks 1 and 9 sum to 514, which takes three hexadecimal digits:
      the text is 163 characters long and the importer rejects it. */
  lemma WideMarksRejected(p: Pos)
    requires Valid(p)
    ensures ExportAsWritten(Lone(p, Candidates([1, 9]))).Ok?
    ensures |ExportAsWritten(Lone(p, Candidates([1, 9]))).value| == 163
    ensures Decode(ExportAsWritten(Lone(p, Candidates([1, 9]))).value) == Err(InvalidLength(163))
  {
    MarksOneNineCodes();
    LoneExport(p, Candidates([1, 9]), 514);
    StepOf(p);
    SpikeWidth(Index(p), 514);
  }

  /** The marks 1 and 2 placed off the diagonal come back at the transposed
      cell, and their own cell comes back as an empty mark list. */
  lemma CellComesBackTransposed(p: Pos)
    requires Valid(p) && p.col != p.row
    ensures Decode(ExportAsWritten(Lone(p, Candidates([1, 2]))).value).Ok?
    ensures At(Decode(ExportAsWritten(Lone(p, Candidates([1, 2]))).value).value, Transpose(p))
            == Candidates([1, 2])
    ensures At(Decode(ExportAsWritten(Lone(p, Candidates([1, 2]))).value).value, p)
            == Candidates([])
  {
    MarksOneTwoCodes();
    LoneTransposed(p, Candidates([1, 2]), 6, Candidates([1, 2]));
    LoneElsewhere(p, Candidates([1, 2]), 6, p);
  }
}
