/** The 9×9 board of the Sudoku editor, the four shapes a cell can take,
    and the box (region) layout used for grouping. */
module Grid {

  /** Success or failure of an operation that the editor can reject. */
  datatype Result<T, E> = Ok(value: T) | Err(error: E)

  /** The content of one cell.

      A cell value is the offset of the cell's character from '0': every value
      the editor stores is a one-character string (a digit key, a character of
      an imported text, or a decoded digit), so the digits '0'..'9' are the
      integers 0..9 and any other character is some other integer. The map is
      injective, so equality of values means equality of the stored strings. */
  datatype Cell =
    | Empty
    | Given(value: int)
    | Entered(value: int)
    | Candidates(marks: seq<int>)
  {
    /** Given and entered cells both hold a value; they differ only in whether
        digit entry may overwrite them. */
    predicate HasValue() {
      Given? || Entered?
    }
  }

  /** A well-formed mark list: each mark once, in ascending order. */
  predicate StrictlyAscending(s: seq<int>) {
    forall t, u | 0 <= t < u < |s| :: s[t] < s[u]
  }

  /** A coordinate of the board. `col` is the first index `i` (horizontal on
      screen) and `row` the second index `j` (vertical on screen). */
  datatype Pos = Pos(col: int, row: int)

  predicate Valid(p: Pos) {
    0 <= p.col < 9 && 0 <= p.row < 9
  }

  predicate IsGrid(b: seq<seq<Cell>>) {
    |b| == 9 && forall c | 0 <= c < 9 :: |b[c]| == 9
  }

  /** The board, indexed `b[col][row]`. */
  type Board = b: seq<seq<Cell>> | IsGrid(b)
    witness seq(9, _ => seq(9, _ => Empty))

  function EmptyBoard(): (b: Board)
    ensures forall p | Valid(p) :: At(b, p) == Empty
  {
    seq(9, _ => seq(9, _ => Empty))
  }

  function At(b: Board, p: Pos): Cell
    requires Valid(p)
  {
    b[p.col][p.row]
  }

  /** Replaces one cell; every other cell keeps its content. */
  function Put(b: Board, p: Pos, c: Cell): (r: Board)
    requires Valid(p)
    ensures At(r, p) == c
    ensures forall q | Valid(q) && q != p :: At(r, q) == At(b, q)
  {
    b[p.col := b[p.col][p.row := c]]
  }

  /** The second of two writes to one cell wins. */
  lemma PutTwice(b: Board, p: Pos, c: Cell, d: Cell)
    requires Valid(p)
    ensures Put(Put(b, p, c), p, d) == Put(b, p, d)
  {
    assert Put(b, p, c)[p.col][p.row := d] == b[p.col][p.row := d];
  }

  /** Writing a cell's own content back changes nothing. */
  lemma PutSame(b: Board, p: Pos)
    requires Valid(p)
    ensures Put(b, p, At(b, p)) == b
  {
    assert b[p.col][p.row := b[p.col][p.row]] == b[p.col];
  }

  /** Two boards agreeing on every cell are the same board. */
  lemma BoardsEqual(a: Board, b: Board)
    requires forall p | Valid(p) :: At(a, p) == At(b, p)
    ensures a == b
  {
    forall c | 0 <= c < 9
      ensures a[c] == b[c]
    {
      forall r | 0 <= r < 9
        ensures a[c][r] == b[c][r]
      {
        assert At(a, Pos(c, r)) == At(b, Pos(c, r));
      }
    }
  }

  /** Which third of the board a coordinate in 0..8 lies in: 0, 1 or 2,
      the coordinate divided by three. */
  function Band(n: int): int {
    if n < 3 then 0 else if n < 6 then 1 else 2
  }

  /** The place of a coordinate within its band: 0, 1 or 2, the coordinate
      modulo three. */
  function Offset(n: int): int {
    n - 3 * Band(n)
  }

  /** The box a cell belongs to, numbered 0..8 column-block first. */
  function BoxOf(p: Pos): int {
    3 * Band(p.col) + Band(p.row)
  }

  /** On 0..8, `Band` and `Offset` are division and remainder by three. */
  lemma BandIsDivision(n: int)
    requires 0 <= n < 9
    ensures Band(n) == n / 3 && Offset(n) == n % 3
  {
    assert n == 0 || n == 1 || n == 2 || n == 3 || n == 4 || n == 5 || n == 6 || n == 7 || n == 8;
  }

  /** `BoxOf` is the editor's region number `(i // 3) * 3 + (j // 3)`. */
  lemma BoxOfFormula(p: Pos)
    requires Valid(p)
    ensures BoxOf(p) == (p.col / 3) * 3 + p.row / 3
  {
    BandIsDivision(p.col);
    BandIsDivision(p.row);
  }

  /** Position of a cell in the i-major scan order of the editor's loops. */
  function Index(p: Pos): int {
    9 * p.col + p.row
  }

  /** The cell visited at step `k` of the i-major scan. */
  function ScanPos(k: int): (p: Pos)
    requires 0 <= k < 81
    ensures Valid(p) && Index(p) == k
  {
    Pos(k / 9, k % 9)
  }

  lemma IndexInjective(p: Pos, q: Pos)
    requires Valid(p) && Valid(q) && Index(p) == Index(q)
    ensures p == q
  {
  }

  /** The editor's hard-coded table of the nine boxes, as [i, j] pairs. */
  const Regions: seq<seq<(int, int)>> := [
    [(0, 0), (0, 1), (0, 2), (1, 0), (1, 1), (1, 2), (2, 0), (2, 1), (2, 2)],
    [(0, 3), (0, 4), (0, 5), (1, 3), (1, 4), (1, 5), (2, 3), (2, 4), (2, 5)],
    [(0, 6), (0, 7), (0, 8), (1, 6), (1, 7), (1, 8), (2, 6), (2, 7), (2, 8)],
    [(3, 0), (3, 1), (3, 2), (4, 0), (4, 1), (4, 2), (5, 0), (5, 1), (5, 2)],
    [(3, 3), (3, 4), (3, 5), (4, 3), (4, 4), (4, 5), (5, 3), (5, 4), (5, 5)],
    [(3, 6), (3, 7), (3, 8), (4, 6), (4, 7), (4, 8), (5, 6), (5, 7), (5, 8)],
    [(6, 0), (6, 1), (6, 2), (7, 0), (7, 1), (7, 2), (8, 0), (8, 1), (8, 2)],
    [(6, 3), (6, 4), (6, 5), (7, 3), (7, 4), (7, 5), (8, 3), (8, 4), (8, 5)],
    [(6, 6), (6, 7), (6, 8), (7, 6), (7, 7), (7, 8), (8, 6), (8, 7), (8, 8)]
  ]

  /** Entry `m` of region `k` as the box formula lays it out. */
  function RegionEntry(k: int, m: int): (int, int) {
    (3 * Band(k) + Band(m), 3 * Offset(k) + Offset(m))
  }

  /** The nine cells of the 3×3 block whose first cell is `(c, r)`, in the
      order the table lists them: column by column, row by row within. */
  function Block(c: int, r: int): seq<(int, int)> {
    [(c, r), (c, r + 1), (c, r + 2),
     (c + 1, r), (c + 1, r + 1), (c + 1, r + 2),
     (c + 2, r), (c + 2, r + 1), (c + 2, r + 2)]
  }

  /** Entry `m` of a block is `m`'s band and offset away from its first cell. */
  lemma BlockEntry(c: int, r: int, m: int)
    requires 0 <= m < 9
    ensures Block(c, r)[m] == (c + Band(m), r + Offset(m))
  {
    assert m == 0 || m == 1 || m == 2 || m == 3 || m == 4 || m == 5 || m == 6 || m == 7 || m == 8;
  }

  /** A block as a comprehension over its entries. */
  lemma BlockByFormula(c: int, r: int)
    ensures Block(c, r) == seq(9, m => (c + Band(m), r + Offset(m)))
  {
    forall m | 0 <= m < 9
      ensures Block(c, r)[m] == (c + Band(m), r + Offset(m))
    {
      BlockEntry(c, r, m);
    }
  }

  /** Region `k` of the table is the block starting at column `3 * Band(k)`
      and row `3 * Offset(k)`. */
  lemma RegionIsBlock(k: int)
    requires 0 <= k < 9
    ensures Regions[k] == Block(3 * Band(k), 3 * Offset(k))
  {
    if k == 0 {
      assert Regions[0] == Block(0, 0);
    } else if k == 1 {
      assert Regions[1] == Block(0, 3);
    } else if k == 2 {
      assert Regions[2] == Block(0, 6);
    } else if k == 3 {
      assert Regions[3] == Block(3, 0);
    } else if k == 4 {
      assert Regions[4] == Block(3, 3);
    } else if k == 5 {
      assert Regions[5] == Block(3, 6);
    } else if k == 6 {
      assert Regions[6] == Block(6, 0);
    } else if k == 7 {
      assert Regions[7] == Block(6, 3);
    } else {
      assert Regions[8] == Block(6, 6);
    }
  }

  /** Entry `m` of the block of region `k` is the formula's entry. */
  lemma BlockRowEntry(row: seq<(int, int)>, k: int, m: int)
    requires 0 <= m < 9 && row == seq(9, m => (3 * Band(k) + Band(m), 3 * Offset(k) + Offset(m)))
    ensures row[m] == RegionEntry(k, m)
  {
  }

  lemma RegionsFollowFormula()
    ensures |Regions| == 9
    ensures forall k | 0 <= k < 9 :: |Regions[k]| == 9
    ensures forall k, m | 0 <= k < 9 && 0 <= m < 9 :: Regions[k][m] == RegionEntry(k, m)
  {
    forall k | 0 <= k < 9
      ensures |Regions[k]| == 9 && forall m | 0 <= m < 9 :: Regions[k][m] == RegionEntry(k, m)
    {
      RegionIsBlock(k);
      BlockByFormula(3 * Band(k), 3 * Offset(k));
      forall m | 0 <= m < 9
        ensures Regions[k][m] == RegionEntry(k, m)
      {
        BlockRowEntry(Regions[k], k, m);
      }
    }
  }

  /** The box formula and the regions layout are inverse to each other. */
  lemma RegionEntryInverse(c: int, r: int, k: int, m: int)
    requires 0 <= c < 9 && 0 <= r < 9 && 0 <= k < 9 && 0 <= m < 9
    ensures RegionEntry(k, m) == (c, r) <==> k == BoxOf(Pos(c, r)) && m == 3 * Offset(c) + Offset(r)
  {
  }

  /** The regions table partitions the board, and it agrees with `BoxOf`:
      each cell occurs exactly once in the table, in the region its box
      formula names. */
  lemma RegionsPartitionBoard(p: Pos, k: int, m: int)
    requires Valid(p) && 0 <= k < 9 && 0 <= m < 9
    ensures |Regions| == 9 && |Regions[k]| == 9
    ensures Regions[k][m] == (p.col, p.row) <==> k == BoxOf(p) && m == 3 * Offset(p.col) + Offset(p.row)
  {
    RegionsFollowFormula();
    RegionEntryInverse(p.col, p.row, k, m);
  }
}
