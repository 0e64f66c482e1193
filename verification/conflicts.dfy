/** The conflict scan the editor runs before every repaint.

    Cells are grouped three ways: by first index `col`, by second index `row`,
    and by box. A value cell (given or entered alike) is a double when another
    value cell of one of its groups holds the same value; a pencil mark is
    reported once for every group of its cell that holds that value.

    The editor writes these flags back into the cells after resetting them;
    here they form a separate report computed from the board alone, so the
    scan cannot change cell content and running it again on the same board
    gives the same report. */
module Conflicts {
  import opened Grid

  /** The three kinds of groups. */
  datatype Family = Col | Row | Box

  function GroupOf(f: Family, p: Pos): int {
    match f
    case Col => p.col
    case Row => p.row
    case Box => BoxOf(p)
  }

  /** Cell `q` is a value cell of group `g` of family `f` holding `v`. */
  ghost predicate HoldsAt(b: Board, f: Family, q: Pos, g: int, v: int) {
    Valid(q) && GroupOf(f, q) == g && At(b, q).HasValue() && At(b, q).value == v
  }

  /** `p` and `q` are two different value cells of one group of family `f`
      holding the same value. */
  ghost predicate Clash(b: Board, f: Family, p: Pos, q: Pos) {
    && Valid(p) && Valid(q) && p != q
    && At(b, p).HasValue() && HoldsAt(b, f, q, GroupOf(f, p), At(b, p).value)
  }

  /** The reference meaning of the "double" flag. */
  ghost predicate IsDuplicate(b: Board, p: Pos) {
    exists f, q :: Clash(b, f, p, q)
  }

  /** Some value cell of group `g` of family `f` holds `v`. */
  ghost predicate GroupHolds(b: Board, f: Family, g: int, v: int) {
    exists q :: HoldsAt(b, f, q, g, v)
  }

  /** One copy of `m` for each flag that is set, in the order given. */
  function Copies(m: int, inCol: bool, inRow: bool, inBox: bool): seq<int> {
    (if inCol then [m] else []) + (if inRow then [m] else []) + (if inBox then [m] else [])
  }

  /** Number of flags that are set. */
  function Count(inCol: bool, inRow: bool, inBox: bool): nat {
    (if inCol then 1 else 0) + (if inRow then 1 else 0) + (if inBox then 1 else 0)
  }

  /** One copy of mark `m` for each family whose group around `p` holds the
      value `m`, in the order column, row, box. */
  ghost function Echoes(b: Board, p: Pos, m: int): seq<int> {
    Copies(m, GroupHolds(b, Col, GroupOf(Col, p), m), GroupHolds(b, Row, GroupOf(Row, p), m),
           GroupHolds(b, Box, GroupOf(Box, p), m))
  }

  /** Number of families whose group around `p` holds the value `m`. */
  ghost function EchoCount(b: Board, p: Pos, m: int): nat {
    Count(GroupHolds(b, Col, GroupOf(Col, p), m), GroupHolds(b, Row, GroupOf(Row, p), m),
          GroupHolds(b, Box, GroupOf(Box, p), m))
  }

  /** The echoes of each mark of `ms`, in list order. */
  ghost function FlaggedMarks(b: Board, p: Pos, ms: seq<int>): seq<int> {
    if ms == [] then [] else FlaggedMarks(b, p, ms[..|ms| - 1]) + Echoes(b, p, ms[|ms| - 1])
  }

  /** The reference meaning of the "double_centermarks" list of a cell. */
  ghost function ConflictingMarks(b: Board, p: Pos): seq<int>
    requires Valid(p)
  {
    if At(b, p).Candidates? then FlaggedMarks(b, p, At(b, p).marks) else []
  }

  /** The scan's findings: the cells flagged double, and for every cell the
      list of its pencil marks flagged as conflicting. */
  datatype Report = Report(doubles: set<Pos>, doubleMarks: map<Pos, seq<int>>)

  /** Cell `q` comes before step `k` of the i-major scan. */
  ghost predicate Before(q: Pos, k: int) {
    Valid(q) && Index(q) < k
  }

  /** `seen` maps (group, value) of family `f` to some holder among the
      first `k` cells of the scan, and knows every such pair. */
  ghost predicate SeenTracked(b: Board, f: Family, k: int, seen: map<(int, int), Pos>) {
    && (forall key {:trigger key in seen} :: key in seen <==> exists q :: Before(q, k) && HoldsAt(b, f, q, key.0, key.1))
    && (forall key {:trigger seen[key]} | key in seen :: Before(seen[key], k) && HoldsAt(b, f, seen[key], key.0, key.1))
  }

  /** `flagged` holds exactly the cells among the first `k` that clash in
      family `f` with another of the first `k`. */
  ghost predicate FlagsTracked(b: Board, f: Family, k: int, flagged: set<Pos>) {
    forall x {:trigger x in flagged} :: x in flagged <==> Before(x, k) && exists q :: Before(q, k) && Clash(b, f, x, q)
  }

  /** State of one family's dictionary after the first `k` cells. */
  ghost predicate Tracked(b: Board, f: Family, k: int, seen: map<(int, int), Pos>, flagged: set<Pos>) {
    SeenTracked(b, f, k, seen) && FlagsTracked(b, f, k, flagged)
  }

  lemma BeforeNext(p: Pos, q: Pos)
    requires Valid(p)
    ensures Before(q, Index(p) + 1) <==> Before(q, Index(p)) || q == p
  {
    if Valid(q) && Index(q) == Index(p) {
      IndexInjective(p, q);
    }
  }

  /** A cell without a value changes no dictionary. */
  lemma TrackedSkip(b: Board, f: Family, p: Pos, seen: map<(int, int), Pos>, flagged: set<Pos>)
    requires Valid(p) && !At(b, p).HasValue()
    requires Tracked(b, f, Index(p), seen, flagged)
    ensures Tracked(b, f, Index(p) + 1, seen, flagged)
  {
    forall q
      ensures Before(q, Index(p) + 1) <==> Before(q, Index(p)) || q == p
    {
      BeforeNext(p, q);
    }
  }

  /** The value of `p` was seen before in its group: the dictionary stays. */
  lemma SeenHit(b: Board, f: Family, p: Pos, seen: map<(int, int), Pos>)
    requires Valid(p) && At(b, p).HasValue()
    requires (GroupOf(f, p), At(b, p).value) in seen
    requires SeenTracked(b, f, Index(p), seen)
    ensures SeenTracked(b, f, Index(p) + 1, seen)
  {
    var k := Index(p);
    forall key
      ensures key in seen <==> exists q :: Before(q, k + 1) && HoldsAt(b, f, q, key.0, key.1)
    {
      if q :| Before(q, k + 1) && HoldsAt(b, f, q, key.0, key.1) {
        BeforeNext(p, q);
      }
    }
    forall key | key in seen
      ensures Before(seen[key], k + 1)
    {
      BeforeNext(p, seen[key]);
    }
  }

  /** The value of `p` is new in its group: `p` becomes its holder. */
  lemma SeenMiss(b: Board, f: Family, p: Pos, seen: map<(int, int), Pos>)
    requires Valid(p) && At(b, p).HasValue()
    requires (GroupOf(f, p), At(b, p).value) !in seen
    requires SeenTracked(b, f, Index(p), seen)
    ensures SeenTracked(b, f, Index(p) + 1, seen[(GroupOf(f, p), At(b, p).value) := p])
  {
    var k := Index(p);
    var key0 := (GroupOf(f, p), At(b, p).value);
    var seen' := seen[key0 := p];
    assert HoldsAt(b, f, p, key0.0, key0.1);
    BeforeNext(p, p);
    forall key
      ensures key in seen' <==> exists q :: Before(q, k + 1) && HoldsAt(b, f, q, key.0, key.1)
    {
      if q :| Before(q, k + 1) && HoldsAt(b, f, q, key.0, key.1) {
        BeforeNext(p, q);
      }
    }
    forall key | key in seen'
      ensures Before(seen'[key], k + 1) && HoldsAt(b, f, seen'[key], key.0, key.1)
    {
      BeforeNext(p, seen'[key]);
    }
  }

  /** The value of `p` was seen before, at `other`: both become flagged. */
  lemma FlagsHit(b: Board, f: Family, p: Pos, other: Pos, flagged: set<Pos>)
    requires Valid(p) && At(b, p).HasValue()
    requires Before(other, Index(p)) && HoldsAt(b, f, other, GroupOf(f, p), At(b, p).value)
    requires FlagsTracked(b, f, Index(p), flagged)
    ensures FlagsTracked(b, f, Index(p) + 1, flagged + {p, other})
  {
    BeforeNext(p, p);
    BeforeNext(p, other);
    forall x
      ensures x in flagged + {p, other}
              <==> Before(x, Index(p) + 1) && exists q :: Before(q, Index(p) + 1) && Clash(b, f, x, q)
    {
      if x == p {
        FlagsHitNew(b, f, p, other);
      } else if x == other {
        FlagsHitNew(b, f, other, p);
      } else {
        FlagsHitOld(b, f, p, other, flagged, x);
      }
    }
  }

  /** Two clashing cells among the first `k + 1` are both flagged. */
  lemma FlagsHitNew(b: Board, f: Family, x: Pos, y: Pos)
    requires Valid(x) && Valid(y) && x != y && At(b, x).HasValue()
    requires HoldsAt(b, f, y, GroupOf(f, x), At(b, x).value)
    ensures Clash(b, f, x, y)
  {
  }

  /** A cell other than `p` and `other` keeps its flag. */
  lemma FlagsHitOld(b: Board, f: Family, p: Pos, other: Pos, flagged: set<Pos>, x: Pos)
    requires Valid(p) && At(b, p).HasValue()
    requires Before(other, Index(p)) && HoldsAt(b, f, other, GroupOf(f, p), At(b, p).value)
    requires FlagsTracked(b, f, Index(p), flagged)
    requires x != p && x != other
    ensures x in flagged
            <==> Before(x, Index(p) + 1) && exists q :: Before(q, Index(p) + 1) && Clash(b, f, x, q)
  {
    var k := Index(p);
    BeforeNext(p, x);
    if x in flagged {
      var q :| Before(q, k) && Clash(b, f, x, q);
      BeforeNext(p, q);
      assert Before(q, k + 1);
    }
    if Before(x, k + 1) && exists q :: Before(q, k + 1) && Clash(b, f, x, q) {
      var q :| Before(q, k + 1) && Clash(b, f, x, q);
      BeforeNext(p, q);
      assert x in flagged;
    }
  }

  /** The value of `p` is new in its group: nothing new is flagged. */
  lemma FlagsMiss(b: Board, f: Family, p: Pos, flagged: set<Pos>)
    requires Valid(p) && At(b, p).HasValue()
    requires forall q :: Before(q, Index(p)) ==> !HoldsAt(b, f, q, GroupOf(f, p), At(b, p).value)
    requires FlagsTracked(b, f, Index(p), flagged)
    ensures FlagsTracked(b, f, Index(p) + 1, flagged)
  {
    var k := Index(p);
    forall x
      ensures x in flagged <==> Before(x, k + 1) && exists q :: Before(q, k + 1) && Clash(b, f, x, q)
    {
      BeforeNext(p, x);
      if q :| Before(q, k + 1) && Clash(b, f, x, q) {
        BeforeNext(p, q);
        if q == p {
          assert HoldsAt(b, f, x, GroupOf(f, p), At(b, p).value);
        }
      }
    }
  }

  /** One dictionary step of the scan for the value cell `p`: if its value
      was already seen in its group, `p` and the recorded holder are flagged;
      otherwise `p` becomes the holder. */
  method Probe(b: Board, f: Family, p: Pos, seen: map<(int, int), Pos>, flagged: set<Pos>)
    returns (seen': map<(int, int), Pos>, flagged': set<Pos>)
    requires Valid(p) && At(b, p).HasValue()
    requires Tracked(b, f, Index(p), seen, flagged)
    ensures Tracked(b, f, Index(p) + 1, seen', flagged')
  {
    var key := (GroupOf(f, p), At(b, p).value);
    if key in seen {
      var other := seen[key];
      SeenHit(b, f, p, seen);
      FlagsHit(b, f, p, other, flagged);
      seen', flagged' := seen, flagged + {p, other};
    } else {
      SeenMiss(b, f, p, seen);
      FlagsMiss(b, f, p, flagged);
      seen', flagged' := seen[key := p], flagged;
    }
  }

  /** After the whole board, a dictionary knows every value of every group. */
  lemma SeenComplete(b: Board, f: Family, seen: map<(int, int), Pos>, p: Pos, v: int)
    requires SeenTracked(b, f, 81, seen) && Valid(p)
    ensures (GroupOf(f, p), v) in seen <==> GroupHolds(b, f, GroupOf(f, p), v)
  {
    if GroupHolds(b, f, GroupOf(f, p), v) {
      var q :| HoldsAt(b, f, q, GroupOf(f, p), v);
      assert Before(q, 81);
    }
  }

  /** After the whole board, a family's flags are exactly its clashes. */
  lemma FlagsComplete(b: Board, f: Family, flagged: set<Pos>, p: Pos)
    requires FlagsTracked(b, f, 81, flagged)
    ensures p in flagged <==> exists q :: Clash(b, f, p, q)
  {
    if q :| Clash(b, f, p, q) {
      assert Before(p, 81) && Before(q, 81);
    }
  }

  /** A cell is a double exactly when one of the three families flags it. */
  lemma DoublesComplete(b: Board, cols: set<Pos>, rows: set<Pos>, boxes: set<Pos>)
    requires FlagsTracked(b, Col, 81, cols)
    requires FlagsTracked(b, Row, 81, rows)
    requires FlagsTracked(b, Box, 81, boxes)
    ensures forall p :: p in cols + rows + boxes <==> Valid(p) && IsDuplicate(b, p)
  {
    forall p
      ensures p in cols + rows + boxes <==> Valid(p) && IsDuplicate(b, p)
    {
      FlagsComplete(b, Col, cols, p);
      FlagsComplete(b, Row, rows, p);
      FlagsComplete(b, Box, boxes, p);
      if IsDuplicate(b, p) {
        var f, q :| Clash(b, f, p, q);
        assert f == Col || f == Row || f == Box;
      }
    }
  }

  /** First pass of `checkDoubles`: one dictionary per family over the cells
      in i-major order, flagging every value met twice in a group. */
  method FindDoubles(b: Board)
    returns (colSeen: map<(int, int), Pos>, colFlags: set<Pos>,
             rowSeen: map<(int, int), Pos>, rowFlags: set<Pos>,
             boxSeen: map<(int, int), Pos>, boxFlags: set<Pos>)
    ensures Tracked(b, Col, 81, colSeen, colFlags)
    ensures Tracked(b, Row, 81, rowSeen, rowFlags)
    ensures Tracked(b, Box, 81, boxSeen, boxFlags)
  {
    colSeen, rowSeen, boxSeen := map[], map[], map[];
    colFlags, rowFlags, boxFlags := {}, {}, {};
    var k := 0;
    while k < 81
      invariant 0 <= k <= 81
      invariant Tracked(b, Col, k, colSeen, colFlags)
      invariant Tracked(b, Row, k, rowSeen, rowFlags)
      invariant Tracked(b, Box, k, boxSeen, boxFlags)
    {
      var p := ScanPos(k);
      if At(b, p).HasValue() {
        colSeen, colFlags := Probe(b, Col, p, colSeen, colFlags);
        rowSeen, rowFlags := Probe(b, Row, p, rowSeen, rowFlags);
        boxSeen, boxFlags := Probe(b, Box, p, boxSeen, boxFlags);
      } else {
        TrackedSkip(b, Col, p, colSeen, colFlags);
        TrackedSkip(b, Row, p, rowSeen, rowFlags);
        TrackedSkip(b, Box, p, boxSeen, boxFlags);
      }
      k := k + 1;
    }
  }

  /** The conflicting copies of the marks of the mark-list cell `p`, looked
      up in the finished dictionaries. */
  method MarkConflictsAt(b: Board, p: Pos, colSeen: map<(int, int), Pos>,
                         rowSeen: map<(int, int), Pos>, boxSeen: map<(int, int), Pos>)
    returns (found: seq<int>)
    requires Valid(p)
    requires SeenTracked(b, Col, 81, colSeen)
    requires SeenTracked(b, Row, 81, rowSeen)
    requires SeenTracked(b, Box, 81, boxSeen)
    ensures found == ConflictingMarks(b, p)
  {
    found := [];
    if At(b, p).Candidates? {
      var ms := At(b, p).marks;
      var t := 0;
      while t < |ms|
        invariant 0 <= t <= |ms|
        invariant found == FlaggedMarks(b, p, ms[..t])
      {
        var m := ms[t];
        var echoes := Copies(m, (p.col, m) in colSeen, (p.row, m) in rowSeen, (BoxOf(p), m) in boxSeen);
        EchoesFromSeen(b, p, m, colSeen, rowSeen, boxSeen);
        FlaggedMarksStep(b, p, ms, t);
        found := found + echoes;
        t := t + 1;
      }
      assert ms[..|ms|] == ms;
    }
  }

  /** The finished dictionaries give the echoes of a mark. */
  lemma EchoesFromSeen(b: Board, p: Pos, m: int, colSeen: map<(int, int), Pos>,
                       rowSeen: map<(int, int), Pos>, boxSeen: map<(int, int), Pos>)
    requires Valid(p)
    requires SeenTracked(b, Col, 81, colSeen)
    requires SeenTracked(b, Row, 81, rowSeen)
    requires SeenTracked(b, Box, 81, boxSeen)
    ensures Copies(m, (p.col, m) in colSeen, (p.row, m) in rowSeen, (BoxOf(p), m) in boxSeen)
            == Echoes(b, p, m)
  {
    SeenComplete(b, Col, colSeen, p, m);
    SeenComplete(b, Row, rowSeen, p, m);
    SeenComplete(b, Box, boxSeen, p, m);
  }

  /** Extending the prefix of a mark list by one mark appends its echoes. */
  lemma FlaggedMarksStep(b: Board, p: Pos, ms: seq<int>, t: nat)
    requires t < |ms|
    ensures FlaggedMarks(b, p, ms[..t + 1]) == FlaggedMarks(b, p, ms[..t]) + Echoes(b, p, ms[t])
  {
    assert ms[..t + 1][..t] == ms[..t];
  }

  /** The conflict scan (`checkDoubles` after `resetDoubles`): a first pass
      flags doubles; a second pass over the cells reports, for each pencil
      mark, one entry per family whose group holds that value. */
  method Scan(b: Board) returns (r: Report)
    ensures forall p :: p in r.doubles <==> Valid(p) && IsDuplicate(b, p)
    ensures forall p :: p in r.doubleMarks <==> Valid(p)
    ensures forall p | p in r.doubleMarks :: r.doubleMarks[p] == ConflictingMarks(b, p)
  {
    var colSeen, colFlags, rowSeen, rowFlags, boxSeen, boxFlags := FindDoubles(b);
    DoublesComplete(b, colFlags, rowFlags, boxFlags);
    var marks: map<Pos, seq<int>> := map[];
    var k := 0;
    while k < 81
      invariant 0 <= k <= 81
      invariant forall q :: q in marks <==> Before(q, k)
      invariant forall q | q in marks :: marks[q] == ConflictingMarks(b, q)
    {
      var p := ScanPos(k);
      var found := MarkConflictsAt(b, p, colSeen, rowSeen, boxSeen);
      marks := marks[p := found];
      forall q
        ensures q in marks <==> Before(q, k + 1)
      {
        BeforeNext(p, q);
      }
      k := k + 1;
    }
    r := Report(colFlags + rowFlags + boxFlags, marks);
  }

  // ---------------------------------------------------------------------
  // Properties of the reference definitions

  /** Only value cells are ever doubles; empty cells and mark lists never are. */
  lemma DoublesHoldValues(b: Board, p: Pos)
    requires Valid(p) && IsDuplicate(b, p)
    ensures At(b, p).HasValue()
  {
  }

  /** The copies of one mark are copies of it, as many as flags are set. */
  lemma CopiesCount(x: int, m: int, inCol: bool, inRow: bool, inBox: bool)
    ensures multiset(Copies(x, inCol, inRow, inBox))[m] == if x == m then Count(inCol, inRow, inBox) else 0
    ensures m in Copies(x, inCol, inRow, inBox) <==> x == m && Count(inCol, inRow, inBox) > 0
  {
  }

  lemma EchoesCount(b: Board, p: Pos, x: int, m: int)
    ensures multiset(Echoes(b, p, x))[m] == if x == m then EchoCount(b, p, m) else 0
    ensures m in Echoes(b, p, x) <==> x == m && EchoCount(b, p, m) > 0
  {
    CopiesCount(x, m, GroupHolds(b, Col, GroupOf(Col, p), x), GroupHolds(b, Row, GroupOf(Row, p), x),
                GroupHolds(b, Box, GroupOf(Box, p), x));
  }

  /** A mark is reported exactly when it occurs in the list and some family
      holds its value. */
  lemma {:induction false} FlaggedMarksMember(b: Board, p: Pos, ms: seq<int>, m: int)
    ensures m in FlaggedMarks(b, p, ms) <==> m in ms && EchoCount(b, p, m) > 0
    decreases |ms|
  {
    if ms != [] {
      var init, last := ms[..|ms| - 1], ms[|ms| - 1];
      FlaggedMarksMember(b, p, init, m);
      EchoesCount(b, p, last, m);
      assert ms == init + [last];
    }
  }

  /** A mark is reported once per family whose group holds its value, for
      every time it occurs in the list. */
  lemma {:induction false} FlaggedMarksCount(b: Board, p: Pos, ms: seq<int>, m: int)
    ensures multiset(FlaggedMarks(b, p, ms))[m] == multiset(ms)[m] * EchoCount(b, p, m)
    decreases |ms|
  {
    if ms != [] {
      var init, last := ms[..|ms| - 1], ms[|ms| - 1];
      var front, e := FlaggedMarks(b, p, init), Echoes(b, p, last);
      var n, c := multiset(init)[m], EchoCount(b, p, m);
      FlaggedMarksCount(b, p, init, m);
      EchoesCount(b, p, last, m);
      assert multiset(FlaggedMarks(b, p, ms))[m] == multiset(front)[m] + multiset(e)[m];
      SplitLast(ms);
      if last == m {
        assert multiset(ms)[m] == n + 1;
        MulStep(n, c);
      } else {
        assert multiset(ms)[m] == n;
      }
    }
  }

  lemma SplitLast(ms: seq<int>)
    requires ms != []
    ensures ms == ms[..|ms| - 1] + [ms[|ms| - 1]]
  {
  }

  lemma MulStep(n: int, c: int)
    ensures (n + 1) * c == n * c + c
  {
  }

  /** Some family's group around `p` holds `m` exactly when the echo count is
      positive. */
  lemma EchoCountPositive(b: Board, p: Pos, m: int)
    ensures EchoCount(b, p, m) > 0 <==> exists f :: GroupHolds(b, f, GroupOf(f, p), m)
  {
    if f :| GroupHolds(b, f, GroupOf(f, p), m) {
      assert f == Col || f == Row || f == Box;
    }
  }

  /** A pencil mark of a mark-list cell is reported exactly when some value
      cell sharing the cell's column, row or box holds that value. */
  lemma ConflictingMarkIff(b: Board, p: Pos, m: int)
    requires Valid(p) && At(b, p).Candidates?
    ensures m in ConflictingMarks(b, p)
            <==> m in At(b, p).marks && exists f :: GroupHolds(b, f, GroupOf(f, p), m)
  {
    FlaggedMarksMember(b, p, At(b, p).marks, m);
    EchoCountPositive(b, p, m);
  }

  /** Givens and entered values are treated alike: turning a given into an
      entered cell with the same value changes no flag anywhere. */
  lemma GivenEnteredAlike(b: Board, p: Pos, q: Pos)
    requires Valid(p) && Valid(q) && At(b, p).Given?
    ensures IsDuplicate(b, q) <==> IsDuplicate(Put(b, p, Entered(At(b, p).value)), q)
    ensures ConflictingMarks(b, q) == ConflictingMarks(Put(b, p, Entered(At(b, p).value)), q)
  {
    var b' := Put(b, p, Entered(At(b, p).value));
    assert forall x | Valid(x) :: At(b', x).HasValue() == At(b, x).HasValue();
    assert forall x | Valid(x) && At(b, x).HasValue() :: At(b', x).value == At(b, x).value;
    assert forall f, x, g, v :: HoldsAt(b, f, x, g, v) <==> HoldsAt(b', f, x, g, v);
    assert forall f, x, y :: Clash(b, f, x, y) <==> Clash(b', f, x, y);
    assert forall f, g, v :: GroupHolds(b, f, g, v) <==> GroupHolds(b', f, g, v);
    assert forall m :: Echoes(b, q, m) == Echoes(b', q, m);
    if At(b, q).Candidates? {
      FlaggedMarksAlike(b, b', q, At(b, q).marks);
    }
  }

  lemma {:induction false} FlaggedMarksAlike(b: Board, b': Board, p: Pos, ms: seq<int>)
    requires forall m :: Echoes(b, p, m) == Echoes(b', p, m)
    ensures FlaggedMarks(b, p, ms) == FlaggedMarks(b', p, ms)
    decreases |ms|
  {
    if ms != [] {
      FlaggedMarksAlike(b, b', p, ms[..|ms| - 1]);
    }
  }

  /** Two value cells with the same value sharing a group, and no other
      value cell on the board: exactly those two are doubles. */
  lemma LonePair(b: Board, f: Family, p: Pos, q: Pos, x: Pos)
    requires Valid(p) && Valid(q) && Valid(x) && p != q
    requires At(b, p).HasValue() && At(b, q).HasValue() && At(b, p).value == At(b, q).value
    requires GroupOf(f, p) == GroupOf(f, q)
    requires forall y | Valid(y) && y != p && y != q :: !At(b, y).HasValue()
    ensures IsDuplicate(b, x) <==> x == p || x == q
  {
    if x == p {
      assert Clash(b, f, p, q);
    } else if x == q {
      assert Clash(b, f, q, p);
    }
  }
}
