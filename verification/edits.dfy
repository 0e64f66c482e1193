/** Single-cell edits issued from the keyboard on the selected cell: entering
    a digit, clearing, and toggling a pencil mark (Ctrl + digit). The digit
    keys 0..9 are passed as the integers 0..9. */
module Edits {
  import opened Grid

  predicate NonDecreasing(s: seq<int>) {
    forall a, b | 0 <= a < b < |s| :: s[a] <= s[b]
  }

  /** No given is removed, altered or created. */
  ghost predicate KeepsGivens(before: Board, after: Board) {
    forall q | Valid(q) ::
      && (At(before, q).Given? ==> At(after, q) == At(before, q))
      && (At(after, q).Given? ==> At(before, q) == At(after, q))
  }

  /** The pencil marks a cell shows; a cell without a mark list shows none. */
  function MarksOf(c: Cell): seq<int> {
    if c.Candidates? then c.marks else []
  }

  /** A digit key without modifier: any cell that is not a given becomes a
      non-given value; a given is left alone. */
  function EnterDigit(b: Board, p: Pos, d: int): (r: Board)
    requires Valid(p)
    ensures At(b, p).Given? ==> r == b
    ensures !At(b, p).Given? ==> At(r, p) == Entered(d)
    ensures forall q | Valid(q) && q != p :: At(r, q) == At(b, q)
    ensures KeepsGivens(b, r)
  {
    if At(b, p).Given? then b else Put(b, p, Entered(d))
  }

  /** Backspace or Delete: the cell becomes empty, givens included. */
  function Clear(b: Board, p: Pos): (r: Board)
    requires Valid(p)
    ensures At(r, p) == Empty
    ensures forall q | Valid(q) && q != p :: At(r, q) == At(b, q)
  {
    Put(b, p, Empty)
  }

  /** Python's `bisect.bisect` (bisect_right) on `a[lo..hi]`, step by step:
      the binary search as the library performs it, whatever the order of
      `a`. On a non-decreasing list it finds the insertion point after every
      element not greater than `x`. */
  function BisectRight(a: seq<int>, x: int, lo: nat, hi: nat): (r: nat)
    requires lo <= hi <= |a|
    ensures lo <= r <= hi
    ensures NonDecreasing(a)
              && (forall k | 0 <= k < lo :: a[k] <= x)
              && (forall k | hi <= k < |a| :: x < a[k])
            ==> (forall k | 0 <= k < r :: a[k] <= x)
                && (forall k | r <= k < |a| :: x < a[k])
    decreases hi - lo
  {
    if lo < hi then
      var mid := (lo + hi) / 2;
      if x < a[mid] then BisectRight(a, x, lo, mid) else BisectRight(a, x, mid + 1, hi)
    else
      lo
  }

  function InsertAt(s: seq<int>, k: nat, x: int): (r: seq<int>)
    requires k <= |s|
    ensures |r| == |s| + 1 && r[k] == x
    ensures multiset(r) == multiset(s) + multiset{x}
  {
    assert s == s[..k] + s[k..];
    s[..k] + [x] + s[k..]
  }

  /** Index of the first occurrence of `x`, as `list.remove` finds it. */
  function IndexOf(s: seq<int>, x: int): (k: nat)
    requires x in s
    ensures k < |s| && s[k] == x && x !in s[..k]
  {
    if s[0] == x then 0 else
      var k := IndexOf(s[1..], x);
      assert s[1..][..k] == s[1..k + 1];
      1 + k
  }

  /** Python's `list.remove`: drops the first occurrence. */
  function RemoveFirst(s: seq<int>, x: int): (r: seq<int>)
    requires x in s
    ensures |r| == |s| - 1
    ensures multiset(r) == multiset(s) - multiset{x}
  {
    var k := IndexOf(s, x);
    assert s == s[..k] + [x] + s[k + 1..];
    s[..k] + s[k + 1..]
  }

  /** Toggling mark `m` in a mark list: removed when present, otherwise
      inserted where `bisect` places it. Exactly one copy of `m` goes or comes. */
  function ToggleList(ms: seq<int>, m: int): (r: seq<int>)
    ensures multiset(r) == if m in ms then multiset(ms) - multiset{m} else multiset(ms) + multiset{m}
  {
    if m in ms then RemoveFirst(ms, m) else InsertAt(ms, BisectRight(ms, m, 0, |ms|), m)
  }

  /** Ctrl + digit: toggles pencil mark `m` on a cell that is not a given.
      A mark list loses or gains one copy of `m`; an empty cell or a cell
      holding an entered value becomes the list `[m]`. */
  function ToggleMark(b: Board, p: Pos, m: int): (r: Board)
    requires Valid(p)
    ensures At(b, p).Given? ==> r == b
    ensures !At(b, p).Given? ==>
              && At(r, p).Candidates?
              && multiset(At(r, p).marks)
                 == if m in MarksOf(At(b, p)) then multiset(MarksOf(At(b, p))) - multiset{m}
                    else multiset(MarksOf(At(b, p))) + multiset{m}
    ensures forall q | Valid(q) && q != p :: At(r, q) == At(b, q)
    ensures KeepsGivens(b, r)
  {
    match At(b, p)
    case Given(_) => b
    case Candidates(ms) => Put(b, p, Candidates(ToggleList(ms, m)))
    case _ => Put(b, p, Candidates([m]))
  }

  // ---------------------------------------------------------------------
  // Properties of the edits

  /** Clearing forgets any digit entered or mark toggled just before. */
  lemma ClearAbsorbsEdits(b: Board, p: Pos, d: int)
    requires Valid(p)
    ensures Clear(EnterDigit(b, p, d), p) == Clear(b, p)
    ensures Clear(ToggleMark(b, p, d), p) == Clear(b, p)
  {
    match At(b, p)
    case Given(_) =>
    case Candidates(ms) =>
      PutTwice(b, p, Entered(d), Empty);
      PutTwice(b, p, Candidates(ToggleList(ms, d)), Empty);
    case _ =>
      PutTwice(b, p, Entered(d), Empty);
      PutTwice(b, p, Candidates([d]), Empty);
  }

  /** A given can only be overwritten after it is cleared; after clearing,
      digit entry always takes effect. */
  lemma EnterAfterClear(b: Board, p: Pos, d: int)
    requires Valid(p)
    ensures At(EnterDigit(Clear(b, p), p, d), p) == Entered(d)
    ensures At(b, p).Given? ==> At(EnterDigit(b, p, d), p) == At(b, p)
  {
  }

  /** Removing an element from a strictly ascending list keeps it strictly
      ascending and removes exactly that element. */
  lemma RemoveFirstAscending(s: seq<int>, x: int)
    requires StrictlyAscending(s) && x in s
    ensures StrictlyAscending(RemoveFirst(s, x))
    ensures forall y :: y in RemoveFirst(s, x) <==> y in s && y != x
  {
    var k := IndexOf(s, x);
    assert RemoveFirst(s, x) == s[..k] + s[k + 1..];
    DropAscending(s, k);
    DropMembers(s, k);
  }

  /** Dropping one entry of a strictly ascending list keeps it so. */
  lemma DropAscending(s: seq<int>, k: nat)
    requires StrictlyAscending(s) && k < |s|
    ensures StrictlyAscending(s[..k] + s[k + 1..])
  {
    var r := s[..k] + s[k + 1..];
    forall a, c | 0 <= a < c < |r|
      ensures r[a] < r[c]
    {
      var a', c' := if a < k then a else a + 1, if c < k then c else c + 1;
      assert r[a] == s[a'] && r[c] == s[c'];
    }
  }

  /** Dropping entry `k` of a list without repeats removes exactly that
      value. */
  lemma DropMembers(s: seq<int>, k: nat)
    requires StrictlyAscending(s) && k < |s|
    ensures forall y :: y in s[..k] + s[k + 1..] <==> y in s && y != s[k]
  {
    var r := s[..k] + s[k + 1..];
    forall y
      ensures y in r <==> y in s && y != s[k]
    {
      if y in r {
        var a :| 0 <= a < |r| && r[a] == y;
        if a < k { assert r[a] == s[a]; } else { assert r[a] == s[a + 1]; }
      }
      if y in s && y != s[k] {
        var a :| 0 <= a < |s| && s[a] == y;
        if a < k { assert r[a] == y; } else { assert a > k && r[a - 1] == y; }
      }
    }
  }

  /** Inserting an absent element at its `bisect` position keeps a strictly
      ascending list strictly ascending. */
  lemma InsertAscending(s: seq<int>, x: int)
    requires StrictlyAscending(s) && x !in s
    ensures StrictlyAscending(InsertAt(s, BisectRight(s, x, 0, |s|), x))
    ensures forall y :: y in InsertAt(s, BisectRight(s, x, 0, |s|), x) <==> y in s || y == x
  {
    var k := BisectRight(s, x, 0, |s|);
    forall a | 0 <= a < k
      ensures s[a] < x
    {
      assert s[a] <= x && s[a] != x;
    }
    InsertBetween(s, k, x);
    InsertMembers(s, k, x);
  }

  /** Inserting `x` after every entry below it and before every entry above
      it keeps a strictly ascending list strictly ascending. */
  lemma InsertBetween(s: seq<int>, k: nat, x: int)
    requires StrictlyAscending(s) && k <= |s|
    requires forall a | 0 <= a < k :: s[a] < x
    requires forall a | k <= a < |s| :: x < s[a]
    ensures StrictlyAscending(InsertAt(s, k, x))
  {
    var r := InsertAt(s, k, x);
    assert r == s[..k] + [x] + s[k..];
    forall a, c | 0 <= a < c < |r|
      ensures r[a] < r[c]
    {
      if c < k {
        assert r[a] == s[a] && r[c] == s[c];
      } else if c == k {
        assert r[a] == s[a];
      } else if a < k {
        assert r[a] == s[a] && r[c] == s[c - 1];
      } else if a == k {
        assert r[c] == s[c - 1];
      } else {
        assert r[a] == s[a - 1] && r[c] == s[c - 1];
      }
    }
  }

  /** Inserting `x` anywhere adds exactly `x` to the elements. */
  lemma InsertMembers(s: seq<int>, k: nat, x: int)
    requires k <= |s|
    ensures forall y :: y in InsertAt(s, k, x) <==> y in s || y == x
  {
    var r := InsertAt(s, k, x);
    assert r == s[..k] + [x] + s[k..];
    forall y
      ensures y in r <==> y in s || y == x
    {
      if y in r {
        var a :| 0 <= a < |r| && r[a] == y;
        if a < k { assert r[a] == s[a]; } else if a > k { assert r[a] == s[a - 1]; }
      }
      if y in s {
        var a :| 0 <= a < |s| && s[a] == y;
        if a < k { assert r[a] == y; } else { assert r[a + 1] == y; }
      }
    }
  }

  /** A strictly ascending list is determined by its elements. */
  lemma {:induction false} AscendingUnique(s: seq<int>, t: seq<int>)
    requires StrictlyAscending(s) && StrictlyAscending(t)
    requires forall y :: y in s <==> y in t
    ensures s == t
    decreases |s|
  {
    if s != [] {
      assert s[0] in s;
    }
    if t != [] {
      assert t[0] in t;
    }
    if s != [] && t != [] {
      assert s[0] in t;
      assert t[0] in s;
      assert s[0] == t[0];
      forall y
        ensures y in s[1..] <==> y in t[1..]
      {
        if y in s[1..] {
          var a :| 1 <= a < |s| && s[a] == y;
          assert y in t && y != t[0];
          var c :| 0 <= c < |t| && t[c] == y;
        }
        if y in t[1..] {
          var a :| 1 <= a < |t| && t[a] == y;
          assert y in s && y != s[0];
          var c :| 0 <= c < |s| && s[c] == y;
        }
      }
      AscendingUnique(s[1..], t[1..]);
      assert s == [s[0]] + s[1..] && t == [t[0]] + t[1..];
    }
  }

  /** Toggling keeps a strictly ascending mark list strictly ascending, and
      membership flips for `m` only. */
  lemma ToggleKeepsAscending(ms: seq<int>, m: int)
    requires StrictlyAscending(ms)
    ensures StrictlyAscending(ToggleList(ms, m))
    ensures forall y :: y in ToggleList(ms, m) <==> (y in ms) != (y == m)
  {
    if m in ms {
      RemoveFirstAscending(ms, m);
    } else {
      InsertAscending(ms, m);
    }
  }

  /** Toggling the same mark twice gives the list back: for any list when
      the mark is absent, and for a strictly ascending list in all cases. */
  lemma ToggleTwice(ms: seq<int>, m: int)
    requires StrictlyAscending(ms) || m !in ms
    ensures ToggleList(ToggleList(ms, m), m) == ms
  {
    if m in ms {
      ToggleTwicePresent(ms, m);
    } else {
      RemoveInserted(ms, BisectRight(ms, m, 0, |ms|), m);
    }
  }

  /** A mark present in a strictly ascending list is removed and then put
      back where it was. */
  lemma ToggleTwicePresent(ms: seq<int>, m: int)
    requires StrictlyAscending(ms) && m in ms
    ensures ToggleList(ToggleList(ms, m), m) == ms
  {
    var once := ToggleList(ms, m);
    var twice := ToggleList(once, m);
    ToggleKeepsAscending(ms, m);
    ToggleKeepsAscending(once, m);
    FlipTwice(ms, once, twice, m);
    AscendingUnique(twice, ms);
  }

  /** Flipping the membership of `m` twice restores every membership. */
  lemma FlipTwice(s: seq<int>, once: seq<int>, twice: seq<int>, m: int)
    requires forall y :: y in once <==> (y in s) != (y == m)
    requires forall y :: y in twice <==> (y in once) != (y == m)
    ensures forall y :: y in twice <==> y in s
  {
  }

  /** Removing an element that was absent before its insertion undoes the
      insertion, wherever it was inserted. */
  lemma RemoveInserted(s: seq<int>, k: nat, x: int)
    requires k <= |s| && x !in s
    ensures RemoveFirst(InsertAt(s, k, x), x) == s
  {
    var once := InsertAt(s, k, x);
    assert once == s[..k] + [x] + s[k..];
    assert once[..k] == s[..k];
    assert x !in once[..k];
    assert IndexOf(once, x) == k;
    assert once[..k] + once[k + 1..] == s;
  }

  /** On a cell with a strictly ascending mark list, Ctrl + m twice leaves
      the board as it was. */
  lemma ToggleMarkTwice(b: Board, p: Pos, m: int)
    requires Valid(p) && At(b, p).Candidates? && StrictlyAscending(At(b, p).marks)
    ensures ToggleMark(ToggleMark(b, p, m), p, m) == b
  {
    var ms := At(b, p).marks;
    var once := Put(b, p, Candidates(ToggleList(ms, m)));
    assert ToggleMark(b, p, m) == once;
    assert ToggleMark(once, p, m) == Put(once, p, Candidates(ToggleList(ToggleList(ms, m), m)));
    ToggleTwice(ms, m);
    PutTwice(b, p, Candidates(ToggleList(ms, m)), At(b, p));
    PutSame(b, p);
  }
}
