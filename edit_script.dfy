/**
 * What an edit script produced by shChainDiff means, independently of how
 * it is computed. Elements of the two chains are compared with the caller's
 * comparison function, which returns 0 for elements it considers equal.
 *
 * The edit graph has a point (row, col) for every pair of prefixes: row
 * lines of the first chain and col lines of the second consumed. Lines are
 * numbered from 1, so line n of a chain is element n - 1 of its sequence.
 * A move is one edit:
 *   - Delete(row, col): delete line `row` of the first chain, going from
 *     (row - 1, col) to (row, col);
 *   - Insert(row, col): insert line `col` of the second chain after line
 *     `row` of the first, going from (row, col - 1) to (row, col).
 * Between moves a path slides along a diagonal over pairs the comparison
 * function calls equal.
 */
module EditScript {

  /** The `op` of an EDIT node. IDENTICAL marks the one-node script of equal chains. */
  datatype Op = Identical | Insert | Delete

  /** One edit of a script: the op and the point (line1.n, line2.n) it reaches. */
  datatype Move = Move(op: Op, row: int, col: int)

  /** The point a move starts from. */
  function StartRow(m: Move): int
  {
    if m.op == Delete then m.row - 1 else m.row
  }

  function StartCol(m: Move): int
  {
    if m.op == Insert then m.col - 1 else m.col
  }

  /** Lines r0+1 .. r0+len of the first chain match lines c0+1 .. c0+len of the second. */
  predicate Snake<T>(s1: seq<T>, s2: seq<T>, func: (T, T) -> int, r0: int, c0: int, len: int)
  {
    0 <= r0 && 0 <= c0 && 0 <= len && r0 + len <= |s1| && c0 + len <= |s2| &&
    forall i :: r0 <= i < r0 + len ==> func(s1[i], s2[i + (c0 - r0)]) == 0
  }

  /**
   * `moves`, in order, together with the slides between them, lead from
   * (0, 0) to (r, c).
   */
  predicate PathTo<T>(s1: seq<T>, s2: seq<T>, func: (T, T) -> int, moves: seq<Move>, r: int, c: int)
    decreases |moves|
  {
    if moves == [] then
      r == c && Snake(s1, s2, func, 0, 0, r)
    else
      var m := moves[|moves| - 1];
      m.op != Identical &&
      r - m.row == c - m.col && Snake(s1, s2, func, m.row, m.col, r - m.row) &&
      0 <= StartRow(m) && 0 <= StartCol(m) &&
      PathTo(s1, s2, func, moves[..|moves| - 1], StartRow(m), StartCol(m))
  }

  /** Every point on a path lies inside the edit graph. */
  lemma {:induction false} PathInBounds<T>(s1: seq<T>, s2: seq<T>, func: (T, T) -> int, moves: seq<Move>, r: int, c: int)
    requires PathTo(s1, s2, func, moves, r, c)
    ensures 0 <= r <= |s1| && 0 <= c <= |s2|
    ensures forall i :: 0 <= i < |moves| ==>
      moves[i].op != Identical && 0 <= StartRow(moves[i]) && 0 <= StartCol(moves[i]) &&
      moves[i].row <= |s1| && moves[i].col <= |s2|
    decreases |moves|
  {
    if moves != [] {
      var init := moves[..|moves| - 1];
      var m := moves[|moves| - 1];
      PathInBounds(s1, s2, func, init, StartRow(m), StartCol(m));
      forall i | 0 <= i < |moves|
        ensures moves[i].op != Identical && 0 <= StartRow(moves[i]) && 0 <= StartCol(moves[i]) &&
          moves[i].row <= |s1| && moves[i].col <= |s2|
      {
        if i < |init| {
          assert moves[i] == init[i];
        }
      }
    }
  }

  function CountOp(moves: seq<Move>, op: Op): (n: nat)
    ensures n <= |moves|
  {
    if moves == [] then 0
    else CountOp(moves[..|moves| - 1], op) + (if moves[|moves| - 1].op == op then 1 else 0)
  }

  /**
   * A path to (r, c) deletes r - c more lines than it inserts, and every
   * move is a deletion or an insertion.
   */
  lemma {:induction false} PathBalance<T>(s1: seq<T>, s2: seq<T>, func: (T, T) -> int, moves: seq<Move>, r: int, c: int)
    requires PathTo(s1, s2, func, moves, r, c)
    ensures CountOp(moves, Delete) - CountOp(moves, Insert) == r - c
    ensures CountOp(moves, Delete) + CountOp(moves, Insert) == |moves|
    decreases |moves|
  {
    if moves != [] {
      var m := moves[|moves| - 1];
      PathBalance(s1, s2, func, moves[..|moves| - 1], StartRow(m), StartCol(m));
    }
  }

  /** Every move advances one step and every slide two, so a path of m moves ends at least m steps from (0, 0). */
  lemma {:induction false} PathProgress<T>(s1: seq<T>, s2: seq<T>, func: (T, T) -> int, moves: seq<Move>, r: int, c: int)
    requires PathTo(s1, s2, func, moves, r, c)
    ensures r + c >= |moves|
    decreases |moves|
  {
    if moves != [] {
      var m := moves[|moves| - 1];
      PathProgress(s1, s2, func, moves[..|moves| - 1], StartRow(m), StartCol(m));
    }
  }

  /**
   * The sequence obtained by applying the moves of a path to (r, c) to the
   * first r lines of the first chain: deleted lines are dropped, inserted
   * lines of the second chain are put in.
   */
  function Replay<T>(s1: seq<T>, s2: seq<T>, func: (T, T) -> int, moves: seq<Move>, r: int, c: int): seq<T>
    requires PathTo(s1, s2, func, moves, r, c)
    decreases |moves|
  {
    if moves == [] then s1[..r]
    else
      var m := moves[|moves| - 1];
      var prefix := Replay(s1, s2, func, moves[..|moves| - 1], StartRow(m), StartCol(m));
      if m.op == Insert then prefix + [s2[m.col - 1]] + s1[m.row..r]
      else prefix + s1[m.row..r]
  }

  /** Two sequences the comparison function pairs up, position by position. */
  ghost predicate Matches<T>(func: (T, T) -> int, a: seq<T>, b: seq<T>)
  {
    |a| == |b| && forall i :: 0 <= i < |a| ==> a[i] == b[i] || func(a[i], b[i]) == 0
  }

  /**
   * Replaying a path to (r, c) on the first chain gives a sequence that
   * matches the first c lines of the second chain.
   */
  lemma {:induction false} ReplayMatches<T>(s1: seq<T>, s2: seq<T>, func: (T, T) -> int, moves: seq<Move>, r: int, c: int)
    requires PathTo(s1, s2, func, moves, r, c)
    ensures Matches(func, Replay(s1, s2, func, moves, r, c), s2[..c])
    decreases |moves|
  {
    if moves == [] {
      SnakeMatches(s1, s2, func, 0, 0, r);
      assert s1[..r] == s1[0..r] && s2[..c] == s2[0..c];
    } else {
      var m := moves[|moves| - 1];
      ReplayMatches(s1, s2, func, moves[..|moves| - 1], StartRow(m), StartCol(m));
      ReplayStep(s1, s2, func, moves, r, c);
    }
  }

  /** The inductive step of ReplayMatches: the last move and slide extend a matching replay. */
  lemma ReplayStep<T>(s1: seq<T>, s2: seq<T>, func: (T, T) -> int, moves: seq<Move>, r: int, c: int)
    requires moves != [] && PathTo(s1, s2, func, moves, r, c)
    requires var m := moves[|moves| - 1];
      Matches(func, Replay(s1, s2, func, moves[..|moves| - 1], StartRow(m), StartCol(m)), s2[..StartCol(m)])
    ensures Matches(func, Replay(s1, s2, func, moves, r, c), s2[..c])
  {
    var m := moves[|moves| - 1];
    var r0, c0 := StartRow(m), StartCol(m);
    SnakeMatches(s1, s2, func, m.row, m.col, r - m.row);
    var prefix := Replay(s1, s2, func, moves[..|moves| - 1], r0, c0);
    var mid := if m.op == Insert then [s2[m.col - 1]] else [];
    assert Matches(func, mid, s2[c0..m.col]);
    ConcatMatches3(func, prefix, mid, s1[m.row..r], s2, c0, m.col, c);
  }

  /** The two sides of a slide match. */
  lemma SnakeMatches<T>(s1: seq<T>, s2: seq<T>, func: (T, T) -> int, r0: int, c0: int, len: int)
    requires Snake(s1, s2, func, r0, c0, len)
    ensures Matches(func, s1[r0..r0 + len], s2[c0..c0 + len])
  {
    var a, b := s1[r0..r0 + len], s2[c0..c0 + len];
    forall i | 0 <= i < len
      ensures func(a[i], b[i]) == 0
    {
      assert func(s1[r0 + i], s2[r0 + i + (c0 - r0)]) == 0;
    }
  }

  /** Three matching pieces of a sequence and of a prefix of s make a sequence matching that prefix. */
  lemma ConcatMatches3<T>(func: (T, T) -> int, a1: seq<T>, a2: seq<T>, a3: seq<T>, s: seq<T>, i: int, j: int, k: int)
    requires 0 <= i <= j <= k <= |s|
    requires Matches(func, a1, s[..i]) && Matches(func, a2, s[i..j]) && Matches(func, a3, s[j..k])
    ensures Matches(func, a1 + a2 + a3, s[..k])
  {
    assert s[..k] == s[..i] + s[i..j] + s[j..k];
    ConcatMatches(func, a1, a2, s[..i], s[i..j]);
    ConcatMatches(func, a1 + a2, a3, s[..i] + s[i..j], s[j..k]);
  }

  /** Matching sequences concatenate to matching sequences. */
  lemma ConcatMatches<T>(func: (T, T) -> int, a1: seq<T>, a2: seq<T>, b1: seq<T>, b2: seq<T>)
    requires Matches(func, a1, b1) && Matches(func, a2, b2)
    ensures Matches(func, a1 + a2, b1 + b2)
  {
    var a, b := a1 + a2, b1 + b2;
    forall i | 0 <= i < |a|
      ensures a[i] == b[i] || func(a[i], b[i]) == 0
    {
      if i >= |a1| {
        assert a[i] == a2[i - |a1|] && b[i] == b2[i - |a1|];
      }
    }
  }

  /** The chains are equal line by line under the comparison function. */
  predicate AllEqual<T>(s1: seq<T>, s2: seq<T>, func: (T, T) -> int)
  {
    |s1| == |s2| && forall i :: 0 <= i < |s1| ==> func(s1[i], s2[i]) == 0
  }

  /** A path with no moves ends on the main diagonal, and one to the corner means the chains are equal. */
  lemma EmptyPathIsEqual<T>(s1: seq<T>, s2: seq<T>, func: (T, T) -> int)
    requires PathTo(s1, s2, func, [], |s1|, |s2|)
    ensures AllEqual(s1, s2, func)
  {
    forall i | 0 <= i < |s1|
      ensures func(s1[i], s2[i]) == 0
    {
      assert func(s1[i], s2[i + (0 - 0)]) == 0;
    }
  }
}
