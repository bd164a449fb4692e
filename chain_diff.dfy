/**
 * shChainDiff and its helpers: Myers' O(ND) difference algorithm over two
 * chains, building a linked script of EDIT nodes.
 *
 * The process-wide statics of the source (the element arrays chain1 and
 * chain2, and membase, the head of the list of every EDIT node allocated)
 * are the fields of a DiffSession. EDIT nodes live in `heap`, a map from
 * node addresses to nodes; `next` is the address the allocator hands out
 * next. A pointer to a node is a Ptr.
 */
module ChainDiff {
  import opened EditScript

  /** MAXLINES: the longest chain that can be diffed is MAXLINES - 1 elements. */
  const MaxLines := 2000
  /** ORIGIN: the subscript of diagonal 0 in last_d and script. */
  const Origin := MaxLines
  /** The size of last_d and script, 2*MAXLINES + 1. */
  const NDiag := 2 * MaxLines + 1

  datatype Ptr = Null | At(id: nat)

  datatype Option<T> = None | Some(value: T)

  /**
   * An EDIT node: its op, the line numbers line1.n and line2.n, the element
   * pointers line1.ptr and line2.ptr that chain_prepare fills in, the link
   * to the next node of the script and the memchain link of the list of
   * all nodes.
   */
  datatype Node<T> = Node(op: Op, line1: int, line2: int, ptr1: Option<T>, ptr2: Option<T>, link: Ptr, memchain: Ptr)

  /** A CHAIN as shChainDiff sees it: its element type and its elements. */
  datatype Chain<T> = Chain(ctype: string, elems: seq<T>)

  function MoveOf<T>(n: Node<T>): Move
  {
    Move(n.op, n.line1, n.line2)
  }

  // ------------------------------------------------------------ linked lists

  /** Following `link` n times from p visits n nodes of the heap and ends at NULL. */
  ghost predicate IsChain<T>(heap: map<nat, Node<T>>, p: Ptr, n: nat)
    decreases n
  {
    if n == 0 then p == Null
    else p.At? && p.id in heap && IsChain(heap, heap[p.id].link, n - 1)
  }

  /** The addresses of the nodes of such a chain. */
  ghost function Ids<T>(heap: map<nat, Node<T>>, p: Ptr, n: nat): (r: set<nat>)
    requires IsChain(heap, p, n)
    ensures forall x :: x in r ==> x in heap
    decreases n
  {
    if n == 0 then {} else {p.id} + Ids(heap, heap[p.id].link, n - 1)
  }

  /** The nodes of a chain in link order. */
  ghost function Walk<T>(heap: map<nat, Node<T>>, p: Ptr, n: nat): (r: seq<Node<T>>)
    requires IsChain(heap, p, n)
    ensures |r| == n
    decreases n
  {
    if n == 0 then [] else [heap[p.id]] + Walk(heap, heap[p.id].link, n - 1)
  }

  /** The moves of a chain read against its links: the last node first in the chain is the last move. */
  ghost function BackMoves<T>(heap: map<nat, Node<T>>, p: Ptr, n: nat): (ms: seq<Move>)
    requires IsChain(heap, p, n)
    ensures |ms| == n
    decreases n
  {
    if n == 0 then [] else BackMoves(heap, heap[p.id].link, n - 1) + [MoveOf(heap[p.id])]
  }

  function MovesOf<T>(nodes: seq<Node<T>>): (ms: seq<Move>)
    ensures |ms| == |nodes|
    ensures forall i :: 0 <= i < |nodes| ==> ms[i] == MoveOf(nodes[i])
  {
    if nodes == [] then [] else [MoveOf(nodes[0])] + MovesOf(nodes[1..])
  }

  /** Every link of the chain goes to a lower address: the order in which shChainDiff builds it. */
  ghost predicate Descending<T>(heap: map<nat, Node<T>>, p: Ptr, n: nat)
    requires IsChain(heap, p, n)
    decreases n
  {
    n == 0 || (var l := heap[p.id].link; (l.At? ==> l.id < p.id) && Descending(heap, l, n - 1))
  }

  /** A descending chain visits only addresses at or below its head. */
  lemma {:induction false} DescendingBelowHead<T>(heap: map<nat, Node<T>>, p: Ptr, n: nat)
    requires IsChain(heap, p, n) && Descending(heap, p, n) && n > 0
    ensures forall x :: x in Ids(heap, p, n) ==> x <= p.id
    ensures p.id !in Ids(heap, heap[p.id].link, n - 1)
    decreases n
  {
    if n > 1 {
      DescendingBelowHead(heap, heap[p.id].link, n - 1);
    }
  }

  /** Changing nodes off a chain changes nothing about the chain. */
  lemma {:induction false} ChainFrame<T>(heap: map<nat, Node<T>>, heap': map<nat, Node<T>>, p: Ptr, n: nat)
    requires IsChain(heap, p, n)
    requires forall x :: x in Ids(heap, p, n) ==> x in heap' && heap'[x] == heap[x]
    ensures IsChain(heap', p, n) && Ids(heap', p, n) == Ids(heap, p, n)
    ensures Walk(heap', p, n) == Walk(heap, p, n) && BackMoves(heap', p, n) == BackMoves(heap, p, n)
    ensures Descending(heap, p, n) ==> Descending(heap', p, n)
    decreases n
  {
    if n > 0 {
      ChainFrame(heap, heap', heap[p.id].link, n - 1);
    }
  }

  /** The moves of a chain in link order are its nodes' moves. */
  lemma {:induction false} WalkMoves<T>(heap: map<nat, Node<T>>, p: Ptr, n: nat)
    requires IsChain(heap, p, n) && n > 0
    ensures MovesOf(Walk(heap, p, n)) == [MoveOf(heap[p.id])] + MovesOf(Walk(heap, heap[p.id].link, n - 1))
  {
  }

  /**
   * chain_prepare part way: i nodes have been moved from the unreversed
   * part a, which holds the first n - i moves newest first, to the front
   * of the reversed part tmp, which holds the last i moves in order.
   */
  ghost predicate Reversing<T>(heap: map<nat, Node<T>>, a: Ptr, tmp: Ptr, i: nat, n: nat, M: seq<Move>)
  {
    |M| == n && i <= n &&
    IsChain(heap, a, n - i) && Descending(heap, a, n - i) && BackMoves(heap, a, n - i) == M[..n - i] &&
    IsChain(heap, tmp, i) && MovesOf(Walk(heap, tmp, i)) == M[n - i..] &&
    Ids(heap, a, n - i) !! Ids(heap, tmp, i)
  }

  /**
   * chain_prepare part way, resolving as it goes: the reversed part points
   * at its elements, the two parts together hold the nodes of the script,
   * ids0, and every other node is as it was in heap0.
   */
  ghost predicate Preparing<T>(heap: map<nat, Node<T>>, a: Ptr, tmp: Ptr, i: nat, n: nat, M: seq<Move>,
                               s1: seq<T>, s2: seq<T>, ids0: set<nat>, heap0: map<nat, Node<T>>)
  {
    Reversing(heap, a, tmp, i, n, M) && AllResolved(Walk(heap, tmp, i), s1, s2) &&
    Ids(heap, a, n - i) + Ids(heap, tmp, i) == ids0 &&
    forall x :: x in heap0 && x !in ids0 ==> x in heap && heap[x] == heap0[x]
  }

  /** Before the first turn nothing is reversed and every node is as it was. */
  lemma PreparingStart<T>(heap: map<nat, Node<T>>, script: Ptr, n: nat, s1: seq<T>, s2: seq<T>)
    requires IsChain(heap, script, n) && Descending(heap, script, n)
    ensures Preparing(heap, script, Null, 0, n, BackMoves(heap, script, n), s1, s2, Ids(heap, script, n), heap)
  {
    assert BackMoves(heap, script, n)[..n] == BackMoves(heap, script, n);
  }

  /** When the unreversed part is empty, the reversed part is the whole script, resolved. */
  lemma PreparingEnd<T>(heap: map<nat, Node<T>>, tmp: Ptr, i: nat, n: nat, M: seq<Move>,
                        s1: seq<T>, s2: seq<T>, ids0: set<nat>, heap0: map<nat, Node<T>>)
    requires Preparing(heap, Null, tmp, i, n, M, s1, s2, ids0, heap0)
    ensures i == n && IsChain(heap, tmp, n) && MovesOf(Walk(heap, tmp, n)) == M
    ensures Ids(heap, tmp, n) == ids0 && AllResolved(Walk(heap, tmp, n), s1, s2)
    ensures forall x :: x in heap0 && x !in ids0 ==> x in heap && heap[x] == heap0[x]
  {
    assert M[n - i..] == M;
  }

  /**
   * One turn of chain_prepare's loop: node a, the newest of the part not yet
   * reversed, is relinked to the front of the reversed part tmp and its
   * pointers set. The unreversed part keeps the first moves, the reversed
   * part the last ones, first move first.
   */
  lemma ReverseStep<T>(heap: map<nat, Node<T>>, heap': map<nat, Node<T>>, a: Ptr, tmp: Ptr, node': Node<T>,
                       i: nat, n: nat, M: seq<Move>)
    requires Reversing(heap, a, tmp, i, n, M) && i < n
    requires heap' == heap[a.id := node'] && node'.link == tmp && MoveOf(node') == MoveOf(heap[a.id])
    ensures Reversing(heap', heap[a.id].link, a, i + 1, n, M)
    ensures Walk(heap', a, i + 1) == [node'] + Walk(heap, tmp, i)
    ensures a.id in Ids(heap, a, n - i)
    ensures Ids(heap', heap[a.id].link, n - (i + 1)) + Ids(heap', a, i + 1) == Ids(heap, a, n - i) + Ids(heap, tmp, i)
  {
    ReverseRest(heap, heap', a, node', i, n, M);
    NewestMove(heap, a, i, n, M);
    assert a.id in Ids(heap, a, n - i);
    ReverseFront(heap, heap', a, tmp, node', i, n, M);
  }

  /** The newest node of the unreversed part holds its last move. */
  lemma NewestMove<T>(heap: map<nat, Node<T>>, a: Ptr, i: nat, n: nat, M: seq<Move>)
    requires |M| == n && i < n
    requires IsChain(heap, a, n - i) && BackMoves(heap, a, n - i) == M[..n - i]
    ensures MoveOf(heap[a.id]) == M[n - i - 1]
  {
  }

  /** The unreversed part loses its newest node and keeps the other moves. */
  lemma ReverseRest<T>(heap: map<nat, Node<T>>, heap': map<nat, Node<T>>, a: Ptr, node': Node<T>, i: nat, n: nat, M: seq<Move>)
    requires |M| == n && i < n
    requires IsChain(heap, a, n - i) && Descending(heap, a, n - i) && BackMoves(heap, a, n - i) == M[..n - i]
    requires heap' == heap[a.id := node']
    ensures var a' := heap[a.id].link;
      IsChain(heap', a', n - (i + 1)) && Descending(heap', a', n - (i + 1)) &&
      BackMoves(heap', a', n - (i + 1)) == M[..n - (i + 1)] &&
      Ids(heap', a', n - (i + 1)) == Ids(heap, a, n - i) - {a.id}
  {
    var l := heap[a.id].link;
    DescendingBelowHead(heap, a, n - i);
    ChainFrame(heap, heap', l, n - i - 1);
    assert M[..n - i][..n - i - 1] == M[..n - i - 1];
  }

  /** The reversed part gains that node at its front, with the move before its first. */
  lemma ReverseFront<T>(heap: map<nat, Node<T>>, heap': map<nat, Node<T>>, a: Ptr, tmp: Ptr, node': Node<T>,
                        i: nat, n: nat, M: seq<Move>)
    requires |M| == n && i < n
    requires IsChain(heap, tmp, i) && MovesOf(Walk(heap, tmp, i)) == M[n - i..]
    requires a.At? && a.id !in Ids(heap, tmp, i)
    requires heap' == heap[a.id := node'] && node'.link == tmp && MoveOf(node') == M[n - i - 1]
    ensures IsChain(heap', a, i + 1) && MovesOf(Walk(heap', a, i + 1)) == M[n - (i + 1)..]
    ensures Walk(heap', a, i + 1) == [node'] + Walk(heap, tmp, i)
    ensures Ids(heap', a, i + 1) == {a.id} + Ids(heap, tmp, i)
  {
    ChainFrame(heap, heap', tmp, i);
    ConsChain(heap', a, i);
    WalkMoves(heap', a, i + 1);
    assert M[n - i - 1..] == [M[n - i - 1]] + M[n - i..];
  }

  /** A node linked to a chain of i nodes heads a chain of i + 1. */
  lemma ConsChain<T>(heap: map<nat, Node<T>>, a: Ptr, i: nat)
    requires a.At? && a.id in heap && IsChain(heap, heap[a.id].link, i)
    ensures IsChain(heap, a, i + 1)
    ensures Walk(heap, a, i + 1) == [heap[a.id]] + Walk(heap, heap[a.id].link, i)
    ensures Ids(heap, a, i + 1) == {a.id} + Ids(heap, heap[a.id].link, i)
  {
  }

  /**
   * The moves chain_prepare as written reads elements for: it dereferences
   * chain1[line1.n - 1] and chain2[line2.n - 1] for every node, which is only
   * inside the arrays when both line numbers are at least 1.
   */
  predicate ReadableAsWritten(m: Move)
  {
    1 <= m.row <= MaxLines && 1 <= m.col <= MaxLines
  }

  /**
   * Every move of a script from a non-empty chain to an empty one is a
   * deletion at line2.n = 0, so chain_prepare as written reads chain2[-1].
   */
  lemma {:induction false} ChainPrepareAsWrittenReadsBeforeStart<T>(s1: seq<T>, func: (T, T) -> int, moves: seq<Move>)
    requires |s1| >= 1 && PathTo(s1, [], func, moves, |s1|, 0)
    ensures |moves| >= 1
    ensures forall i :: 0 <= i < |moves| ==> moves[i].op == Delete && moves[i].col == 0 && !ReadableAsWritten(moves[i])
  {
    PathInBounds(s1, [], func, moves, |s1|, 0);
  }

  // ------------------------------------------------------------------ arena

  /**
   * The arena: the nodes allocated since the last free are exactly the
   * addresses base .. next-1, membase is the newest of them (NULL when there
   * is none), and each node's memchain is the one allocated before it.
   * free_script can therefore reach and free every node from membase.
   */
  ghost predicate ArenaOK<T>(heap: map<nat, Node<T>>, membase: Ptr, base: nat, next: nat)
  {
    base <= next &&
    (forall x :: x in heap <==> base <= x < next) &&
    membase == (if base == next then Null else At(next - 1)) &&
    (forall x :: x in heap ==> heap[x].memchain == if x == base then Null else At(x - 1))
  }

  /** Allocating a node at `next` and pushing it on membase keeps the arena. */
  lemma ArenaAlloc<T>(heap: map<nat, Node<T>>, membase: Ptr, base: nat, next: nat, node: Node<T>)
    requires ArenaOK(heap, membase, base, next) && node.memchain == membase
    ensures ArenaOK(heap[next := node], At(next), base, next + 1)
    ensures Grows(heap, heap[next := node]) && forall x :: x in heap ==> x < next
  {
  }

  /** Rewriting a node's links and pointers, but not its memchain, keeps the arena. */
  lemma ArenaUpdate<T>(heap: map<nat, Node<T>>, membase: Ptr, base: nat, next: nat, x: nat, node: Node<T>)
    requires ArenaOK(heap, membase, base, next) && x in heap && node.memchain == heap[x].memchain
    ensures ArenaOK(heap[x := node], membase, base, next) && heap[x := node].Keys == heap.Keys
  {
  }

  /** Every node of heap is still in heap', unchanged: nodes were only added. */
  ghost predicate Grows<T>(heap: map<nat, Node<T>>, heap': map<nat, Node<T>>)
  {
    forall x :: x in heap ==> x in heap' && heap'[x] == heap[x]
  }

  lemma {:induction false} ChainGrows<T>(heap: map<nat, Node<T>>, heap': map<nat, Node<T>>, p: Ptr, n: nat)
    requires IsChain(heap, p, n) && Grows(heap, heap')
    ensures IsChain(heap', p, n) && BackMoves(heap', p, n) == BackMoves(heap, p, n)
    ensures Descending(heap, p, n) ==> Descending(heap', p, n)
    decreases n
  {
    if n > 0 {
      ChainGrows(heap, heap', heap[p.id].link, n - 1);
    }
  }

  // ------------------------------------------------------- the search state

  /** Diagonal j has the parity of edit distance d: round d visits it. */
  predicate Par(j: int, d: int)
  {
    (j - Origin - d) % 2 == 0
  }

  /** Diagonals of the same parity are an even distance apart. */
  lemma ParDiff(j: int, k: int, d: int)
    requires Par(j, d) && Par(k, d)
    ensures (k - j) % 2 == 0 && (k - j - 1) % 2 != 0 && (k - j + 1) % 2 != 0
  {
  }

  /**
   * The chain of e EDIT nodes at p, newest first, records a path from
   * (0, 0) to (row, col): the newest node's move, followed by a slide,
   * reaches (row, col) from the point the rest of the chain reaches, and
   * every link goes to an older node, at a lower address.
   */
  ghost predicate Records<T>(s1: seq<T>, s2: seq<T>, func: (T, T) -> int, heap: map<nat, Node<T>>,
                             p: Ptr, e: nat, row: int, col: int)
    decreases e, 0
  {
    if e == 0 then p == Null && row == col && Snake(s1, s2, func, 0, 0, row)
    else
      p.At? && p.id in heap &&
      var n := heap[p.id];
      var m := MoveOf(n);
      m.op != Identical && row - m.row == col - m.col && Snake(s1, s2, func, m.row, m.col, row - m.row) &&
      (n.link.At? ==> n.link.id < p.id) &&
      DiagOK(s1, s2, func, heap, StartRow(m), n.link, StartCol(m) - StartRow(m) + Origin, e - 1)
  }

  /**
   * The furthest point found on diagonal j, at row `row` and column
   * row + j - ORIGIN, lies in the edit graph and is reached from (0, 0) by
   * e edits, recorded by the chain of EDIT nodes at p.
   */
  ghost predicate DiagOK<T>(s1: seq<T>, s2: seq<T>, func: (T, T) -> int, heap: map<nat, Node<T>>,
                            row: int, p: Ptr, j: int, e: nat)
    decreases e, 1
  {
    0 <= row <= |s1| && 0 <= row + j - Origin <= |s2| &&
    Records(s1, s2, func, heap, p, e, row, row + j - Origin)
  }

  /** A recorded path of e edits ends at least e steps from the origin. */
  lemma {:induction false} DiagOKProgress<T>(s1: seq<T>, s2: seq<T>, func: (T, T) -> int, heap: map<nat, Node<T>>,
                                             row: int, p: Ptr, j: int, e: nat)
    requires DiagOK(s1, s2, func, heap, row, p, j, e)
    ensures row + (row + j - Origin) >= e
    decreases e
  {
    if e > 0 {
      var m := MoveOf(heap[p.id]);
      DiagOKProgress(s1, s2, func, heap, StartRow(m), heap[p.id].link, StartCol(m) - StartRow(m) + Origin, e - 1);
    }
  }

  /**
   * A recording chain is a descending chain of e nodes whose moves, oldest
   * first, form a path from (0, 0) to the point on diagonal j at row `row`.
   */
  lemma {:induction false} DiagOKPath<T>(s1: seq<T>, s2: seq<T>, func: (T, T) -> int, heap: map<nat, Node<T>>,
                                         row: int, p: Ptr, j: int, e: nat)
    requires DiagOK(s1, s2, func, heap, row, p, j, e)
    ensures IsChain(heap, p, e) && Descending(heap, p, e)
    ensures PathTo(s1, s2, func, BackMoves(heap, p, e), row, row + j - Origin)
    decreases e
  {
    if e > 0 {
      var n := heap[p.id];
      var m := MoveOf(n);
      DiagOKPath(s1, s2, func, heap, StartRow(m), n.link, StartCol(m) - StartRow(m) + Origin, e - 1);
      var init := BackMoves(heap, n.link, e - 1);
      assert BackMoves(heap, p, e) == init + [m];
      assert (init + [m])[..|init|] == init;
    }
  }

  /** Adding nodes to the heap keeps what a chain records. */
  lemma {:induction false} DiagOKGrows<T>(s1: seq<T>, s2: seq<T>, func: (T, T) -> int,
                                          heap: map<nat, Node<T>>, heap': map<nat, Node<T>>,
                                          row: int, p: Ptr, j: int, e: nat)
    requires DiagOK(s1, s2, func, heap, row, p, j, e) && Grows(heap, heap')
    ensures DiagOK(s1, s2, func, heap', row, p, j, e)
    decreases e
  {
    if e > 0 {
      var m := MoveOf(heap[p.id]);
      DiagOKGrows(s1, s2, func, heap, heap', StartRow(m), heap[p.id].link, StartCol(m) - StartRow(m) + Origin, e - 1);
    }
  }

  /**
   * A node for one more edit, linked to the chain of a neighbouring
   * diagonal, followed by a slide, records a path one edit longer on
   * diagonal k.
   */
  lemma ExtendDiag<T>(s1: seq<T>, s2: seq<T>, func: (T, T) -> int, heap: map<nat, Node<T>>, heap': map<nat, Node<T>>,
                      id: nat, node: Node<T>, fromRow: int, from: int, k: int, e: nat, row: int, col: int)
    requires DiagOK(s1, s2, func, heap, fromRow, node.link, from, e)
    requires heap' == heap[id := node] && forall x :: x in heap ==> x < id
    requires from == k + 1 ==> node.op == Delete && node.line1 == fromRow + 1
    requires from == k - 1 ==> node.op == Insert && node.line1 == fromRow
    requires from == k + 1 || from == k - 1
    requires node.line2 == node.line1 + k - Origin
    requires Snake(s1, s2, func, node.line1, node.line2, row - node.line1) && row - node.line1 == col - node.line2
    ensures DiagOK(s1, s2, func, heap', row, At(id), k, e + 1)
    ensures col == row + k - Origin && row + col >= e + 1
  {
    DiagOKGrows(s1, s2, func, heap, heap', fromRow, node.link, from, e);
    DiagOKProgress(s1, s2, func, heap, fromRow, node.link, from, e);
  }

  /**
   * The node round d creates on diagonal k, from the neighbour Choose
   * picked: a deletion below the point of diagonal k+1 (row lp, chain sp)
   * or an insertion right of the point of diagonal k-1 (row lm, chain sm).
   */
  ghost predicate ChosenNode<T>(s1: seq<T>, s2: seq<T>, func: (T, T) -> int, heap: map<nat, Node<T>>, node: Node<T>,
                                lm: int, lp: int, sm: Ptr, sp: Ptr, k: int, d: int)
  {
    d >= 1 && Origin - d <= k <= Origin + d &&
    (k > Origin - d ==> DiagOK(s1, s2, func, heap, lm, sm, k - 1, d - 1) && lm + (k - 1) - Origin < |s2|) &&
    (k < Origin + d ==> DiagOK(s1, s2, func, heap, lp, sp, k + 1, d - 1) && lp < |s1|) &&
    node.line2 == node.line1 + k - Origin &&
    (node.op == Delete || node.op == Insert) &&
    (node.op == Delete ==> k < Origin + d && node.line1 == lp + 1 && node.link == sp && (k > Origin - d ==> lp >= lm)) &&
    (node.op == Insert ==> k > Origin - d && node.line1 == lm && node.link == sm && (k < Origin + d ==> lp < lm))
  }

  /** The chosen node's point lies inside the edit graph. */
  lemma NodeInGraph<T>(s1: seq<T>, s2: seq<T>, func: (T, T) -> int, heap: map<nat, Node<T>>, node: Node<T>,
                       lm: int, lp: int, sm: Ptr, sp: Ptr, k: int, d: int)
    requires ChosenNode(s1, s2, func, heap, node, lm, lp, sm, sp, k, d)
    ensures 0 <= node.line1 <= |s1| && 0 <= node.line2 <= |s2|
  {
  }

  /**
   * After the slide from the chosen node to (row, col): diagonal k holds a
   * point of edit distance d, at least d steps from the origin; and it is
   * on the last row when diagonal k-1 was, on the last column when
   * diagonal k+1 was.
   */
  lemma StepFacts<T>(s1: seq<T>, s2: seq<T>, func: (T, T) -> int, heap: map<nat, Node<T>>, heap': map<nat, Node<T>>,
                     id: nat, node: Node<T>, lm: int, lp: int, sm: Ptr, sp: Ptr, k: int, d: int, row: int, col: int)
    requires ChosenNode(s1, s2, func, heap, node, lm, lp, sm, sp, k, d)
    requires heap' == heap[id := node] && forall x :: x in heap ==> x < id
    requires Snake(s1, s2, func, node.line1, node.line2, row - node.line1) && row - node.line1 == col - node.line2
    ensures DiagOK(s1, s2, func, heap', row, At(id), k, d)
    ensures col == row + k - Origin && row + col >= d
    ensures k > Origin - d && lm == |s1| ==> row == |s1|
    ensures k < Origin + d && lp + (k + 1) - Origin == |s2| ==> col == |s2|
  {
    if node.op == Delete {
      ExtendDiag(s1, s2, func, heap, heap', id, node, lp, k + 1, k, d - 1, row, col);
    } else {
      ExtendDiag(s1, s2, func, heap, heap', id, node, lm, k - 1, k, d - 1, row, col);
    }
  }

  /** Diagonals j, j + 2, ..., up to top hold points of edit distance e. */
  ghost predicate PathsOn<T>(s1: seq<T>, s2: seq<T>, func: (T, T) -> int, heap: map<nat, Node<T>>,
                             L: seq<int>, S: seq<Ptr>, e: nat, j: int, top: int)
    decreases top - j
  {
    j > top ||
    (0 <= j < |L| && j < |S| && DiagOK(s1, s2, func, heap, L[j], S[j], j, e) &&
     PathsOn(s1, s2, func, heap, L, S, e, j + 2, top))
  }

  /** What holds from diagonal j on holds from any later diagonal of the same parity on. */
  lemma {:induction false} PathsDrop<T>(s1: seq<T>, s2: seq<T>, func: (T, T) -> int, heap: map<nat, Node<T>>,
                                        L: seq<int>, S: seq<Ptr>, e: nat, j: int, j': int, top: int)
    requires PathsOn(s1, s2, func, heap, L, S, e, j, top) && j <= j' && (j' - j) % 2 == 0
    ensures PathsOn(s1, s2, func, heap, L, S, e, j', top)
    decreases j' - j
  {
    if j < j' && j <= top {
      PathsDrop(s1, s2, func, heap, L, S, e, j + 2, j', top);
    }
  }

  lemma PathsAt<T>(s1: seq<T>, s2: seq<T>, func: (T, T) -> int, heap: map<nat, Node<T>>,
                   L: seq<int>, S: seq<Ptr>, e: nat, j: int, i: int, top: int)
    requires PathsOn(s1, s2, func, heap, L, S, e, j, top) && j <= i <= top && (i - j) % 2 == 0
    ensures 0 <= i < |L| && i < |S| && DiagOK(s1, s2, func, heap, L[i], S[i], i, e)
  {
    PathsDrop(s1, s2, func, heap, L, S, e, j, i, top);
  }

  /** A point of edit distance e on diagonal top + 2 extends the range to it. */
  lemma {:induction false} PathsExtend<T>(s1: seq<T>, s2: seq<T>, func: (T, T) -> int, heap: map<nat, Node<T>>,
                                          L: seq<int>, S: seq<Ptr>, e: nat, j: int, top: int)
    requires PathsOn(s1, s2, func, heap, L, S, e, j, top) && j <= top + 2 && (top + 2 - j) % 2 == 0
    requires 0 <= top + 2 < |L| && top + 2 < |S|
    requires DiagOK(s1, s2, func, heap, L[top + 2], S[top + 2], top + 2, e)
    ensures PathsOn(s1, s2, func, heap, L, S, e, j, top + 2)
    decreases top + 2 - j
  {
    if j <= top {
      PathsExtend(s1, s2, func, heap, L, S, e, j + 2, top);
    }
  }

  /**
   * Adding nodes to the heap and changing only diagonal k, which the range
   * skips, keeps the range.
   */
  lemma {:induction false} PathsFrame<T>(s1: seq<T>, s2: seq<T>, func: (T, T) -> int,
                                         heap: map<nat, Node<T>>, heap': map<nat, Node<T>>,
                                         L: seq<int>, S: seq<Ptr>,
                                         L': seq<int>, S': seq<Ptr>, e: nat, j: int, top: int, k: int)
    requires PathsOn(s1, s2, func, heap, L, S, e, j, top) && Grows(heap, heap')
    requires |L| == NDiag && |S| == NDiag && |L'| == NDiag && |S'| == NDiag
    requires forall i :: 0 <= i < NDiag && i != k ==> L'[i] == L[i] && S'[i] == S[i]
    requires k < j || k > top || (k - j) % 2 != 0
    ensures PathsOn(s1, s2, func, heap', L', S', e, j, top)
    decreases top - j
  {
    if j <= top {
      DiagOKGrows(s1, s2, func, heap, heap', L[j], S[j], j, e);
      PathsFrame(s1, s2, func, heap, heap', L, S, L', S', e, j + 2, top, k);
    }
  }

  /** The row of the point on diagonal j, or with byCol its column. */
  function Coord(L: seq<int>, byCol: bool, j: int): int
    requires 0 <= j < |L|
  {
    if byCol then L[j] + j - Origin else L[j]
  }

  /**
   * The points on diagonals j, j + 2, ..., up to top stop short of the last
   * line m: of the first chain (their row is below m), or with byCol of the
   * second (their column is).
   */
  ghost predicate Short(L: seq<int>, byCol: bool, m: int, j: int, top: int)
    decreases top - j
  {
    j > top || (0 <= j < |L| && Coord(L, byCol, j) < m && Short(L, byCol, m, j + 2, top))
  }

  lemma {:induction false} ShortDrop(L: seq<int>, byCol: bool, m: int, j: int, j': int, top: int)
    requires Short(L, byCol, m, j, top) && j <= j' && (j' - j) % 2 == 0
    ensures Short(L, byCol, m, j', top)
    decreases j' - j
  {
    if j < j' && j <= top {
      ShortDrop(L, byCol, m, j + 2, j', top);
    }
  }

  lemma ShortAt(L: seq<int>, byCol: bool, m: int, j: int, i: int, top: int)
    requires Short(L, byCol, m, j, top) && j <= i <= top && (i - j) % 2 == 0
    ensures 0 <= i < |L| && Coord(L, byCol, i) < m
  {
    ShortDrop(L, byCol, m, j, i, top);
  }

  lemma {:induction false} ShortExtend(L: seq<int>, byCol: bool, m: int, j: int, top: int)
    requires Short(L, byCol, m, j, top) && j <= top + 2 && (top + 2 - j) % 2 == 0
    requires 0 <= top + 2 < |L| && Coord(L, byCol, top + 2) < m
    ensures Short(L, byCol, m, j, top + 2)
    decreases top + 2 - j
  {
    if j <= top {
      ShortExtend(L, byCol, m, j + 2, top);
    }
  }

  lemma {:induction false} ShortFrame(L: seq<int>, L': seq<int>, byCol: bool, m: int, j: int, top: int, k: int)
    requires Short(L, byCol, m, j, top) && |L'| == |L| && 0 <= k < |L| && L' == L[k := L'[k]]
    requires k < j || k > top || (k - j) % 2 != 0
    ensures Short(L', byCol, m, j, top)
    decreases top - j
  {
    if j <= top {
      ShortFrame(L, L', byCol, m, j + 2, top, k);
    }
  }

  /** The first diagonal of round d - 1 that round d, from lo, reads. */
  function ReadLo(d: int, lo: int): int
  {
    if lo == Origin - d then lo + 1 else lo - 1
  }

  /** The last diagonal of round d - 1 that round d, up to hi, reads. */
  function ReadHi(d: int, hi: int): int
  {
    if hi == Origin + d then hi - 1 else hi + 1
  }

  /**
   * The rows found when round d starts, with lower = lo and upper = hi, for
   * chains of n1 and n2 lines: lo and hi lie inside round d and inside the
   * edit graph; the diagonals right of lo that round d reads end above the
   * last row and those left of hi left of the last column; and lo (hi) is at
   * the edge of the round unless the diagonal just outside it reached the
   * last row (column).
   */
  ghost predicate Rows(n1: int, n2: int, L: seq<int>, d: int, lo: int, hi: int)
  {
    n1 < MaxLines && n2 < MaxLines && |L| == NDiag && d >= 1 &&
    Origin - d <= lo <= hi <= Origin + d && Origin - n1 <= lo && hi <= Origin + n2 &&
    Par(lo, d) && Par(hi, d) &&
    Short(L, false, n1, lo + 1, ReadHi(d, hi)) &&
    Short(L, true, n2, ReadLo(d, lo), hi - 1) &&
    (lo == Origin - d || L[lo - 1] == n1) &&
    (hi == Origin + d || L[hi + 1] + (hi + 1) - Origin == n2)
  }

  /** The diagonals round d reads hold points of edit distance d - 1. */
  ghost predicate Paths<T>(s1: seq<T>, s2: seq<T>, func: (T, T) -> int, heap: map<nat, Node<T>>,
                           L: seq<int>, S: seq<Ptr>, d: int, lo: int, hi: int)
  {
    |L| == NDiag && |S| == NDiag && d >= 1 &&
    PathsOn(s1, s2, func, heap, L, S, d - 1, ReadLo(d, lo), ReadHi(d, hi))
  }

  /**
   * The state at the start of round d, with lower = lo and upper = hi: the
   * k loop of the round is about to visit lo, and has visited nothing.
   */
  ghost predicate Frontier<T>(s1: seq<T>, s2: seq<T>, func: (T, T) -> int, heap: map<nat, Node<T>>,
                              L: seq<int>, S: seq<Ptr>, d: int, lo: int, hi: int)
  {
    Visited(s1, s2, func, heap, L, S, d, lo, hi, lo)
  }

  /**
   * The bookkeeping of round d when the k loop, which started at lo and
   * runs to hi, is about to visit diagonal k: the visited diagonals from
   * lower on end above the last row, and lower has moved just past the last
   * one that did not; those before the one that set colHit end left of the
   * last column; colHit records that the last diagonal visited reached the
   * last column, but not the corner, which set upper and ends the loop.
   */
  ghost predicate Marks(n1: int, n2: int, L: seq<int>, d: int, lo: int, hi: int, k: int, lower: int, upper: int, colHit: bool)
  {
    |L| == NDiag && 1 <= lo && hi < NDiag - 1 && Par(k, d) && Par(lower, d) && lo <= k <= hi + 2 &&
    Short(L, false, n1, lower, k - 2) &&
    Short(L, true, n2, lo, if colHit then k - 4 else k - 2) &&
    (colHit ==> upper == k - 4 && lo + 2 <= k && L[k - 2] + (k - 2) - Origin == n2 && L[k - 2] < n1) &&
    (!colHit ==> upper == hi) &&
    (lower == lo || (lo + 2 <= lower <= k && L[lower - 2] == n1)) &&
    (lo > Origin - d && k > lo ==> lower >= lo + 2) &&
    (lo == Origin - n1 && k > lo ==> lower >= lo + 2) &&
    (!colHit && k > hi ==> hi == Origin + d && hi < Origin + n2) &&
    (k > lo ==> d < n1 + n2)
  }

  /**
   * lower once round d has visited lo, lo + 2, ..., k - 2: just past the
   * last of them that reached the last row n1, or lo if none did.
   */
  function LowerAt(L: seq<int>, n1: int, lo: int, k: int): int
    requires 0 <= lo && k <= |L| + 1
    decreases k - lo
  {
    if k < lo + 2 then lo else if L[k - 2] == n1 then k else LowerAt(L, n1, lo, k - 2)
  }

  /** upper at the same point: just below k - 2 if that diagonal reached the last column n2, else hi. */
  function UpperAt(L: seq<int>, n2: int, lo: int, hi: int, k: int): int
    requires 0 <= lo && k <= |L| + 1
  {
    if k >= lo + 2 && Coord(L, true, k - 2) == n2 then k - 4 else hi
  }

  /**
   * Round d's visit of diagonal j, in a round from lo to hi: the k loop
   * reached j (j is within hi and the diagonal before it stopped short of
   * the last column) and found there a point of edit distance d, at least
   * d steps from the origin, not the bottom right corner, and on the last
   * row (column) when the diagonal on its left (right) was.
   */
  ghost predicate VisitedOne<T>(s1: seq<T>, s2: seq<T>, func: (T, T) -> int, heap: map<nat, Node<T>>,
                                L: seq<int>, S: seq<Ptr>, d: int, lo: int, hi: int, j: int)
  {
    1 <= lo <= j <= hi && j + 1 < |L| && j < |S| && d >= 1 &&
    (j >= lo + 2 ==> Coord(L, true, j - 2) != |s2|) &&
    DiagOK(s1, s2, func, heap, L[j], S[j], j, d) &&
    L[j] + Coord(L, true, j) >= d &&
    (L[j] != |s1| || Coord(L, true, j) != |s2|) &&
    (j > Origin - d && L[j - 1] == |s1| ==> L[j] == |s1|) &&
    (j < Origin + d && Coord(L, true, j + 1) == |s2| ==> Coord(L, true, j) == |s2|)
  }

  /**
   * The state of round d, from lo to hi, when the k loop is about to visit
   * diagonal k: either k is lo and round d - 1 left the rows and paths
   * round d reads, or the loop has visited lo, lo + 2, ..., k - 2.
   */
  ghost predicate Visited<T>(s1: seq<T>, s2: seq<T>, func: (T, T) -> int, heap: map<nat, Node<T>>,
                             L: seq<int>, S: seq<Ptr>, d: int, lo: int, hi: int, k: int)
    decreases k - lo, 0
  {
    (k == lo && Rows(|s1|, |s2|, L, d, lo, hi) && Paths(s1, s2, func, heap, L, S, d, lo, hi)) ||
    (k > lo && VisitedThrough(s1, s2, func, heap, L, S, d, lo, hi, k - 2))
  }

  /** Round d, from lo to hi, has visited lo, lo + 2, ..., j. */
  ghost predicate VisitedThrough<T>(s1: seq<T>, s2: seq<T>, func: (T, T) -> int, heap: map<nat, Node<T>>,
                                    L: seq<int>, S: seq<Ptr>, d: int, lo: int, hi: int, j: int)
    decreases j - lo, 1
  {
    Visited(s1, s2, func, heap, L, S, d, lo, hi, j) && VisitedOne(s1, s2, func, heap, L, S, d, lo, hi, j)
  }

  /** The visits so far started from a frontier of round d, and k is the next diagonal of its parity. */
  lemma {:induction false} VisitedFrontier<T>(s1: seq<T>, s2: seq<T>, func: (T, T) -> int, heap: map<nat, Node<T>>,
                                              L: seq<int>, S: seq<Ptr>, d: int, lo: int, hi: int, k: int)
    requires Visited(s1, s2, func, heap, L, S, d, lo, hi, k)
    ensures Frontier(s1, s2, func, heap, L, S, d, lo, hi)
    ensures |L| == NDiag && |S| == NDiag && 1 <= lo <= k <= hi + 2 <= NDiag && Par(k, d)
    decreases k - lo
  {
    if k > lo {
      VisitedFrontier(s1, s2, func, heap, L, S, d, lo, hi, k - 2);
    }
  }

  /** The bookkeeping of lower and upper after the visits so far. */
  lemma {:induction false} VisitedMarks<T>(s1: seq<T>, s2: seq<T>, func: (T, T) -> int, heap: map<nat, Node<T>>,
                                           L: seq<int>, S: seq<Ptr>, d: int, lo: int, hi: int, k: int)
    requires Visited(s1, s2, func, heap, L, S, d, lo, hi, k)
    ensures 1 <= lo && k <= NDiag && |L| == NDiag
    ensures Marks(|s1|, |s2|, L, d, lo, hi, k, LowerAt(L, |s1|, lo, k), UpperAt(L, |s2|, lo, hi, k),
                  k >= lo + 2 && Coord(L, true, k - 2) == |s2|)
    decreases k - lo
  {
    VisitedFrontier(s1, s2, func, heap, L, S, d, lo, hi, k);
    if k > lo {
      VisitedMarks(s1, s2, func, heap, L, S, d, lo, hi, k - 2);
      MarksStep(|s1|, |s2|, L, d, lo, hi, k - 2, LowerAt(L, |s1|, lo, k - 2), UpperAt(L, |s2|, lo, hi, k - 2));
    }
  }

  /** The visited diagonals hold points of edit distance d. */
  lemma {:induction false} VisitedPaths<T>(s1: seq<T>, s2: seq<T>, func: (T, T) -> int, heap: map<nat, Node<T>>,
                                           L: seq<int>, S: seq<Ptr>, d: int, lo: int, hi: int, k: int)
    requires Visited(s1, s2, func, heap, L, S, d, lo, hi, k)
    ensures d >= 1 && PathsOn(s1, s2, func, heap, L, S, d, lo, k - 2)
    decreases k - lo
  {
    if k > lo {
      VisitedFrontier(s1, s2, func, heap, L, S, d, lo, hi, k - 2);
      VisitedPaths(s1, s2, func, heap, L, S, d, lo, hi, k - 2);
      ParDiff(lo, k - 2, d);
      PathsExtend(s1, s2, func, heap, L, S, d, lo, k - 4);
    }
  }

  /**
   * Setting diagonal c, at or beyond k and of the parity of round d, and
   * adding nodes to the heap keeps the visits up to k and what lower and
   * upper were.
   */
  lemma {:induction false} VisitedFrame<T>(s1: seq<T>, s2: seq<T>, func: (T, T) -> int,
                                           heap: map<nat, Node<T>>, heap': map<nat, Node<T>>,
                                           L: seq<int>, S: seq<Ptr>,
                                           L': seq<int>, S': seq<Ptr>,
                                           d: int, lo: int, hi: int, k: int, c: int)
    requires Visited(s1, s2, func, heap, L, S, d, lo, hi, k) && Grows(heap, heap')
    requires |L| == NDiag && |S| == NDiag && |L'| == NDiag && |S'| == NDiag && 0 <= c < NDiag && k <= c && Par(c, d)
    requires forall i :: 0 <= i < NDiag && i != c ==> L'[i] == L[i] && S'[i] == S[i]
    ensures Visited(s1, s2, func, heap', L', S', d, lo, hi, k)
    ensures 1 <= lo <= k < NDiag
    ensures LowerAt(L', |s1|, lo, k) == LowerAt(L, |s1|, lo, k) && UpperAt(L', |s2|, lo, hi, k) == UpperAt(L, |s2|, lo, hi, k)
    decreases k - lo
  {
    if k <= lo {
      assert L' == L[c := L'[c]];
      RowsKeep(|s1|, |s2|, L, L', d, lo, hi, c, L'[c]);
      PathsKeep(s1, s2, func, heap, heap', L, S, L', S', d, lo, hi, c);
    } else {
      VisitedFrame(s1, s2, func, heap, heap', L, S, L', S', d, lo, hi, k - 2, c);
      VisitedOneFrame(s1, s2, func, heap, heap', L, S, L', S', d, lo, hi, k - 2, c);
    }
  }

  /** The visit of diagonal j survives setting a diagonal c beyond j + 1 and adding nodes to the heap. */
  lemma VisitedOneFrame<T>(s1: seq<T>, s2: seq<T>, func: (T, T) -> int,
                           heap: map<nat, Node<T>>, heap': map<nat, Node<T>>,
                           L: seq<int>, S: seq<Ptr>, L': seq<int>, S': seq<Ptr>,
                           d: int, lo: int, hi: int, j: int, c: int)
    requires VisitedOne(s1, s2, func, heap, L, S, d, lo, hi, j) && Grows(heap, heap')
    requires |L| == NDiag && |S| == NDiag && |L'| == NDiag && |S'| == NDiag && j + 1 < c < NDiag
    requires forall i :: 0 <= i < NDiag && i != c ==> L'[i] == L[i] && S'[i] == S[i]
    ensures VisitedOne(s1, s2, func, heap', L', S', d, lo, hi, j)
  {
    DiagOKGrows(s1, s2, func, heap, heap', L[j], S[j], j, d);
  }

  /** Setting diagonal k of round d leaves the rows round d reads as they were. */
  lemma RowsKeep(n1: int, n2: int, L: seq<int>, L': seq<int>, d: int, lo: int, hi: int, k: int, row: int)
    requires Rows(n1, n2, L, d, lo, hi) && Par(k, d) && 0 <= k < NDiag && L' == L[k := row]
    ensures Rows(n1, n2, L', d, lo, hi)
  {
    ParDiff(lo, k, d);
    ParDiff(hi, k, d);
    ShortFrame(L, L', false, n1, lo + 1, ReadHi(d, hi), k);
    ShortFrame(L, L', true, n2, ReadLo(d, lo), hi - 1, k);
  }

  /** The diagonals of round d - 1 are neither touched nor lost by setting diagonal k of round d. */
  lemma PathsKeep<T>(s1: seq<T>, s2: seq<T>, func: (T, T) -> int, heap: map<nat, Node<T>>, heap': map<nat, Node<T>>,
                     L: seq<int>, S: seq<Ptr>, L': seq<int>, S': seq<Ptr>,
                     d: int, lo: int, hi: int, k: int)
    requires Paths(s1, s2, func, heap, L, S, d, lo, hi) && Par(lo, d) && Par(k, d)
    requires Grows(heap, heap') && |L'| == NDiag && |S'| == NDiag
    requires forall j :: 0 <= j < NDiag && j != k ==> L'[j] == L[j] && S'[j] == S[j]
    ensures Paths(s1, s2, func, heap', L', S', d, lo, hi)
  {
    ParDiff(lo, k, d);
    PathsFrame(s1, s2, func, heap, heap', L, S, L', S', d - 1, ReadLo(d, lo), ReadHi(d, hi), k);
  }

  /** The bookkeeping of one turn of the k loop, visiting diagonal k. */
  lemma MarksStep(n1: int, n2: int, L: seq<int>, d: int, lo: int, hi: int, k: int, lower: int, upper: int)
    requires Marks(n1, n2, L, d, lo, hi, k, lower, upper, false) && k <= upper
    requires Origin - d <= lo && hi <= Origin + d && Par(lo, d) && Par(hi, d)
    requires lo == Origin - d || L[lo - 1] == n1
    requires hi == Origin + d || Coord(L, true, hi + 1) == n2
    requires k + 1 < |L| && 0 <= L[k] <= n1 && 0 <= Coord(L, true, k) <= n2 && L[k] + Coord(L, true, k) >= d
    requires L[k] != n1 || Coord(L, true, k) != n2
    requires k > Origin - d && L[k - 1] == n1 ==> L[k] == n1
    requires k < Origin + d && Coord(L, true, k + 1) == n2 ==> Coord(L, true, k) == n2
    ensures Marks(n1, n2, L, d, lo, hi, k + 2, if L[k] == n1 then k + 2 else lower,
                  if Coord(L, true, k) == n2 then k - 2 else upper, Coord(L, true, k) == n2)
  {
    ParDiff(lo, k, d);
    ParDiff(lower, k, d);
    ParDiff(hi, k, d);
    if L[k] != n1 {
      ShortExtend(L, false, n1, lower, k - 2);
    }
    if Coord(L, true, k) != n2 {
      ShortExtend(L, true, n2, lo, k - 2);
    }
  }

  /**
   * When the k loop ends without reaching the corner, lower - 1 and
   * upper + 1 bound round d + 1, and d is still short of |s1| + |s2|.
   */
  lemma VisitEnd<T>(s1: seq<T>, s2: seq<T>, func: (T, T) -> int, heap: map<nat, Node<T>>,
                    L: seq<int>, S: seq<Ptr>, d: int, lo: int, hi: int, k: int)
    requires Visited(s1, s2, func, heap, L, S, d, lo, hi, k) && 1 <= lo && k <= NDiag && |L| == NDiag
    requires k > UpperAt(L, |s2|, lo, hi, k)
    ensures d < |s1| + |s2|
    ensures Frontier(s1, s2, func, heap, L, S, d + 1, LowerAt(L, |s1|, lo, k) - 1, UpperAt(L, |s2|, lo, hi, k) + 1)
  {
    var lower, upper := LowerAt(L, |s1|, lo, k), UpperAt(L, |s2|, lo, hi, k);
    VisitEndRows(s1, s2, func, heap, L, S, d, lo, hi, k);
    VisitedPaths(s1, s2, func, heap, L, S, d, lo, hi, k);
    PathsDrop(s1, s2, func, heap, L, S, d, lo, ReadLo(d + 1, lower - 1), k - 2);
  }

  /** The rows half of VisitEnd. */
  lemma VisitEndRows<T>(s1: seq<T>, s2: seq<T>, func: (T, T) -> int, heap: map<nat, Node<T>>,
                        L: seq<int>, S: seq<Ptr>, d: int, lo: int, hi: int, k: int)
    requires Visited(s1, s2, func, heap, L, S, d, lo, hi, k) && 1 <= lo && k <= NDiag && |L| == NDiag
    requires k > UpperAt(L, |s2|, lo, hi, k)
    ensures d < |s1| + |s2| && |L| == NDiag && |S| == NDiag
    ensures Rows(|s1|, |s2|, L, d + 1, LowerAt(L, |s1|, lo, k) - 1, UpperAt(L, |s2|, lo, hi, k) + 1)
    ensures lo <= ReadLo(d + 1, LowerAt(L, |s1|, lo, k) - 1) && (ReadLo(d + 1, LowerAt(L, |s1|, lo, k) - 1) - lo) % 2 == 0
    ensures ReadHi(d + 1, UpperAt(L, |s2|, lo, hi, k) + 1) == k - 2
  {
    VisitedFrontier(s1, s2, func, heap, L, S, d, lo, hi, k);
    VisitedMarks(s1, s2, func, heap, L, S, d, lo, hi, k);
    var lower, upper := LowerAt(L, |s1|, lo, k), UpperAt(L, |s2|, lo, hi, k);
    RowsEnd(|s1|, |s2|, L, d, lo, hi, k, lower, upper, k >= lo + 2 && Coord(L, true, k - 2) == |s2|);
  }

  /**
   * The rows of round d + 1; the diagonals it reads are among those round d
   * visited, from lo to k - 2.
   */
  lemma RowsEnd(n1: int, n2: int, L: seq<int>, d: int, lo: int, hi: int, k: int, lower: int, upper: int, colHit: bool)
    requires Rows(n1, n2, L, d, lo, hi) && Marks(n1, n2, L, d, lo, hi, k, lower, upper, colHit) && k > upper
    ensures d < n1 + n2 && Rows(n1, n2, L, d + 1, lower - 1, upper + 1)
    ensures lo <= ReadLo(d + 1, lower - 1) && (ReadLo(d + 1, lower - 1) - lo) % 2 == 0
    ensures ReadHi(d + 1, upper + 1) == k - 2
  {
    ParDiff(lower, k, d);
    ParDiff(hi, k, d);
    NextParity(d, lo, hi, k, lower, upper);
    assert (if colHit then k - 4 else k - 2) == upper;
    ShortDrop(L, true, n2, lo, ReadLo(d + 1, lower - 1), upper);
  }

  /** The bounds of round d + 1 have its parity, and it reads diagonals of the parity of round d. */
  lemma NextParity(d: int, lo: int, hi: int, k: int, lower: int, upper: int)
    requires Par(lo, d) && Par(hi, d) && Par(k, d) && Par(lower, d) && (upper == k - 4 || upper == hi)
    ensures Par(lower - 1, d + 1) && Par(upper + 1, d + 1)
    ensures (ReadLo(d + 1, lower - 1) - lo) % 2 == 0
  {
    ParDiff(lo, lower, d);
  }

  /** Step can read the neighbours of diagonal k: they are diagonals of round d - 1 that round d reads. */
  lemma NeighboursOK<T>(s1: seq<T>, s2: seq<T>, func: (T, T) -> int, heap: map<nat, Node<T>>,
                        L: seq<int>, S: seq<Ptr>, d: int, lo: int, hi: int, k: int)
    requires Visited(s1, s2, func, heap, L, S, d, lo, hi, k) && 1 <= lo && k <= NDiag && |L| == NDiag
    requires k <= UpperAt(L, |s2|, lo, hi, k)
    ensures |L| == NDiag && |S| == NDiag
    ensures 1 <= k < NDiag - 1 && Origin - d <= k <= Origin + d && k <= hi && d >= 1 && Par(k, d)
    ensures k > Origin - d ==>
      DiagOK(s1, s2, func, heap, L[k - 1], S[k - 1], k - 1, d - 1) && L[k - 1] + (k - 1) - Origin < |s2|
    ensures k < Origin + d ==>
      DiagOK(s1, s2, func, heap, L[k + 1], S[k + 1], k + 1, d - 1) && L[k + 1] < |s1|
  {
    VisitedFrontier(s1, s2, func, heap, L, S, d, lo, hi, k);
    ReadParity(d, lo, hi, k);
    if k > Origin - d {
      NeighbourLeft(s1, s2, func, heap, L, S, d, lo, hi, k);
    }
    if k < Origin + d {
      NeighbourRight(s1, s2, func, heap, L, S, d, lo, hi, k);
    }
  }

  /** The diagonals next to k, of the other parity, are an odd distance from the bounds of round d. */
  lemma ReadParity(d: int, lo: int, hi: int, k: int)
    requires Par(lo, d) && Par(hi, d) && Par(k, d)
    ensures (k - 1 - ReadLo(d, lo)) % 2 == 0 && (hi - 1 - (k - 1)) % 2 == 0
    ensures (k + 1 - (lo + 1)) % 2 == 0 && (ReadHi(d, hi) - (k + 1)) % 2 == 0
  {
    ParDiff(lo, k, d);
    ParDiff(k, hi, d);
  }

  /** Diagonal k - 1, which round d reads, holds a point of round d - 1 left of the last column. */
  lemma NeighbourLeft<T>(s1: seq<T>, s2: seq<T>, func: (T, T) -> int, heap: map<nat, Node<T>>,
                         L: seq<int>, S: seq<Ptr>, d: int, lo: int, hi: int, k: int)
    requires Frontier(s1, s2, func, heap, L, S, d, lo, hi) && lo <= k <= hi && k > Origin - d
    requires (k - 1 - ReadLo(d, lo)) % 2 == 0 && (hi - 1 - (k - 1)) % 2 == 0
    ensures 0 <= k - 1 < |L| && k - 1 < |S| && d >= 1
    ensures DiagOK(s1, s2, func, heap, L[k - 1], S[k - 1], k - 1, d - 1) && L[k - 1] + (k - 1) - Origin < |s2|
  {
    PathsAt(s1, s2, func, heap, L, S, d - 1, ReadLo(d, lo), k - 1, ReadHi(d, hi));
    ShortAt(L, true, |s2|, ReadLo(d, lo), k - 1, hi - 1);
  }

  /** Diagonal k + 1, which round d reads, holds a point of round d - 1 above the last row. */
  lemma NeighbourRight<T>(s1: seq<T>, s2: seq<T>, func: (T, T) -> int, heap: map<nat, Node<T>>,
                          L: seq<int>, S: seq<Ptr>, d: int, lo: int, hi: int, k: int)
    requires Frontier(s1, s2, func, heap, L, S, d, lo, hi) && lo <= k <= hi && k < Origin + d
    requires (k + 1 - (lo + 1)) % 2 == 0 && (ReadHi(d, hi) - (k + 1)) % 2 == 0
    ensures 0 <= k + 1 < |L| && k + 1 < |S| && d >= 1
    ensures DiagOK(s1, s2, func, heap, L[k + 1], S[k + 1], k + 1, d - 1) && L[k + 1] < |s1|
  {
    PathsAt(s1, s2, func, heap, L, S, d - 1, ReadLo(d, lo), k + 1, ReadHi(d, hi));
    ShortAt(L, false, |s1|, lo + 1, k + 1, ReadHi(d, hi));
  }

  /** Round 1 starts from the slide along diagonal 0, with an empty path. */
  lemma StartFrontier<T>(s1: seq<T>, s2: seq<T>, func: (T, T) -> int, heap: map<nat, Node<T>>,
                         L: seq<int>, S: seq<Ptr>, row: int, lo: int, hi: int)
    requires |s1| < MaxLines && |s2| < MaxLines && |L| == NDiag && |S| == NDiag
    requires L[Origin] == row && S[Origin] == Null
    requires Snake(s1, s2, func, 0, 0, row) && (row == |s1| || row == |s2| || func(s1[row], s2[row]) != 0)
    requires lo == (if row == |s1| then Origin + 1 else Origin - 1)
    requires hi == (if row == |s2| then Origin - 1 else Origin + 1)
    requires lo <= hi
    ensures Frontier(s1, s2, func, heap, L, S, 1, lo, hi)
    ensures !AllEqual(s1, s2, func)
  {
    assert DiagOK(s1, s2, func, heap, L[Origin], S[Origin], Origin, 0);
    assert PathsOn(s1, s2, func, heap, L, S, 0, Origin + 2, Origin);
    assert Short(L, false, |s1|, Origin + 2, Origin) && Short(L, true, |s2|, Origin + 2, Origin);
    assert Short(L, true, |s2|, Origin, Origin - 2);
  }

  /** Every move of a path can be resolved by chain_prepare. */
  lemma PathReadable<T>(s1: seq<T>, s2: seq<T>, func: (T, T) -> int, moves: seq<Move>, r: int, c: int)
    requires PathTo(s1, s2, func, moves, r, c)
    ensures forall i :: 0 <= i < |moves| ==> Readable(moves[i], |s1|, |s2|)
  {
    PathInBounds(s1, s2, func, moves, r, c);
  }

  /** chain_prepare can resolve the line a move refers to: a deleted line of the first chain, an inserted one of the second. */
  predicate Readable(m: Move, n1: int, n2: int)
  {
    (m.op == Delete ==> 1 <= m.row <= n1) && (m.op == Insert ==> 1 <= m.col <= n2)
  }

  /** A prepared node points at the element its move deletes or inserts. */
  ghost predicate Resolved<T>(node: Node<T>, s1: seq<T>, s2: seq<T>)
  {
    (node.op == Delete ==> 1 <= node.line1 <= |s1| && node.ptr1 == Some(s1[node.line1 - 1])) &&
    (node.op == Insert ==> 1 <= node.line2 <= |s2| && node.ptr2 == Some(s2[node.line2 - 1]))
  }

  ghost predicate AllResolved<T>(nodes: seq<Node<T>>, s1: seq<T>, s2: seq<T>)
  {
    forall i :: 0 <= i < |nodes| ==> Resolved(nodes[i], s1, s2)
  }

  /**
   * What a successful shChainDiff returns: for equal chains the one IDENTICAL
   * node; otherwise a list of count nodes, in order, whose moves lead from
   * the start of both chains to their ends, each pointing at its element.
   */
  ghost predicate Answer<T>(heap: map<nat, Node<T>>, r: Ptr, count: nat, s1: seq<T>, s2: seq<T>, func: (T, T) -> int)
  {
    IsChain(heap, r, count) && count >= 1 &&
    if AllEqual(s1, s2, func) then count == 1 && heap[r.id].op == Identical
    else
      var nodes := Walk(heap, r, count);
      PathTo(s1, s2, func, MovesOf(nodes), |s1|, |s2|) && AllResolved(nodes, s1, s2)
  }

  /**
   * shChainDiff gets as far as the search: both chains are given, they hold
   * the same type, and each is shorter than MAXLINES.
   */
  predicate Diffable<T>(l1: Option<Chain<T>>, l2: Option<Chain<T>>)
  {
    l1.Some? && l2.Some? && l1.value.ctype == l2.value.ctype &&
    |l1.value.elems| < MaxLines && |l2.value.elems| < MaxLines
  }

  /**
   * What an answer means: applying its deletions and insertions to the
   * first chain gives a sequence the comparison function matches line by
   * line with the second; the script has count edits, |s1| - |s2| more
   * deletions than insertions.
   */
  lemma AnswerReplays<T>(heap: map<nat, Node<T>>, r: Ptr, count: nat, s1: seq<T>, s2: seq<T>, func: (T, T) -> int)
    requires Answer(heap, r, count, s1, s2, func) && !AllEqual(s1, s2, func)
    ensures var moves := MovesOf(Walk(heap, r, count));
      PathTo(s1, s2, func, moves, |s1|, |s2|) &&
      |moves| == count &&
      Matches(func, Replay(s1, s2, func, moves, |s1|, |s2|), s2) &&
      CountOp(moves, Delete) - CountOp(moves, Insert) == |s1| - |s2| &&
      CountOp(moves, Delete) + CountOp(moves, Insert) == count
  {
    var moves := MovesOf(Walk(heap, r, count));
    ReplayMatches(s1, s2, func, moves, |s1|, |s2|);
    PathBalance(s1, s2, func, moves, |s1|, |s2|);
    assert s2[..|s2|] == s2;
  }

  class DiffSession<T(0)> {
    /** The static element arrays (NULL until the first diff), MAXLINES slots each. */
    var chain1: array?<T>
    var chain2: array?<T>
    /** The head of the list of all EDIT nodes, threaded through memchain. */
    var membase: Ptr
    /** The EDIT nodes currently allocated. */
    var heap: map<nat, Node<T>>
    /** The address the allocator returns next; addresses are never reused. */
    var next: nat
    /** The address of the first node allocated since the last free. */
    ghost var base: nat

    ghost predicate Valid()
      reads this, chain1, chain2
    {
      ArenaOK(heap, membase, base, next) &&
      (chain1 != null ==> chain1.Length == MaxLines) &&
      (chain2 != null ==> chain2.Length == MaxLines) &&
      (chain1 != null && chain2 != null ==> chain1 != chain2)
    }

    /** The state before any diff, and after shChainDiffFree: nothing allocated. */
    ghost predicate Clear()
      reads this
    {
      chain1 == null && chain2 == null && membase == Null && heap == map[]
    }

    constructor ()
      ensures Valid() && Clear()
    {
      chain1 := null;
      chain2 := null;
      membase := Null;
      heap := map[];
      next := 0;
      base := 0;
    }

    /**
     * free_script(ptr), which is always passed membase: walk the memchain
     * list from ptr, freeing each node. Every allocated node is freed.
     */
    method FreeScript(ptr: Ptr)
      requires Valid() && ptr == membase
      modifies this
      ensures heap == map[]
      ensures chain1 == old(chain1) && chain2 == old(chain2) && membase == old(membase)
      ensures next == old(next) && base == old(base)
    {
      var p := ptr;
      while p != Null
        invariant chain1 == old(chain1) && chain2 == old(chain2) && membase == old(membase)
        invariant next == old(next) && base == old(base)
        invariant p.At? ==> base <= p.id < next
        invariant forall x :: x in heap <==> base <= x < (if p == Null then base else p.id + 1)
        invariant forall x :: x in heap ==> heap[x] == old(heap[x])
        decreases if p == Null then 0 else p.id + 1
      {
        var tmp := heap[p.id].memchain;
        heap := heap - {p.id};
        p := tmp;
      }
    }

    /**
     * shChainDiffFree: free the element arrays and every EDIT node and set
     * the three statics to NULL. Calling it again changes nothing.
     */
    method ShChainDiffFree()
      requires Valid()
      modifies this
      ensures Valid() && Clear()
      ensures next == old(next)
    {
      chain1 := null;
      chain2 := null;
      FreeScript(membase);
      membase := Null;
      base := next;
    }

    /**
     * shChainDiff: free the script of the last diff, refuse a missing chain,
     * chains of different types or a chain of MAXLINES or more elements,
     * allocate the element arrays on first use, copy both chains in and
     * search with max_d, or n1 + n2 when max_d is negative.
     */
    method ShChainDiff(l1: Option<Chain<T>>, l2: Option<Chain<T>>, func: (T, T) -> int, maxD: int)
      returns (r: Ptr, ghost count: nat)
      requires Valid()
      modifies this, chain1, chain2
      ensures Valid()
      ensures !Diffable(l1, l2) ==> r == Null && heap == map[] && membase == Null
      ensures Diffable(l1, l2) ==>
        var s1, s2 := l1.value.elems, l2.value.elems;
        var maxd := if maxD < 0 then |s1| + |s2| else maxD;
        (r == Null ==> Clear() && !AllEqual(s1, s2, func) && 0 <= maxD < |s1| + |s2|) &&
        (r != Null ==> Answer(heap, r, count, s1, s2, func) && (!AllEqual(s1, s2, func) ==> count <= maxd))
      ensures forall x :: x in heap ==> x >= old(next)
      ensures forall x :: x in old(heap) ==> x !in heap
    {
      if membase != Null {
        FreeScript(membase);
        membase := Null;
        base := next;
      }
      if l1.None? || l2.None? || l1.value.ctype != l2.value.ctype {
        return Null, 0;
      }
      r, count := Compare(l1.value.elems, l2.value.elems, func, maxD);
    }

    /**
     * The rest of shChainDiff, once both chains are known to be of one
     * type: allocate the element arrays on first use, copy the chains in,
     * refuse a chain of MAXLINES or more elements, and search.
     */
    method Compare(s1: seq<T>, s2: seq<T>, func: (T, T) -> int, maxD: int) returns (r: Ptr, ghost count: nat)
      requires Valid() && membase == Null
      modifies this, chain1, chain2
      ensures Valid()
      ensures (|s1| >= MaxLines || |s2| >= MaxLines) ==> r == Null && heap == map[] && membase == Null
      ensures |s1| < MaxLines && |s2| < MaxLines ==>
        var maxd := if maxD < 0 then |s1| + |s2| else maxD;
        (r == Null ==> Clear() && !AllEqual(s1, s2, func) && 0 <= maxD < |s1| + |s2|) &&
        (r != Null ==> Answer(heap, r, count, s1, s2, func) && (!AllEqual(s1, s2, func) ==> count <= maxd))
      ensures old(base) <= base
    {
      if chain1 == null {
        chain1 := new T[MaxLines];
      }
      if chain2 == null {
        chain2 := new T[MaxLines];
      }
      var n1 := ChainToArray(s1, chain1, MaxLines);
      var n2 := ChainToArray(s2, chain2, MaxLines);
      if n1 < 0 || n2 < 0 {
        return Null, 0;
      }
      var maxd := if maxD < 0 then n1 + n2 else maxD;
      r, count := Search(n1, n2, func, maxd, s1, s2);
    }

    /**
     * chain_to_array with the elements stored from slot 0, as shChainDiff
     * reads them: a chain of `size` or more elements is refused (-1) and
     * leaves the array as it was; otherwise element i goes to arr[i] and the
     * count is returned.
     */
    static method ChainToArray(l: seq<T>, arr: array<T>, size: int) returns (n: int)
      requires arr.Length == size
      modifies arr
      ensures |l| >= size ==> n == -1 && arr[..] == old(arr[..])
      ensures |l| < size ==> n == |l| && arr[..n] == l && arr[n..] == old(arr[n..])
    {
      if |l| >= size {
        return -1;
      }
      var i := 0;
      while i < |l|
        invariant 0 <= i <= |l|
        invariant arr[..i] == l[..i] && arr[i..] == old(arr[i..])
      {
        arr[i] := l[i];
        i := i + 1;
      }
      return i;
    }

    /**
     * chain_to_array as written: element i is stored in arr[i + 1], one slot
     * further than the diff and chain_prepare read it.
     */
    static method ChainToArrayAsWritten(l: seq<T>, arr: array<T>, size: int) returns (n: int)
      requires arr.Length == size
      modifies arr
      ensures |l| >= size ==> n == -1 && arr[..] == old(arr[..])
      ensures |l| < size ==> n == |l| && arr[1..n + 1] == l && arr[0] == old(arr[0]) && arr[n + 1..] == old(arr[n + 1..])
    {
      if |l| >= size {
        return -1;
      }
      var i := 0;
      while i < |l|
        invariant 0 <= i <= |l|
        invariant arr[1..i + 1] == l[..i] && arr[0] == old(arr[0]) && arr[i + 1..] == old(arr[i + 1..])
      {
        arr[i + 1] := l[i];
        i := i + 1;
      }
      return i;
    }

    /**
     * The `while` that slides down a diagonal: from (row, col), step while
     * both lines exist and the comparison function calls them equal.
     */
    static method Slide(a1: array<T>, a2: array<T>, n1: int, n2: int, func: (T, T) -> int, row: int, col: int)
      returns (row': int, col': int)
      requires 0 <= n1 <= a1.Length && 0 <= n2 <= a2.Length
      requires 0 <= row <= n1 && 0 <= col <= n2
      ensures Snake(a1[..n1], a2[..n2], func, row, col, row' - row) && row' - row == col' - col
      ensures row' == n1 || col' == n2 || func(a1[row'], a2[col']) != 0
    {
      row', col' := row, col;
      while row' < n1 && col' < n2 && func(a1[row'], a2[col']) == 0
        invariant row <= row' <= n1 && col' <= n2 && row' - row == col' - col
        invariant Snake(a1[..n1], a2[..n2], func, row, col, row' - row)
      {
        row', col' := row' + 1, col' + 1;
      }
    }
    /**
     * The choice between the two neighbouring diagonals: down from k+1 (a
     * deletion) on the left edge of round d, or when it reaches at least as
     * far a row as moving right from k-1 (an insertion), which is the only
     * choice on the right edge.
     */
    static method Choose(lastD: array<int>, k: int, d: int) returns (row0: int, from: int, op: Op)
      requires lastD.Length == NDiag && 1 <= k < NDiag - 1 && 1 <= d
      ensures from == k + 1 ==> op == Delete && row0 == lastD[k + 1] + 1
      ensures from == k - 1 ==> op == Insert && row0 == lastD[k - 1]
      ensures from == k + 1 || from == k - 1
      ensures k == Origin - d ==> from == k + 1
      ensures k == Origin + d ==> from == k - 1
      ensures k != Origin - d && k != Origin + d ==> (from == k + 1 <==> lastD[k + 1] >= lastD[k - 1])
    {
      if k == Origin - d || (k != Origin + d && lastD[k + 1] >= lastD[k - 1]) {
        row0, from, op := lastD[k + 1] + 1, k + 1, Delete;
      } else {
        row0, from, op := lastD[k - 1], k - 1, Insert;
      }
    }

    /** shMalloc of an EDIT node, pushed on the membase list through its memchain. */
    method AddNode(node: Node<T>) returns (id: nat)
      requires ArenaOK(heap, membase, base, next) && node.memchain == membase
      modifies this
      ensures ArenaOK(heap, membase, base, next)
      ensures id == old(next) && next == old(next) + 1 && heap == old(heap)[id := node]
      ensures Grows(old(heap), heap) && forall x :: x in old(heap) ==> x < id
      ensures chain1 == old(chain1) && chain2 == old(chain2) && base == old(base)
    {
      id := next;
      ArenaAlloc(heap, membase, base, next, node);
      heap := heap[id := node];
      membase := At(id);
      next := next + 1;
    }

    /**
     * One turn of the k loop: reach diagonal k with one more edit, moving
     * down from diagonal k+1 (a deletion) when that is the only way or gets
     * at least as far, and right from diagonal k-1 (an insertion) otherwise;
     * allocate the EDIT node for that move, slide down the diagonal and
     * record how far it got.
     */
    method Step(a1: array<T>, a2: array<T>, n1: int, n2: int, func: (T, T) -> int,
                lastD: array<int>, script: array<Ptr>, k: int, d: int,
                ghost s1: seq<T>, ghost s2: seq<T>)
      returns (row: int, col: int)
      requires ArenaOK(heap, membase, base, next)
      requires 0 <= n1 <= a1.Length && 0 <= n2 <= a2.Length && a1[..n1] == s1 && a2[..n2] == s2
      requires lastD.Length == NDiag && script.Length == NDiag
      requires a1 as object != script && a2 as object != script && a1 as object != lastD && a2 as object != lastD
      requires 1 <= d && Origin - d <= k <= Origin + d && 1 <= k < NDiag - 1
      requires k > Origin - d ==>
        DiagOK(s1, s2, func, heap, lastD[k - 1], script[k - 1], k - 1, d - 1) &&
        lastD[k - 1] + (k - 1) - Origin < n2
      requires k < Origin + d ==>
        DiagOK(s1, s2, func, heap, lastD[k + 1], script[k + 1], k + 1, d - 1) &&
        lastD[k + 1] < n1
      modifies this, lastD, script
      ensures ArenaOK(heap, membase, base, next) && chain1 == old(chain1) && chain2 == old(chain2) && base == old(base)
      ensures next == old(next) + 1 && Grows(old(heap), heap)
      ensures lastD[k] == row && script[k] == At(old(next))
      ensures forall j :: 0 <= j < NDiag && j != k ==> lastD[j] == old(lastD[j]) && script[j] == old(script[j])
      ensures col == row + k - Origin && row + col >= d
      ensures DiagOK(s1, s2, func, heap, row, At(old(next)), k, d)
      ensures k > Origin - d && old(lastD[k - 1]) == n1 ==> row == n1
      ensures k < Origin + d && old(lastD[k + 1]) + (k + 1) - Origin == n2 ==> col == n2
    {
      ghost var lm, lp, sm, sp, heap0 := lastD[k - 1], lastD[k + 1], script[k - 1], script[k + 1], heap;
      var row0, from, op := Choose(lastD, k, d);
      var col0 := row0 + k - Origin;
      var node := Node(op, row0, col0, None, None, script[from], membase);
      NodeInGraph(s1, s2, func, heap0, node, lm, lp, sm, sp, k, d);
      var id := AddNode(node);
      script[k] := At(id);
      row, col := Slide(a1, a2, n1, n2, func, row0, col0);
      lastD[k] := row;
      StepFacts(s1, s2, func, heap0, heap, id, node, lm, lp, sm, sp, k, d, row, col);
    }
    /**
     * One round of the d loop, the k loop from lower = lo to upper = hi:
     * visit each diagonal of parity d with Step, stopping at the bottom
     * right corner; lower moves past diagonals that reached the last row,
     * upper stops the loop below one that reached the last column.
     */
    method Round(a1: array<T>, a2: array<T>, n1: int, n2: int, func: (T, T) -> int,
                 lastD: array<int>, script: array<Ptr>, d: int, lo: int, hi: int,
                 ghost s1: seq<T>, ghost s2: seq<T>, ghost L: seq<int>, ghost S: seq<Ptr>)
      returns (found: bool, k: int, lower: int, upper: int, ghost L': seq<int>, ghost S': seq<Ptr>)
      requires ArenaOK(heap, membase, base, next)
      requires 0 <= n1 <= a1.Length && 0 <= n2 <= a2.Length && a1[..n1] == s1 && a2[..n2] == s2
      requires lastD.Length == NDiag && script.Length == NDiag && lastD[..] == L && script[..] == S
      requires a1 as object != script && a2 as object != script && a1 as object != lastD && a2 as object != lastD
      requires Frontier(s1, s2, func, heap, L, S, d, lo, hi)
      modifies this, lastD, script
      ensures ArenaOK(heap, membase, base, next) && chain1 == old(chain1) && chain2 == old(chain2) && base == old(base)
      ensures lastD[..] == L' && script[..] == S'
      ensures found ==> (0 <= k < NDiag && |L'| == NDiag && |S'| == NDiag && d >= 1 &&
        L'[k] == n1 && L'[k] + k - Origin == n2 && DiagOK(s1, s2, func, heap, L'[k], S'[k], k, d))
      ensures !found ==> d < n1 + n2 && Frontier(s1, s2, func, heap, L', S', d + 1, lower - 1, upper + 1)
    {
      k, lower, upper, L', S' := lo, lo, hi, L, S;
      while k <= upper
        invariant ArenaOK(heap, membase, base, next) && chain1 == old(chain1) && chain2 == old(chain2) && base == old(base)
        invariant lastD[..] == L' && script[..] == S'
        invariant Visited(s1, s2, func, heap, L', S', d, lo, hi, k) && 1 <= lo <= k <= NDiag
        invariant lower == LowerAt(L', n1, lo, k) && upper == UpperAt(L', n2, lo, hi, k)
        decreases hi + 2 - k
      {
        found, lower, upper, L', S' := Visit(a1, a2, n1, n2, func, lastD, script, d, lo, hi, k, lower, upper, s1, s2, L', S');
        if found {
          return;
        }
        k := k + 2;
      }
      VisitEnd(s1, s2, func, heap, L', S', d, lo, hi, k);
      found := false;
    }

    /**
     * The body of the k loop: Step to diagonal k; stop at the bottom right
     * corner; otherwise move lower past k if it reached the last row, and
     * upper below k if it reached the last column.
     */
    method Visit(a1: array<T>, a2: array<T>, n1: int, n2: int, func: (T, T) -> int,
                 lastD: array<int>, script: array<Ptr>, d: int, lo: int, hi: int, k: int, lower: int, upper: int,
                 ghost s1: seq<T>, ghost s2: seq<T>, ghost L: seq<int>, ghost S: seq<Ptr>)
      returns (found: bool, lower': int, upper': int, ghost L': seq<int>, ghost S': seq<Ptr>)
      requires ArenaOK(heap, membase, base, next)
      requires 0 <= n1 <= a1.Length && 0 <= n2 <= a2.Length && a1[..n1] == s1 && a2[..n2] == s2
      requires lastD.Length == NDiag && script.Length == NDiag && lastD[..] == L && script[..] == S
      requires a1 as object != script && a2 as object != script && a1 as object != lastD && a2 as object != lastD
      requires Visited(s1, s2, func, heap, L, S, d, lo, hi, k) && 1 <= lo <= k <= NDiag
      requires lower == LowerAt(L, n1, lo, k) && upper == UpperAt(L, n2, lo, hi, k) && k <= upper
      modifies this, lastD, script
      ensures ArenaOK(heap, membase, base, next) && chain1 == old(chain1) && chain2 == old(chain2) && base == old(base)
      ensures lastD[..] == L' && script[..] == S'
      ensures found ==> (0 <= k < NDiag && |L'| == NDiag && |S'| == NDiag && d >= 1 &&
        L'[k] == n1 && L'[k] + k - Origin == n2 && DiagOK(s1, s2, func, heap, L'[k], S'[k], k, d))
      ensures !found ==> (Visited(s1, s2, func, heap, L', S', d, lo, hi, k + 2) && k + 2 <= NDiag &&
        lower' == LowerAt(L', n1, lo, k + 2) && upper' == UpperAt(L', n2, lo, hi, k + 2))
    {
      ghost var heap0 := heap;
      NeighboursOK(s1, s2, func, heap, L, S, d, lo, hi, k);
      var row, col;
      row, col := Step(a1, a2, n1, n2, func, lastD, script, k, d, s1, s2);
      L', S' := L[k := row], S[k := script[k]];
      assert lastD[..] == L' && script[..] == S';
      if row == n1 && col == n2 {
        return true, lower, upper, L', S';
      }
      VisitedFrame(s1, s2, func, heap0, heap, L, S, L', S', d, lo, hi, k, k);
      found := false;
      lower' := if row == n1 then k + 2 else lower;
      upper' := if col == n2 then k - 2 else upper;
    }

    /**
     * The search of shChainDiff once the chains are in chain1 and chain2:
     * slide from the origin; if that reaches the end of both chains they are
     * equal and the answer is a single IDENTICAL node; otherwise run rounds
     * d = 1, 2, ... up to max_d until one reaches the bottom right corner,
     * and return that diagonal's script, prepared. Past max_d everything is
     * freed and NULL returned, which only happens when max_d is less than
     * n1 + n2.
     */
    method Search(n1: int, n2: int, func: (T, T) -> int, maxd: int, ghost s1: seq<T>, ghost s2: seq<T>)
      returns (r: Ptr, ghost count: nat)
      requires Valid() && chain1 != null && chain2 != null && membase == Null
      requires 0 <= n1 < MaxLines && 0 <= n2 < MaxLines && chain1[..n1] == s1 && chain2[..n2] == s2 && maxd >= 0
      modifies this
      ensures Valid()
      ensures r == Null ==> Clear() && !AllEqual(s1, s2, func) && maxd < n1 + n2
      ensures r != Null ==> Answer(heap, r, count, s1, s2, func) && (!AllEqual(s1, s2, func) ==> count <= maxd)
      ensures old(base) <= base
    {
      var a1, a2 := chain1, chain2;
      var row, col := Slide(a1, a2, n1, n2, func, 0, 0);
      var lastD := new int[NDiag];
      var script := new Ptr[NDiag];
      lastD[Origin] := row;
      script[Origin] := Null;
      var lower := if row == n1 then Origin + 1 else Origin - 1;
      var upper := if row == n2 then Origin - 1 else Origin + 1;
      if lower > upper {
        EmptyPathIsEqual(s1, s2, func);
        var id := AddNode(Node(Identical, 0, 0, None, None, Null, Null));
        return At(id), 1;
      }
      assert !AllEqual(s1, s2, func) by {
        if row < n1 && row < n2 {
          assert func(s1[row], s2[row]) != 0;
        }
      }
      ghost var L, S := lastD[..], script[..];
      StartFrontier(s1, s2, func, heap, L, S, row, lower, upper);
      r, count := Rounds(a1, a2, n1, n2, func, maxd, lastD, script, lower, upper, s1, s2, L, S);
    }

    /**
     * The IDENTICAL branch of shChainDiff as written: the node is pushed on
     * membase with its op and link set but its memchain never assigned, so
     * it holds whatever the allocator left there (garbage). The arena is then
     * broken: the next free_script, from shChainDiff or shChainDiffFree,
     * follows that memchain.
     */
    method IdenticalAsWritten(garbage: Ptr) returns (r: Ptr)
      requires ArenaOK(heap, membase, base, next) && membase == Null
      modifies this
      ensures r == At(old(next)) && membase == r && next == old(next) + 1 && base == old(base)
      ensures heap == old(heap)[old(next) := Node(Identical, 0, 0, None, None, Null, garbage)]
      ensures garbage != Null ==> !ArenaOK(heap, membase, base, next)
    {
      var id := next;
      heap := heap[id := Node(Identical, 0, 0, None, None, Null, garbage)];
      next := next + 1;
      membase := At(id);
      r := membase;
      assert id in heap && id == base && heap[id].memchain == garbage;
    }

    /**
     * The d loop of shChainDiff: rounds d = 1, 2, ..., max_d, each from the
     * bounds the last one left, until one reaches the bottom right corner;
     * when none does, everything is freed and NULL returned.
     */
    method Rounds(a1: array<T>, a2: array<T>, n1: int, n2: int, func: (T, T) -> int, maxd: int,
                  lastD: array<int>, script: array<Ptr>, lower: int, upper: int,
                  ghost s1: seq<T>, ghost s2: seq<T>, ghost L: seq<int>, ghost S: seq<Ptr>)
      returns (r: Ptr, ghost count: nat)
      requires Valid() && chain1 == a1 && chain2 == a2
      requires 0 <= n1 < MaxLines && 0 <= n2 < MaxLines && a1[..n1] == s1 && a2[..n2] == s2 && maxd >= 0
      requires lastD.Length == NDiag && script.Length == NDiag && lastD[..] == L && script[..] == S
      requires a1 as object != script && a2 as object != script && a1 as object != lastD && a2 as object != lastD
      requires !AllEqual(s1, s2, func) && Frontier(s1, s2, func, heap, L, S, 1, lower, upper)
      modifies this, lastD, script
      ensures Valid()
      ensures r == Null ==> Clear() && maxd < n1 + n2
      ensures r != Null ==> Answer(heap, r, count, s1, s2, func) && count <= maxd
      ensures old(base) <= base
    {
      var d, lower, upper, L, S := 1, lower, upper, L, S;
      while d <= maxd
        invariant Valid() && chain1 == a1 && chain2 == a2 && base == old(base)
        invariant 1 <= d <= maxd + 1 && d - 1 < n1 + n2
        invariant lastD[..] == L && script[..] == S
        invariant Frontier(s1, s2, func, heap, L, S, d, lower, upper)
        decreases maxd - d
      {
        var found, k, lo, hi;
        found, k, lo, hi, L, S := Round(a1, a2, n1, n2, func, lastD, script, d, lower, upper, s1, s2, L, S);
        if found {
          r := Finish(script[k], k, d, s1, s2, func);
          count := d;
          return;
        }
        lower, upper := lo - 1, hi + 1;
        d := d + 1;
      }
      ShChainDiffFree();
      r, count := Null, 0;
    }

    /**
     * The end of the search once round d reached the bottom right corner on
     * diagonal k: the script of that diagonal, prepared, is the answer.
     */
    method Finish(p: Ptr, k: int, d: int, ghost s1: seq<T>, ghost s2: seq<T>, func: (T, T) -> int) returns (r: Ptr)
      requires ArenaOK(heap, membase, base, next) && chain1 != null && chain2 != null
      requires |s1| <= chain1.Length && |s2| <= chain2.Length && chain1[..|s1|] == s1 && chain2[..|s2|] == s2
      requires d >= 1 && |s1| + k - Origin == |s2| && DiagOK(s1, s2, func, heap, |s1|, p, k, d)
      requires !AllEqual(s1, s2, func)
      modifies this
      ensures ArenaOK(heap, membase, base, next) && chain1 == old(chain1) && chain2 == old(chain2)
      ensures Answer(heap, r, d, s1, s2, func) && base == old(base)
    {
      DiagOKPath(s1, s2, func, heap, |s1|, p, k, d);
      PathReadable(s1, s2, func, BackMoves(heap, p, d), |s1|, |s2|);
      r := ChainPrepare(p, d, s1, s2);
    }

    /**
     * chain_prepare, resolving each node's own line only: reverse the links
     * of a script in place, so that it reads first move first, and point
     * each deletion at its line of the first chain (line1.ptr) and each
     * insertion at its line of the second (line2.ptr).
     */
    method ChainPrepare(script: Ptr, ghost n: nat, ghost s1: seq<T>, ghost s2: seq<T>) returns (head: Ptr)
      requires ArenaOK(heap, membase, base, next) && chain1 != null && chain2 != null
      requires |s1| <= chain1.Length && |s2| <= chain2.Length && chain1[..|s1|] == s1 && chain2[..|s2|] == s2
      requires IsChain(heap, script, n) && Descending(heap, script, n)
      requires forall i :: 0 <= i < n ==> Readable(BackMoves(heap, script, n)[i], |s1|, |s2|)
      modifies this
      ensures ArenaOK(heap, membase, base, next) && heap.Keys == old(heap.Keys)
      ensures chain1 == old(chain1) && chain2 == old(chain2) && base == old(base)
      ensures IsChain(heap, head, n) && MovesOf(Walk(heap, head, n)) == old(BackMoves(heap, script, n))
      ensures Ids(heap, head, n) == old(Ids(heap, script, n))
      ensures forall x :: x in old(heap) && x !in old(Ids(heap, script, n)) ==> heap[x] == old(heap[x])
      ensures AllResolved(Walk(heap, head, n), s1, s2)
    {
      ghost var M, ids0, heap0 := BackMoves(heap, script, n), Ids(heap, script, n), heap;
      var a := script;
      var tmp := Null;
      ghost var i: nat := 0;
      PreparingStart(heap, script, n, s1, s2);
      while a != Null
        invariant i <= n && |M| == n && forall j :: 0 <= j < n ==> Readable(M[j], |s1|, |s2|)
        invariant ArenaOK(heap, membase, base, next) && heap.Keys == old(heap.Keys)
        invariant chain1 == old(chain1) && chain2 == old(chain2) && base == old(base)
        invariant Preparing(heap, a, tmp, i, n, M, s1, s2, ids0, heap0)
        decreases n - i
      {
        var rest := Relink(a, tmp, i, n, M, s1, s2, ids0, heap0);
        tmp := a;
        a := rest;
        i := i + 1;
      }
      PreparingEnd(heap, tmp, i, n, M, s1, s2, ids0, heap0);
      head := tmp;
    }

    /**
     * One turn of chain_prepare's loop: resolve the node at a, point it
     * back at tmp, and return the rest of the unreversed part.
     */
    method Relink(a: Ptr, tmp: Ptr, ghost i: nat, ghost n: nat, ghost M: seq<Move>, ghost s1: seq<T>, ghost s2: seq<T>,
                  ghost ids0: set<nat>, ghost heap0: map<nat, Node<T>>)
      returns (rest: Ptr)
      requires ArenaOK(heap, membase, base, next) && chain1 != null && chain2 != null
      requires |s1| <= chain1.Length && |s2| <= chain2.Length && chain1[..|s1|] == s1 && chain2[..|s2|] == s2
      requires Preparing(heap, a, tmp, i, n, M, s1, s2, ids0, heap0) && i < n && Readable(M[n - i - 1], |s1|, |s2|)
      modifies this
      ensures ArenaOK(heap, membase, base, next) && heap.Keys == old(heap.Keys)
      ensures chain1 == old(chain1) && chain2 == old(chain2) && base == old(base)
      ensures Preparing(heap, rest, a, i + 1, n, M, s1, s2, ids0, heap0)
    {
      var node := heap[a.id];
      NewestMove(heap, a, i, n, M);
      var p1 := if node.op == Delete then Some(chain1[node.line1 - 1]) else node.ptr1;
      var p2 := if node.op == Insert then Some(chain2[node.line2 - 1]) else node.ptr2;
      var node' := node.(link := tmp, ptr1 := p1, ptr2 := p2);
      ghost var heap0 := heap;
      ArenaUpdate(heap, membase, base, next, a.id, node');
      heap := heap[a.id := node'];
      ReverseStep(heap0, heap, a, tmp, node', i, n, M);
      assert AllResolved(Walk(heap, a, i + 1), s1, s2) by {
        var w := Walk(heap, a, i + 1);
        forall j | 0 <= j < |w|
          ensures Resolved(w[j], s1, s2)
        {
          if j > 0 {
            assert w[j] == Walk(heap0, tmp, i)[j - 1];
          }
        }
      }
      rest := node.link;
    }

    /**
     * chain_prepare as written: both line1.ptr and line2.ptr are read for
     * every node, so both line numbers must be at least 1.
     */
    method ChainPrepareAsWritten(script: Ptr, ghost n: nat) returns (head: Ptr)
      requires ArenaOK(heap, membase, base, next) && chain1 != null && chain2 != null
      requires chain1.Length == MaxLines && chain2.Length == MaxLines
      requires IsChain(heap, script, n) && Descending(heap, script, n)
      requires forall i :: 0 <= i < n ==> ReadableAsWritten(BackMoves(heap, script, n)[i])
      modifies this
      ensures ArenaOK(heap, membase, base, next) && heap.Keys == old(heap.Keys)
      ensures IsChain(heap, head, n) && MovesOf(Walk(heap, head, n)) == old(BackMoves(heap, script, n))
    {
      ghost var M := BackMoves(heap, script, n);
      var a := script;
      var tmp := Null;
      ghost var i: nat := 0;
      while a != Null
        invariant i <= n && |M| == n && forall j :: 0 <= j < n ==> ReadableAsWritten(M[j])
        invariant ArenaOK(heap, membase, base, next) && heap.Keys == old(heap.Keys)
        invariant chain1 == old(chain1) && chain2 == old(chain2)
        invariant chain1.Length == MaxLines && chain2.Length == MaxLines
        invariant Reversing(heap, a, tmp, i, n, M)
        decreases n - i
      {
        var rest := RelinkAsWritten(a, tmp, i, n, M);
        tmp := a;
        a := rest;
        i := i + 1;
      }
      head := tmp;
    }

    /** One turn of chain_prepare's loop as written, reading both chains. */
    method RelinkAsWritten(a: Ptr, tmp: Ptr, ghost i: nat, ghost n: nat, ghost M: seq<Move>) returns (rest: Ptr)
      requires ArenaOK(heap, membase, base, next) && chain1 != null && chain2 != null
      requires chain1.Length == MaxLines && chain2.Length == MaxLines
      requires Reversing(heap, a, tmp, i, n, M) && i < n && ReadableAsWritten(M[n - i - 1])
      modifies this
      ensures ArenaOK(heap, membase, base, next) && heap.Keys == old(heap.Keys)
      ensures chain1 == old(chain1) && chain2 == old(chain2)
      ensures Reversing(heap, rest, a, i + 1, n, M)
    {
      var node := heap[a.id];
      NewestMove(heap, a, i, n, M);
      var node' := node.(link := tmp, ptr1 := Some(chain1[node.line1 - 1]), ptr2 := Some(chain2[node.line2 - 1]));
      ghost var heap0 := heap;
      ArenaUpdate(heap, membase, base, next, a.id, node');
      heap := heap[a.id := node'];
      ReverseStep(heap0, heap, a, tmp, node', i, n, M);
      rest := node.link;
    }
  }

  /**
   * What the diff reads after chain_to_array as written: with chain l in
   * slots 1 .. |l|, the first |l| slots, which shChainDiff and chain_prepare
   * read as lines 1 .. |l|, hold l only when the stale slot 0 equals l[0]
   * and every element of l equals the one before it. Any chain with two
   * different neighbouring elements is therefore compared wrongly.
   */
  lemma {:induction false} ChainToArrayAsWrittenShifts<T>(l: seq<T>, arr: seq<T>)
    requires 1 <= |l| < |arr| && arr[1..|l| + 1] == l
    ensures arr[..|l|] == l <==> arr[0] == l[0] && forall i :: 1 <= i < |l| ==> l[i] == l[i - 1]
  {
    if arr[0] == l[0] && forall i :: 1 <= i < |l| ==> l[i] == l[i - 1] {
      forall i | 0 <= i < |l|
        ensures arr[i] == l[i]
      {
        ConstantChain(l, i);
        if i > 0 {
          assert arr[i] == arr[1..|l| + 1][i - 1];
          ConstantChain(l, i - 1);
        }
      }
    }
    if arr[..|l|] == l {
      forall i | 1 <= i < |l|
        ensures l[i] == l[i - 1]
      {
        assert arr[i] == arr[1..|l| + 1][i - 1];
        assert arr[i] == arr[..|l|][i];
      }
    }
  }

  /** Elements each equal to the one before are all equal to the first. */
  lemma {:induction false} ConstantChain<T>(l: seq<T>, i: nat)
    requires i < |l| && forall j :: 1 <= j < |l| ==> l[j] == l[j - 1]
    ensures l[i] == l[0]
    decreases i
  {
    if i > 0 {
      ConstantChain(l, i - 1);
    }
  }
}
