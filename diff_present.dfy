/**
 * shChainDiffAsList and shChainDiffPrint: the two ways of presenting a
 * script that shChainDiff returned. Both walk the script along its links.
 * The Tcl result list and the printed text are modelled as the values they
 * are built from: a list of (chain number, element) entries, and a list of
 * hunks, each a block of deleted, inserted or changed lines.
 */
module DiffPresent {
  import opened EditScript
  import opened ChainDiff

  datatype Result<T> = Failure(msg: string) | Success(value: T)

  // ------------------------------------------------------ shChainDiffAsList

  /** One element "# addr" of the list: chain 1 with the deleted element, or chain 2 with the inserted one. */
  datatype Entry<T> = Entry(chain: int, elem: Option<T>)

  function EntryOf<T>(node: Node<T>): (e: Entry<T>)
    ensures e.chain == (if node.op == Delete then 1 else 2)
    ensures e.elem == (if node.op == Delete then node.ptr1 else node.ptr2)
  {
    if node.op == Delete then Entry(1, node.ptr1) else Entry(2, node.ptr2)
  }

  /** The entries of a script, one per node, in link order. */
  function Entries<T>(nodes: seq<Node<T>>): (es: seq<Entry<T>>)
    ensures |es| == |nodes|
    ensures forall i :: 0 <= i < |nodes| ==> es[i] == EntryOf(nodes[i])
  {
    if nodes == [] then [] else [EntryOf(nodes[0])] + Entries(nodes[1..])
  }

  /**
   * shChainDiffAsList: NULL is an error; the IDENTICAL script gives the
   * empty list; otherwise one entry per node, in order.
   */
  method ShChainDiffAsList<T>(heap: map<nat, Node<T>>, script: Ptr, ghost n: nat) returns (res: Result<seq<Entry<T>>>)
    requires IsChain(heap, script, n)
    ensures script == Null ==> res == Failure("No chain diff is specified")
    ensures script != Null && heap[script.id].op == Identical ==> res == Success([])
    ensures script != Null && heap[script.id].op != Identical ==> res == Success(Entries(Walk(heap, script, n)))
  {
    if script == Null {
      return Failure("No chain diff is specified");
    } else if heap[script.id].op == Identical {
      return Success([]);
    }
    var list := [];
    var p := script;
    ghost var rest: nat := n;
    while p != Null
      invariant rest <= n && IsChain(heap, p, rest)
      invariant list + Entries(Walk(heap, p, rest)) == Entries(Walk(heap, script, n))
      decreases rest
    {
      var node := heap[p.id];
      assert Entries(Walk(heap, p, rest)) == [EntryOf(node)] + Entries(Walk(heap, node.link, rest - 1));
      list := list + [EntryOf(node)];
      p := node.link;
      rest := rest - 1;
    }
    assert rest == 0 && Entries(Walk(heap, p, rest)) == [];
    assert list + [] == list;
    return Success(list);
  }

  /**
   * The list of a successful diff: empty exactly when the chains are equal;
   * otherwise one entry per edit, naming the element the edit deletes or
   * inserts, with |s1| - |s2| more edits deleting than inserting.
   */
  lemma AsListOfAnswer<T>(heap: map<nat, Node<T>>, r: Ptr, count: nat, s1: seq<T>, s2: seq<T>, func: (T, T) -> int)
    requires Answer(heap, r, count, s1, s2, func)
    ensures AllEqual(s1, s2, func) <==> heap[r.id].op == Identical
    ensures !AllEqual(s1, s2, func) ==>
      var nodes := Walk(heap, r, count);
      var moves, es := MovesOf(nodes), Entries(nodes);
      Printable(moves, |s1|, |s2|) && |es| == |moves| == count &&
      NamesEdits(nodes, s1, s2) &&
      CountOp(moves, Delete) - CountOp(moves, Insert) == |s1| - |s2|
  {
    if !AllEqual(s1, s2, func) {
      var nodes := Walk(heap, r, count);
      AnswerPrintable(heap, r, count, s1, s2, func);
      ResolvedEntries(nodes, s1, s2);
      assert nodes[0] == heap[r.id] && MovesOf(nodes)[0].op != Identical;
    }
  }

  /**
   * Entry i of the list names the element that edit i deletes from the
   * first chain or inserts from the second.
   */
  ghost predicate NamesEdits<T>(nodes: seq<Node<T>>, s1: seq<T>, s2: seq<T>)
    requires Printable(MovesOf(nodes), |s1|, |s2|)
  {
    var moves, es := MovesOf(nodes), Entries(nodes);
    forall i :: 0 <= i < |nodes| ==>
      if moves[i].op == Delete then es[i] == Entry(1, Some(s1[moves[i].row - 1]))
      else es[i] == Entry(2, Some(s2[moves[i].col - 1]))
  }

  /** The entries of resolved deletions and insertions name their elements. */
  lemma ResolvedEntries<T>(nodes: seq<Node<T>>, s1: seq<T>, s2: seq<T>)
    requires Printable(MovesOf(nodes), |s1|, |s2|) && AllResolved(nodes, s1, s2)
    ensures NamesEdits(nodes, s1, s2)
  {
    var moves, es := MovesOf(nodes), Entries(nodes);
    forall i | 0 <= i < |nodes|
      ensures if moves[i].op == Delete then es[i] == Entry(1, Some(s1[moves[i].row - 1]))
        else es[i] == Entry(2, Some(s2[moves[i].col - 1]))
    {
      assert Resolved(nodes[i], s1, s2);
    }
  }

  /**
   * The nodes of an answer for unequal chains are resolved deletions and
   * insertions of lines that exist, |s1| - |s2| more of the first kind.
   */
  lemma AnswerPrintable<T>(heap: map<nat, Node<T>>, r: Ptr, count: nat, s1: seq<T>, s2: seq<T>, func: (T, T) -> int)
    requires Answer(heap, r, count, s1, s2, func) && !AllEqual(s1, s2, func)
    ensures var nodes := Walk(heap, r, count);
      |nodes| == count && Printable(MovesOf(nodes), |s1|, |s2|) && AllResolved(nodes, s1, s2) &&
      CountOp(MovesOf(nodes), Delete) - CountOp(MovesOf(nodes), Insert) == |s1| - |s2|
  {
    var nodes := Walk(heap, r, count);
    var moves := MovesOf(nodes);
    PathBalance(s1, s2, func, moves, |s1|, |s2|);
    PathPrintable(s1, s2, func, moves, |s1|, |s2|);
  }

  /** A path's moves are deletions and insertions of lines that exist. */
  lemma PathPrintable<T>(s1: seq<T>, s2: seq<T>, func: (T, T) -> int, moves: seq<Move>, r: int, c: int)
    requires PathTo(s1, s2, func, moves, r, c)
    ensures Printable(moves, |s1|, |s2|)
  {
    PathInBounds(s1, s2, func, moves, r, c);
  }

  // ------------------------------------------------------- shChainDiffPrint

  /**
   * A block of output of shChainDiffPrint: lines inserted after line
   * `after` of the first chain; lines first..last of the first chain
   * deleted; or lines first..last changed into the added ones.
   */
  datatype Hunk<T> =
    | Inserted(after: int, added: seq<T>)
    | Deleted(first: int, last: int, removed: seq<T>)
    | Changed(first: int, last: int, removed: seq<T>, added: seq<T>)

  /** Every move of the script is a deletion or an insertion whose line exists. */
  predicate Printable(ms: seq<Move>, n1: int, n2: int)
  {
    forall i :: 0 <= i < |ms| ==> ms[i].op != Identical && Readable(ms[i], n1, n2)
  }

  /** The lines deleted by a script, in order: the elements of the first chain they name. */
  function Deletions<T>(ms: seq<Move>, c1: seq<T>): seq<T>
    decreases |ms|
  {
    if ms == [] then []
    else
      var m := ms[|ms| - 1];
      Deletions(ms[..|ms| - 1], c1) + (if m.op == Delete && 1 <= m.row <= |c1| then [c1[m.row - 1]] else [])
  }

  /** The lines inserted by a script, in order: the elements of the second chain they name. */
  function Insertions<T>(ms: seq<Move>, c2: seq<T>): seq<T>
    decreases |ms|
  {
    if ms == [] then []
    else
      var m := ms[|ms| - 1];
      Insertions(ms[..|ms| - 1], c2) + (if m.op == Insert && 1 <= m.col <= |c2| then [c2[m.col - 1]] else [])
  }

  /**
   * The first do-while of the DELETE case: the number of leading deletions
   * of consecutive lines, at least the first.
   */
  function DelRun(ms: seq<Move>): (j: nat)
    requires ms != [] && ms[0].op == Delete
    ensures 1 <= j <= |ms|
    decreases |ms|
  {
    if |ms| >= 2 && ms[1].op == Delete && ms[1].row == ms[0].row + 1 then 1 + DelRun(ms[1..]) else 1
  }

  /** DelRun counts deletions of consecutive lines, and stops where the next move does not continue them. */
  lemma {:induction false} DelRunShape(ms: seq<Move>)
    requires ms != [] && ms[0].op == Delete
    ensures var j := DelRun(ms);
      (forall i :: 0 <= i < j ==> ms[i].op == Delete && ms[i].row == ms[0].row + i) &&
      (j < |ms| ==> !(ms[j].op == Delete && ms[j].row == ms[j - 1].row + 1))
    decreases |ms|
  {
    if |ms| >= 2 && ms[1].op == Delete && ms[1].row == ms[0].row + 1 {
      var j, tail := DelRun(ms), ms[1..];
      DelRunShape(tail);
      forall i | 0 <= i < j
        ensures ms[i].op == Delete && ms[i].row == ms[0].row + i
      {
        if i > 0 {
          assert ms[i] == tail[i - 1];
        }
      }
      if j < |ms| {
        assert ms[j] == tail[j - 1] && ms[j - 1] == tail[j - 2];
      }
    }
  }

  /** A run of consecutive deletions that cannot be extended is the one DelRun measures. */
  lemma {:induction false} DelRunIs(ms: seq<Move>, j: nat)
    requires ms != [] && ms[0].op == Delete && 1 <= j <= |ms|
    requires forall i :: 0 <= i < j ==> ms[i].op == Delete && ms[i].row == ms[0].row + i
    requires j < |ms| ==> !(ms[j].op == Delete && ms[j].row == ms[j - 1].row + 1)
    ensures DelRun(ms) == j
    decreases j
  {
    if j > 1 {
      var tail := ms[1..];
      assert ms[1].op == Delete && ms[1].row == ms[0].row + 1;
      forall i | 0 <= i < j - 1
        ensures tail[i].op == Delete && tail[i].row == tail[0].row + i
      {
        assert tail[i] == ms[i + 1];
      }
      if j - 1 < |tail| {
        assert tail[j - 1] == ms[j] && tail[j - 2] == ms[j - 1];
      }
      DelRunIs(tail, j - 1);
    }
  }

  /** The number of leading insertions after line `line` of the first chain. */
  function InsRun(ms: seq<Move>, line: int): (k: nat)
    ensures k <= |ms|
    decreases |ms|
  {
    if ms != [] && ms[0].op == Insert && ms[0].row == line then 1 + InsRun(ms[1..], line) else 0
  }

  /** InsRun counts insertions after `line`, and stops where the next move is not one. */
  lemma {:induction false} InsRunShape(ms: seq<Move>, line: int)
    ensures var k := InsRun(ms, line);
      (forall i :: 0 <= i < k ==> ms[i].op == Insert && ms[i].row == line) &&
      (k < |ms| ==> !(ms[k].op == Insert && ms[k].row == line))
    decreases |ms|
  {
    if ms != [] && ms[0].op == Insert && ms[0].row == line {
      var k, tail := InsRun(ms, line), ms[1..];
      InsRunShape(tail, line);
      forall i | 0 <= i < k
        ensures ms[i].op == Insert && ms[i].row == line
      {
        if i > 0 {
          assert ms[i] == tail[i - 1];
        }
      }
      if k < |ms| {
        assert ms[k] == tail[k - 1];
      }
    }
  }

  /** A run of insertions after one line that cannot be extended is the one InsRun measures. */
  lemma {:induction false} InsRunIs(ms: seq<Move>, k: nat, line: int)
    requires k <= |ms|
    requires forall i :: 0 <= i < k ==> ms[i].op == Insert && ms[i].row == line
    requires k < |ms| ==> !(ms[k].op == Insert && ms[k].row == line)
    ensures InsRun(ms, line) == k
    decreases k
  {
    if k > 0 {
      var tail := ms[1..];
      assert ms[0].op == Insert && ms[0].row == line;
      forall i | 0 <= i < k - 1
        ensures tail[i].op == Insert && tail[i].row == line
      {
        assert tail[i] == ms[i + 1];
      }
      if k - 1 < |tail| {
        assert tail[k - 1] == ms[k];
      }
      InsRunIs(tail, k - 1, line);
    }
  }

  /**
   * The number of moves in the first hunk: a run of insertions after one
   * line; or a run of deletions of consecutive lines and the insertions
   * after its last line that follow it, if any.
   */
  function HunkLen(ms: seq<Move>): (n: nat)
    requires ms != [] && ms[0].op != Identical
    ensures 1 <= n <= |ms|
  {
    if ms[0].op == Delete then
      var j := DelRun(ms);
      j + InsRun(ms[j..], ms[j - 1].row)
    else
      InsRun(ms, ms[0].row)
  }

  /**
   * The hunk of the first j moves, deletions of consecutive lines, and the
   * k insertions after the last of them that follow: a deletion when k is
   * 0, a change otherwise.
   */
  function BlockHunk<T>(ms: seq<Move>, c1: seq<T>, c2: seq<T>, j: nat, k: nat): Hunk<T>
    requires 1 <= j && j + k <= |ms|
  {
    if k == 0 then Deleted(ms[0].row, ms[j - 1].row, Deletions(ms[..j], c1))
    else Changed(ms[0].row, ms[j - 1].row, Deletions(ms[..j], c1), Insertions(ms[j..j + k], c2))
  }

  /**
   * The first hunk shChainDiffPrint prints: deletions followed by
   * insertions after the last deleted line are a change.
   */
  function FirstHunk<T>(ms: seq<Move>, c1: seq<T>, c2: seq<T>): Hunk<T>
    requires ms != []
  {
    if ms[0].op == Delete then
      var j := DelRun(ms);
      BlockHunk(ms, c1, c2, j, InsRun(ms[j..], ms[j - 1].row))
    else
      Inserted(ms[0].row, Insertions(ms[..InsRun(ms, ms[0].row)], c2))
  }

  /** The hunks shChainDiffPrint prints for a script, in order. */
  function Group<T>(ms: seq<Move>, c1: seq<T>, c2: seq<T>): seq<Hunk<T>>
    requires Printable(ms, |c1|, |c2|)
    decreases |ms|
  {
    if ms == [] then []
    else [FirstHunk(ms, c1, c2)] + Group(ms[HunkLen(ms)..], c1, c2)
  }

  // The walk of shChainDiffPrint along the links of a script.

  /** From p the links visit nodes holding the moves ms[k..], in order, and then NULL. */
  ghost predicate Rest<T>(heap: map<nat, Node<T>>, p: Ptr, ms: seq<Move>, k: nat)
    decreases |ms| - k, 1
  {
    k <= |ms| && if k == |ms| then p == Null else RestNode(heap, p, ms, k)
  }

  /** p is a node holding move k, linked to the rest. */
  ghost predicate RestNode<T>(heap: map<nat, Node<T>>, p: Ptr, ms: seq<Move>, k: nat)
    requires k < |ms|
    decreases |ms| - k, 0
  {
    p.At? && p.id in heap && MoveOf(heap[p.id]) == ms[k] && Rest(heap, heap[p.id].link, ms, k + 1)
  }

  /** NULL ends the moves; any other node holds the next move and links to the rest. */
  lemma RestStep<T>(heap: map<nat, Node<T>>, p: Ptr, ms: seq<Move>, k: nat)
    requires Rest(heap, p, ms, k)
    ensures p == Null <==> k == |ms|
    ensures p != Null ==>
      k < |ms| && p.At? && p.id in heap && MoveOf(heap[p.id]) == ms[k] && Rest(heap, heap[p.id].link, ms, k + 1)
  {
    if k < |ms| {
      assert RestNode(heap, p, ms, k);
    }
  }

  /** A chain of n nodes heads the moves of its walk. */
  lemma {:induction false} ChainRest<T>(heap: map<nat, Node<T>>, p: Ptr, n: nat, ms: seq<Move>, k: nat)
    requires IsChain(heap, p, n) && k + n == |ms| && MovesOf(Walk(heap, p, n)) == ms[k..]
    ensures Rest(heap, p, ms, k)
    decreases n
  {
    if n > 0 {
      WalkMoves(heap, p, n);
      assert ms[k..][1..] == ms[k + 1..];
      ChainRest(heap, heap[p.id].link, n - 1, ms, k + 1);
    }
  }

  /** A tail of a script is headed where the script's own moves from that point are. */
  lemma {:induction false} RestShift<T>(heap: map<nat, Node<T>>, q: Ptr, ms: seq<Move>, k: nat, h: nat)
    requires k + h <= |ms|
    ensures Rest(heap, q, ms[k..], h) <==> Rest(heap, q, ms, k + h)
    decreases |ms| - k - h
  {
    if k + h < |ms| && q.At? && q.id in heap {
      RestShift(heap, heap[q.id].link, ms, k, h + 1);
    }
  }

  /** A node heads one tail of a script only: a chain has one length. */
  lemma {:induction false} RestSame<T>(heap: map<nat, Node<T>>, q: Ptr, ms: seq<Move>, k: nat, k': nat)
    requires Rest(heap, q, ms, k) && Rest(heap, q, ms, k')
    ensures k == k'
    decreases |ms| - k
  {
    if k < |ms| && k' < |ms| {
      RestSame(heap, heap[q.id].link, ms, k + 1, k' + 1);
    }
  }

  /** The node i links on from p, which heads ms[k..]. */
  ghost function Hop<T>(heap: map<nat, Node<T>>, p: Ptr, ms: seq<Move>, k: nat, i: nat): (q: Ptr)
    requires Rest(heap, p, ms, k) && k + i <= |ms|
    ensures Rest(heap, q, ms, k + i)
    decreases i
  {
    if i == 0 then p
    else
      RestStep(heap, p, ms, k);
      Hop(heap, heap[p.id].link, ms, k + 1, i - 1)
  }

  /** Following one more link from node i reaches node i + 1. */
  lemma {:induction false} HopNext<T>(heap: map<nat, Node<T>>, p: Ptr, ms: seq<Move>, k: nat, i: nat)
    requires Rest(heap, p, ms, k) && k + i < |ms|
    ensures var q := Hop(heap, p, ms, k, i);
      q.At? && q.id in heap && Hop(heap, p, ms, k, i + 1) == heap[q.id].link
    decreases i
  {
    if i > 0 {
      HopNext(heap, heap[p.id].link, ms, k + 1, i - 1);
    }
  }

  /** A suffix of a printable script is printable. */
  lemma PrintableFrom(ms: seq<Move>, k: nat, n1: int, n2: int)
    requires Printable(ms, n1, n2) && k <= |ms|
    ensures Printable(ms[k..], n1, n2)
  {
    forall i | 0 <= i < |ms| - k
      ensures ms[k..][i].op != Identical && Readable(ms[k..][i], n1, n2)
    {
      assert ms[k..][i] == ms[k + i];
    }
  }

  /**
   * shChainDiffPrint, for its hunks: walk the script, printing a hunk per
   * run of insertions after one line, or per run of deletions of
   * consecutive lines, followed, for a change, by the insertions after its
   * last line. The elements printed are read from the static arrays
   * chain1 and chain2.
   */
  method ShChainDiffPrint<T>(heap: map<nat, Node<T>>, chain1: array<T>, chain2: array<T>, script: Ptr, ghost n: nat)
    returns (out: seq<Hunk<T>>)
    requires IsChain(heap, script, n) && Printable(MovesOf(Walk(heap, script, n)), chain1.Length, chain2.Length)
    ensures out == Group(MovesOf(Walk(heap, script, n)), chain1[..], chain2[..])
  {
    ghost var ms := MovesOf(Walk(heap, script, n));
    ghost var c1, c2 := chain1[..], chain2[..];
    ChainRest(heap, script, n, ms, 0);
    assert ms[0..] == ms;
    out := [];
    var p := script;
    ghost var rest := ms;
    while p != Null
      invariant Rest(heap, p, rest, 0) && Printable(rest, |c1|, |c2|)
      invariant out + Group(rest, c1, c2) == Group(ms, c1, c2)
      decreases |rest|
    {
      var hunk;
      ghost var h;
      hunk, p, h := PrintHunk(heap, chain1, chain2, p, rest);
      RestShift(heap, p, rest, h, 0);
      GroupCons(rest, c1, c2, hunk, h);
      out := out + [hunk];
      rest := rest[h..];
    }
  }

  /** The hunks of a non-empty script: its first hunk, then those of the moves after it. */
  lemma GroupCons<T>(ms: seq<Move>, c1: seq<T>, c2: seq<T>, hunk: Hunk<T>, h: nat)
    requires ms != [] && Printable(ms, |c1|, |c2|)
    requires hunk == FirstHunk(ms, c1, c2) && h == HunkLen(ms)
    ensures h <= |ms| && Printable(ms[h..], |c1|, |c2|)
    ensures Group(ms, c1, c2) == [hunk] + Group(ms[h..], c1, c2)
  {
    PrintableFrom(ms, h, |c1|, |c2|);
  }

  /** One turn of the outer loop of shChainDiffPrint: the hunk that starts at p. */
  method PrintHunk<T>(heap: map<nat, Node<T>>, chain1: array<T>, chain2: array<T>, p: Ptr, ghost ms: seq<Move>)
    returns (hunk: Hunk<T>, next: Ptr, ghost h: nat)
    requires Rest(heap, p, ms, 0) && p != Null
    requires Printable(ms, chain1.Length, chain2.Length)
    ensures ms != [] && hunk == FirstHunk(ms, chain1[..], chain2[..])
    ensures h == HunkLen(ms) && Rest(heap, next, ms, h)
  {
    RestStep(heap, p, ms, 0);
    var node := heap[p.id];
    if node.op == Insert {
      var added;
      added, next, h := PrintInserts(heap, chain2, p, node.line1, ms);
      hunk := Inserted(node.line1, added);
    } else {
      hunk, next, h := PrintChange(heap, chain1, chain2, p, ms);
    }
  }

  /** The DELETE case of shChainDiffPrint: a block of deletions, changed into the insertions that follow it if any. */
  method PrintChange<T>(heap: map<nat, Node<T>>, chain1: array<T>, chain2: array<T>, p: Ptr, ghost ms: seq<Move>)
    returns (hunk: Hunk<T>, next: Ptr, ghost h: nat)
    requires Rest(heap, p, ms, 0) && p.At? && p.id in heap && heap[p.id].op == Delete
    requires Printable(ms, chain1.Length, chain2.Length)
    ensures ms != [] && ms[0].op == Delete && hunk == FirstHunk(ms, chain1[..], chain2[..])
    ensures h == HunkLen(ms) && Rest(heap, next, ms, h)
  {
    ghost var c1, c2 := chain1[..], chain2[..];
    RestStep(heap, p, ms, 0);
    var a, b;
    ghost var j;
    a, b, j := DeleteRun(heap, p, ms);
    DelRunRows(ms, chain1.Length, chain2.Length);
    var change := b != Null && heap[b.id].op == Insert && heap[b.id].line1 == heap[a.id].line1;
    var removed := PrintDeletes(heap, chain1, p, b, ms, j);
    RestStep(heap, b, ms, j);
    assert heap[p.id].line1 == ms[0].row && heap[a.id].line1 == ms[j - 1].row;
    if !change {
      InsRunIs(ms[j..], 0, ms[j - 1].row);
      DeletedHunk(ms, c1, c2, j, removed);
      hunk, next, h := Deleted(heap[p.id].line1, heap[a.id].line1, removed), b, j;
    } else {
      var added;
      ghost var k;
      added, next, k := PrintChangedTo(heap, chain1, chain2, b, ms, j);
      ChangedHunk(ms, c1, c2, j, k, removed, added);
      hunk, h := Changed(heap[p.id].line1, heap[a.id].line1, removed, added), j + k;
    }
  }

  /** A block of deletions not followed by insertions after its last line is a hunk of its own. */
  lemma DeletedHunk<T>(ms: seq<Move>, c1: seq<T>, c2: seq<T>, j: nat, removed: seq<T>)
    requires ms != [] && ms[0].op == Delete && j == DelRun(ms) && InsRun(ms[j..], ms[j - 1].row) == 0
    requires removed == Deletions(ms[..j], c1)
    ensures HunkLen(ms) == j && FirstHunk(ms, c1, c2) == Deleted(ms[0].row, ms[j - 1].row, removed)
  {
    DeleteHunk(ms, c1, c2, j, 0);
  }

  /** A block of deletions followed by k > 0 insertions after its last line is a change. */
  lemma ChangedHunk<T>(ms: seq<Move>, c1: seq<T>, c2: seq<T>, j: nat, k: nat, removed: seq<T>, added: seq<T>)
    requires ms != [] && ms[0].op == Delete && j == DelRun(ms) && k == InsRun(ms[j..], ms[j - 1].row) && k > 0
    requires removed == Deletions(ms[..j], c1) && added == Insertions(ms[j..j + k], c2)
    ensures HunkLen(ms) == j + k && FirstHunk(ms, c1, c2) == Changed(ms[0].row, ms[j - 1].row, removed, added)
  {
    DeleteHunk(ms, c1, c2, j, k);
  }

  /** The lines a run of deletions deletes exist. */
  lemma DelRunRows(ms: seq<Move>, n1: int, n2: int)
    requires ms != [] && ms[0].op == Delete && Printable(ms, n1, n2)
    ensures forall i :: 0 <= i < DelRun(ms) ==> ms[i].op == Delete && 1 <= ms[i].row <= n1
  {
    DelRunShape(ms);
  }

  /** The insertions a block of deletions is changed into: those after its last line, from b on. */
  method PrintChangedTo<T>(heap: map<nat, Node<T>>, chain1: array<T>, chain2: array<T>, b: Ptr, ghost ms: seq<Move>, ghost j: nat)
    returns (added: seq<T>, next: Ptr, ghost k: nat)
    requires 1 <= j <= |ms| && Rest(heap, b, ms, j) && b.At? && b.id in heap
    requires heap[b.id].op == Insert && heap[b.id].line1 == ms[j - 1].row
    requires Printable(ms, chain1.Length, chain2.Length)
    ensures k == InsRun(ms[j..], ms[j - 1].row) && j + k <= |ms| && added == Insertions(ms[j..j + k], chain2[..])
    ensures Rest(heap, next, ms, j + k)
  {
    RestShift(heap, b, ms, j, 0);
    PrintableFrom(ms, j, chain1.Length, chain2.Length);
    added, next, k := PrintInserts(heap, chain2, b, heap[b.id].line1, ms[j..]);
    RestShift(heap, next, ms, j, k);
    assert ms[j..][..k] == ms[j..j + k];
  }

  /** The first hunk of a script that starts with j deletions followed by k insertions after the last of them. */
  lemma DeleteHunk<T>(ms: seq<Move>, c1: seq<T>, c2: seq<T>, j: nat, k: nat)
    requires ms != [] && ms[0].op == Delete
    requires j == DelRun(ms) && k == InsRun(ms[j..], ms[j - 1].row)
    ensures HunkLen(ms) == j + k <= |ms| && FirstHunk(ms, c1, c2) == BlockHunk(ms, c1, c2, j, k)
  {
  }

  /**
   * The do-while that prints inserted lines: the node at p and the
   * insertions after line `line` that follow it.
   */
  method PrintInserts<T>(heap: map<nat, Node<T>>, chain2: array<T>, p: Ptr, line: int, ghost ms: seq<Move>)
    returns (added: seq<T>, q: Ptr, ghost k: nat)
    requires Rest(heap, p, ms, 0) && p.At? && p.id in heap && heap[p.id].op == Insert && heap[p.id].line1 == line
    requires forall i :: 0 <= i < |ms| ==> ms[i].op == Insert ==> 1 <= ms[i].col <= chain2.Length
    ensures k == InsRun(ms, line) && added == Insertions(ms[..k], chain2[..]) && Rest(heap, q, ms, k)
  {
    RestStep(heap, p, ms, 0);
    added, q, k := [], p, 0;
    while true
      invariant k < |ms| && Rest(heap, q, ms, k) && q != Null
      invariant forall i :: 0 <= i <= k ==> ms[i].op == Insert && ms[i].row == line
      invariant added == Insertions(ms[..k], chain2[..])
      decreases |ms| - k
    {
      RestStep(heap, q, ms, k);
      var node := heap[q.id];
      assert ms[..k + 1][..k] == ms[..k];
      added := added + [chain2[node.line2 - 1]];
      q := node.link;
      k := k + 1;
      RestStep(heap, q, ms, k);
      if !(q != Null && heap[q.id].op == Insert && heap[q.id].line1 == line) {
        break;
      }
    }
    InsRunIs(ms, k, line);
  }

  /** The first do-while of the DELETE case: a ends at the last deletion of the run, b at the node after it. */
  method DeleteRun<T>(heap: map<nat, Node<T>>, p: Ptr, ghost ms: seq<Move>)
    returns (a: Ptr, b: Ptr, ghost j: nat)
    requires Rest(heap, p, ms, 0) && p.At? && p.id in heap && heap[p.id].op == Delete
    ensures ms != [] && ms[0].op == Delete && j == DelRun(ms) && b == Hop(heap, p, ms, 0, j)
    ensures Rest(heap, b, ms, j) && a.At? && a.id in heap && MoveOf(heap[a.id]) == ms[j - 1]
  {
    RestStep(heap, p, ms, 0);
    a, b, j := p, p, 0;
    while true
      invariant j < |ms| && Rest(heap, b, ms, j) && b != Null && b == Hop(heap, p, ms, 0, j)
      invariant forall i :: 0 <= i <= j ==> ms[i].op == Delete && ms[i].row == ms[0].row + i
      decreases |ms| - j
    {
      RestStep(heap, b, ms, j);
      HopNext(heap, p, ms, 0, j);
      a := b;
      b := heap[b.id].link;
      j := j + 1;
      RestStep(heap, b, ms, j);
      if !(b != Null && heap[b.id].op == Delete && heap[b.id].line1 == heap[a.id].line1 + 1) {
        break;
      }
    }
    DelRunIs(ms, j);
  }

  /** The do-while that prints the deleted lines, from p up to b. */
  method PrintDeletes<T>(heap: map<nat, Node<T>>, chain1: array<T>, p: Ptr, b: Ptr, ghost ms: seq<Move>, ghost j: nat)
    returns (removed: seq<T>)
    requires Rest(heap, p, ms, 0) && 1 <= j <= |ms| && b == Hop(heap, p, ms, 0, j)
    requires forall i :: 0 <= i < j ==> ms[i].op == Delete && 1 <= ms[i].row <= chain1.Length
    ensures removed == Deletions(ms[..j], chain1[..])
  {
    var q := p;
    ghost var t := 0;
    removed := [];
    while true
      invariant t < j && Rest(heap, q, ms, t) && q == Hop(heap, p, ms, 0, t)
      invariant removed == Deletions(ms[..t], chain1[..])
      decreases j - t
    {
      HopNext(heap, p, ms, 0, t);
      RestStep(heap, q, ms, t);
      var node := heap[q.id];
      assert ms[..t + 1][..t] == ms[..t];
      removed := removed + [chain1[node.line1 - 1]];
      q := node.link;
      t := t + 1;
      if q == b {
        RestSame(heap, q, ms, t, j);
        break;
      }
      if t == j {
        assert false;
      }
    }
  }

  function RemovedOf<T>(h: Hunk<T>): seq<T>
  {
    if h.Inserted? then [] else h.removed
  }

  function AddedOf<T>(h: Hunk<T>): seq<T>
  {
    if h.Deleted? then [] else h.added
  }

  /** The deleted lines of the hunks, hunk after hunk. */
  function AllRemoved<T>(hs: seq<Hunk<T>>): seq<T>
    decreases |hs|
  {
    if hs == [] then [] else RemovedOf(hs[0]) + AllRemoved(hs[1..])
  }

  /** The inserted lines of the hunks, hunk after hunk. */
  function AllAdded<T>(hs: seq<Hunk<T>>): seq<T>
    decreases |hs|
  {
    if hs == [] then [] else AddedOf(hs[0]) + AllAdded(hs[1..])
  }

  lemma {:induction false} DeletionsAppend<T>(a: seq<Move>, b: seq<Move>, c1: seq<T>, c2: seq<T>)
    ensures Deletions(a + b, c1) == Deletions(a, c1) + Deletions(b, c1)
    ensures Insertions(a + b, c2) == Insertions(a, c2) + Insertions(b, c2)
    decreases |b|
  {
    if b != [] {
      var b' := b[..|b| - 1];
      assert (a + b)[..|a + b| - 1] == a + b' && (a + b)[|a + b| - 1] == b[|b| - 1];
      DeletionsAppend(a, b', c1, c2);
    } else {
      assert a + b == a;
    }
  }

  /** A run of deletions inserts nothing. */
  lemma {:induction false} NoInsertions<T>(ms: seq<Move>, c2: seq<T>)
    requires forall i :: 0 <= i < |ms| ==> ms[i].op == Delete
    ensures Insertions(ms, c2) == []
    decreases |ms|
  {
    if ms != [] {
      NoInsertions(ms[..|ms| - 1], c2);
    }
  }

  /** A run of insertions deletes nothing. */
  lemma {:induction false} NoDeletions<T>(ms: seq<Move>, c1: seq<T>)
    requires forall i :: 0 <= i < |ms| ==> ms[i].op == Insert
    ensures Deletions(ms, c1) == []
    decreases |ms|
  {
    if ms != [] {
      NoDeletions(ms[..|ms| - 1], c1);
    }
  }

  /** Deletions of consecutive existing lines delete that block of the first chain. */
  lemma {:induction false} DeletedBlock<T>(ms: seq<Move>, c1: seq<T>)
    requires ms != [] && 1 <= ms[0].row && ms[0].row + |ms| - 1 <= |c1|
    requires forall i :: 0 <= i < |ms| ==> ms[i].op == Delete && ms[i].row == ms[0].row + i
    ensures Deletions(ms, c1) == c1[ms[0].row - 1..ms[0].row - 1 + |ms|]
    decreases |ms|
  {
    var n, r := |ms|, ms[0].row;
    if n > 1 {
      var init := ms[..n - 1];
      assert init[0] == ms[0];
      DeletedBlock(init, c1);
      assert c1[r - 1..r - 1 + n] == c1[r - 1..r - 1 + (n - 1)] + [c1[ms[n - 1].row - 1]];
    }
  }

  /** The first hunk deletes and inserts what its moves do. */
  lemma FirstHunkEdits<T>(ms: seq<Move>, c1: seq<T>, c2: seq<T>)
    requires ms != [] && Printable(ms, |c1|, |c2|)
    ensures RemovedOf(FirstHunk(ms, c1, c2)) == Deletions(ms[..HunkLen(ms)], c1)
    ensures AddedOf(FirstHunk(ms, c1, c2)) == Insertions(ms[..HunkLen(ms)], c2)
  {
    if ms[0].op == Delete {
      var j := DelRun(ms);
      var k := InsRun(ms[j..], ms[j - 1].row);
      DeleteHunk(ms, c1, c2, j, k);
      DeleteCaseEdits(ms, c1, c2, j, k);
    } else {
      InsertCaseEdits(ms, c1, InsRun(ms, ms[0].row));
    }
  }

  /** The edits of a first hunk that starts with deletions. */
  lemma DeleteCaseEdits<T>(ms: seq<Move>, c1: seq<T>, c2: seq<T>, j: nat, k: nat)
    requires ms != [] && ms[0].op == Delete && j == DelRun(ms) && k == InsRun(ms[j..], ms[j - 1].row)
    ensures j + k <= |ms|
    ensures RemovedOf(BlockHunk(ms, c1, c2, j, k)) == Deletions(ms[..j + k], c1)
    ensures AddedOf(BlockHunk(ms, c1, c2, j, k)) == Insertions(ms[..j + k], c2)
  {
    DelRunShape(ms);
    InsRunShape(ms[j..], ms[j - 1].row);
    forall i | j <= i < j + k
      ensures ms[i].op == Insert
    {
      assert ms[i] == ms[j..][i - j];
    }
    BlockHunkEdits(ms, c1, c2, j, k);
  }

  /** A run of insertions deletes nothing. */
  lemma InsertCaseEdits<T>(ms: seq<Move>, c1: seq<T>, k: nat)
    requires ms != [] && k == InsRun(ms, ms[0].row)
    ensures k <= |ms| && Deletions(ms[..k], c1) == []
  {
    InsRunShape(ms, ms[0].row);
    NoDeletions(ms[..k], c1);
  }

  /** A block hunk deletes and inserts what its moves do. */
  lemma BlockHunkEdits<T>(ms: seq<Move>, c1: seq<T>, c2: seq<T>, j: nat, k: nat)
    requires 1 <= j && j + k <= |ms|
    requires forall i :: 0 <= i < j ==> ms[i].op == Delete
    requires forall i :: j <= i < j + k ==> ms[i].op == Insert
    ensures RemovedOf(BlockHunk(ms, c1, c2, j, k)) == Deletions(ms[..j + k], c1)
    ensures AddedOf(BlockHunk(ms, c1, c2, j, k)) == Insertions(ms[..j + k], c2)
  {
    BlockEdits(ms, c1, c2, j, k);
    if k == 0 {
      assert ms[j..j + k] == [];
    }
  }

  /** Deletions followed by insertions: the deletions come from the first part, the insertions from the second. */
  lemma BlockEdits<T>(ms: seq<Move>, c1: seq<T>, c2: seq<T>, j: nat, k: nat)
    requires 1 <= j && j + k <= |ms|
    requires forall i :: 0 <= i < j ==> ms[i].op == Delete
    requires forall i :: j <= i < j + k ==> ms[i].op == Insert
    ensures Deletions(ms[..j + k], c1) == Deletions(ms[..j], c1)
    ensures Insertions(ms[..j + k], c2) == Insertions(ms[j..j + k], c2)
  {
    SplitEdits(ms, j, j + k, c1, c2);
    NoInsertions(ms[..j], c2);
    NoDeletions(ms[j..j + k], c1);
  }

  /** The edits of a prefix are those of its two parts. */
  lemma SplitEdits<T>(ms: seq<Move>, j: nat, n: nat, c1: seq<T>, c2: seq<T>)
    requires j <= n <= |ms|
    ensures Deletions(ms[..n], c1) == Deletions(ms[..j], c1) + Deletions(ms[j..n], c1)
    ensures Insertions(ms[..n], c2) == Insertions(ms[..j], c2) + Insertions(ms[j..n], c2)
  {
    assert ms[..n] == ms[..j] + ms[j..n];
    DeletionsAppend(ms[..j], ms[j..n], c1, c2);
  }

  /** Printing loses no edit: the hunks delete and insert exactly what the script does, in order. */
  lemma {:induction false} GroupKeepsEdits<T>(ms: seq<Move>, c1: seq<T>, c2: seq<T>)
    requires Printable(ms, |c1|, |c2|)
    ensures AllRemoved(Group(ms, c1, c2)) == Deletions(ms, c1)
    ensures AllAdded(Group(ms, c1, c2)) == Insertions(ms, c2)
    decreases |ms|
  {
    if ms != [] {
      var n := HunkLen(ms);
      var g := Group(ms, c1, c2);
      assert ms == ms[..n] + ms[n..];
      DeletionsAppend(ms[..n], ms[n..], c1, c2);
      FirstHunkEdits(ms, c1, c2);
      GroupKeepsEdits(ms[n..], c1, c2);
      assert g[1..] == Group(ms[n..], c1, c2);
    }
  }

  /**
   * The shape of a hunk: a deletion or change names a block first..last of
   * the first chain and removes exactly its lines; a change or insertion
   * adds at least one line.
   */
  ghost predicate HunkOK<T>(h: Hunk<T>, c1: seq<T>)
  {
    (!h.Inserted? ==> 1 <= h.first <= h.last <= |c1| && h.removed == c1[h.first - 1..h.last]) &&
    (!h.Deleted? ==> |h.added| >= 1)
  }

  lemma FirstHunkOK<T>(ms: seq<Move>, c1: seq<T>, c2: seq<T>)
    requires ms != [] && Printable(ms, |c1|, |c2|)
    ensures HunkOK(FirstHunk(ms, c1, c2), c1)
  {
    if ms[0].op == Delete {
      var j := DelRun(ms);
      var k := InsRun(ms[j..], ms[j - 1].row);
      DelRunShape(ms);
      InsRunShape(ms[j..], ms[j - 1].row);
      if k > 0 {
        assert ms[j + k - 1] == ms[j..][k - 1];
      }
      DeleteHunk(ms, c1, c2, j, k);
      BlockHunkOK(ms, c1, c2, j, k);
    } else {
      var k := InsRun(ms, ms[0].row);
      InsRunShape(ms, ms[0].row);
      AddsLast(ms[..k], c2);
    }
  }

  /** A block hunk deletes a block of the first chain, and a change adds a line. */
  lemma BlockHunkOK<T>(ms: seq<Move>, c1: seq<T>, c2: seq<T>, j: nat, k: nat)
    requires 1 <= j && j + k <= |ms| && Printable(ms, |c1|, |c2|)
    requires forall i :: 0 <= i < j ==> ms[i].op == Delete && ms[i].row == ms[0].row + i
    requires k > 0 ==> ms[j + k - 1].op == Insert
    ensures HunkOK(BlockHunk(ms, c1, c2, j, k), c1)
  {
    var d := ms[..j];
    assert d[0] == ms[0] && d[j - 1] == ms[j - 1];
    assert Readable(ms[j - 1], |c1|, |c2|);
    DeletedBlock(d, c1);
    if k > 0 {
      AddsLast(ms[j..j + k], c2);
    }
  }

  /** A script whose last move is an insertion of an existing line inserts something. */
  lemma AddsLast<T>(ms: seq<Move>, c2: seq<T>)
    requires ms != [] && ms[|ms| - 1].op == Insert && 1 <= ms[|ms| - 1].col <= |c2|
    ensures |Insertions(ms, c2)| >= 1
  {
  }

  lemma {:induction false} GroupShape<T>(ms: seq<Move>, c1: seq<T>, c2: seq<T>)
    requires Printable(ms, |c1|, |c2|)
    ensures forall i :: 0 <= i < |Group(ms, c1, c2)| ==> HunkOK(Group(ms, c1, c2)[i], c1)
    decreases |ms|
  {
    if ms != [] {
      FirstHunkOK(ms, c1, c2);
      GroupShape(ms[HunkLen(ms)..], c1, c2);
    }
  }
}
