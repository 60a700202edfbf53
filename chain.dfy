/** The chain of favourite nodes and what the tree-model interface computes
    over it (thunar/thunar-favourites-model.c:96-101, 340-527, 563-586,
    646-666). The functions here take the chain as the sequence of its nodes
    in link order; the class in module FavouritesModel walks the real links
    and is proved to compute the same results. */
module Chain {
  import opened Base
  import opened Columns

  /** One favourite. Its file and label are fixed when it is allocated; only
      the link to the following node is ever rewritten. */
  class Node {
    const file: Option<File>
    const specialName: Option<string>
    var next: Node?

    constructor (file: Option<File>, specialName: Option<string>, next: Node?)
      ensures this.file == file && this.specialName == specialName && this.next == next
    {
      this.file := file;
      this.specialName := specialName;
      this.next := next;
    }
  }

  /** What a node shows in the list. */
  function EntryOf(n: Node): Entry
  {
    Entry(n.file, n.specialName)
  }

  /** A tree iterator: the stamp of the model that issued it and the node it
      points at (null once it has been advanced past the last row). */
  datatype Iter = Iter(stamp: Guint, node: Node?)

  /** One row-changed notification: the row's path and an iterator for it. */
  datatype RowChanged = RowChanged(path: seq<Gint>, iter: Iter)

  /** No node occurs twice in the chain. */
  ghost predicate Distinct(s: seq<Node>)
  {
    forall i, j :: 0 <= i < j < |s| ==> s[i] != s[j]
  }

  /** The position of the first occurrence of `n` in the chain. */
  function IndexOf(s: seq<Node>, n: Node?): (r: Option<nat>)
    ensures r.Some? <==> n in s
    ensures r.Some? ==> r.value < |s| && s[r.value] == n
    ensures r.Some? ==> forall j :: 0 <= j < r.value ==> s[j] != n
  {
    if s == [] then None
    else if s[0] == n then Some(0)
    else match IndexOf(s[1..], n)
      case None => None
      case Some(k) => Some(k + 1)
  }

  /** In a chain without repeated nodes, a node's first position is its
      position. */
  lemma IndexOfDistinct(s: seq<Node>, i: nat)
    requires Distinct(s) && i < |s|
    ensures IndexOf(s, s[i]) == Some(i)
  {
  }

  /** get_iter: a path of depth 0 is refused; otherwise its first index is
      compared, as an unsigned number, with the row count. */
  function IterAt(s: seq<Node>, stamp: Guint, path: seq<Gint>): (r: Option<Iter>)
    requires |s| <= MaxGint
    ensures r.Some? <==> |path| > 0 && 0 <= path[0] < |s|
    ensures r.Some? ==> r.value == Iter(stamp, s[path[0]])
  {
    if |path| == 0 then None
    else if ToUnsigned(path[0]) >= |s| then None
    else Some(Iter(stamp, s[path[0]]))
  }

  /** get_path: an iterator of another stamp, or one whose node is not in the
      chain, has no path; otherwise the path is the node's position. */
  function PathOf(s: seq<Node>, stamp: Guint, it: Iter): (r: Option<seq<Gint>>)
    requires |s| <= MaxGint
    ensures r.Some? <==> it.stamp == stamp && it.node in s
    ensures r.Some? ==> |r.value| == 1 && 0 <= r.value[0] < |s| && s[r.value[0]] == it.node
  {
    if it.stamp != stamp then None
    else match IndexOf(s, it.node)
      case None => None
      case Some(i) => Some([i])
  }

  /** Round trip from a row position: the path of the iterator for row i is
      [i]. */
  lemma PathOfIterAt(s: seq<Node>, stamp: Guint, i: nat)
    requires Distinct(s) && i < |s| <= MaxGint
    ensures IterAt(s, stamp, [i]).Some?
    ensures PathOf(s, stamp, IterAt(s, stamp, [i]).value) == Some([i])
  {
    IndexOfDistinct(s, i);
  }

  /** Round trip from an iterator: looking up the path of a valid iterator
      gives that iterator back. */
  lemma IterAtPathOf(s: seq<Node>, stamp: Guint, it: Iter)
    requires |s| <= MaxGint
    requires PathOf(s, stamp, it).Some?
    ensures IterAt(s, stamp, PathOf(s, stamp, it).value) == Some(it)
  {
  }

  /** iter_next: an iterator of another stamp is refused and left as it is;
      otherwise it moves to the following node and succeeds unless it ran off
      the end. */
  function NextOf(s: seq<Node>, stamp: Guint, it: Iter): (r: (bool, Iter))
    requires it.stamp == stamp ==> it.node in s
    ensures it.stamp != stamp ==> r == (false, it)
    ensures r.1.stamp == it.stamp
    ensures it.stamp == stamp ==> (r.0 <==> r.1.node != null)
  {
    if it.stamp != stamp then (false, it)
    else
      var i := IndexOf(s, it.node).value;
      var next: Node? := if i + 1 < |s| then s[i + 1] else null;
      (next != null, it.(node := next))
  }

  /** Advancing the iterator for row i gives the iterator for row i + 1, and
      fails exactly at the last row. */
  lemma NextAdvances(s: seq<Node>, stamp: Guint, i: nat)
    requires Distinct(s) && i < |s|
    ensures NextOf(s, stamp, Iter(stamp, s[i])).0 <==> i + 1 < |s|
    ensures i + 1 < |s| ==> NextOf(s, stamp, Iter(stamp, s[i])).1 == Iter(stamp, s[i + 1])
  {
    IndexOfDistinct(s, i);
  }

  /** The number of rows a view visits when it starts at the iterator `it` of
      a row and calls iter_next on the iterator it gets back until that
      returns false. */
  function RowsVisited(s: seq<Node>, stamp: Guint, it: Iter): (r: nat)
    requires Distinct(s) && it.stamp == stamp && it.node in s
    decreases |s| - IndexOf(s, it.node).value
  {
    var i := IndexOf(s, it.node).value;
    NextAdvances(s, stamp, i);
    var (ok, next) := NextOf(s, stamp, it);
    if ok then
      IndexOfDistinct(s, i + 1);
      1 + RowsVisited(s, stamp, next)
    else 1
  }

  /** iter_children: only the root level has children; its first child is the
      head of a non-empty chain. */
  function FirstChild(s: seq<Node>, stamp: Guint, parent: Option<Iter>): (r: Option<Iter>)
    ensures r.Some? <==> parent.None? && |s| > 0
    ensures r.Some? ==> r.value == Iter(stamp, s[0])
  {
    if parent.Some? then None
    else if |s| == 0 then None
    else Some(Iter(stamp, s[0]))
  }

  /** Walking the whole list with iter_children and iter_next visits as many
      rows as iter_n_children reports for the root. */
  lemma {:induction false} WalkVisitsAllRows(s: seq<Node>, stamp: Guint, i: nat)
    requires Distinct(s) && i < |s|
    ensures RowsVisited(s, stamp, Iter(stamp, s[i])) == |s| - i
    decreases |s| - i
  {
    IndexOfDistinct(s, i);
    NextAdvances(s, stamp, i);
    if i + 1 < |s| {
      WalkVisitsAllRows(s, stamp, i + 1);
    }
  }

  /** iter_n_children: the root has one child per row, a row has none. */
  function NChildren(s: seq<Node>, parent: Option<Iter>): (r: Gint)
    requires |s| <= MaxGint
    ensures parent.None? ==> r == |s|
    ensures parent.Some? ==> r == 0
  {
    if parent.None? then |s| else 0
  }

  /** iter_has_child: no row has children. */
  function HasChild(it: Iter): (r: bool)
    ensures !r
  {
    false
  }

  /** iter_parent: no row has a parent. */
  function ParentOf(child: Iter): (r: Option<Iter>)
    ensures r.None?
  {
    None
  }

  /** iter_nth_child: refused under a row; at the root the walk takes n steps
      from the head, so a negative n stays at the head. */
  function NthChild(s: seq<Node>, stamp: Guint, parent: Option<Iter>, n: Gint): (r: Option<Iter>)
    ensures parent.Some? ==> r.None?
    ensures parent.None? && n < 0 ==> r == FirstChild(s, stamp, None)
  {
    if parent.Some? then None
    else
      var steps := if n < 0 then 0 else n;
      if steps < |s| then Some(Iter(stamp, s[steps])) else None
  }

  /** At the root, iter_nth_child with a non-negative n finds the same row as
      get_iter with the path [n], and fails exactly when n is past the end. */
  lemma NthChildIsIterAt(s: seq<Node>, stamp: Guint, n: Gint)
    requires |s| <= MaxGint && 0 <= n
    ensures NthChild(s, stamp, None, n) == IterAt(s, stamp, [n])
    ensures NthChild(s, stamp, None, n).Some? <==> n < |s|
  {
  }

  /** The flags agree with the navigation functions: the model is a flat
      list. */
  lemma ListOnlyHonoured(s: seq<Node>, stamp: Guint, it: Iter, n: Gint)
    requires |s| <= MaxGint
    ensures GetFlags().listOnly
    ensures !HasChild(it) && ParentOf(it).None? && NChildren(s, Some(it)) == 0
    ensures FirstChild(s, stamp, Some(it)).None? && NthChild(s, stamp, Some(it), n).None?
  {
  }

  /** iter_for_file: the position of the first node holding `f`. */
  function FirstWithFile(s: seq<Node>, f: File): (r: Option<nat>)
    ensures r.Some? <==> exists k :: 0 <= k < |s| && s[k].file == Some(f)
    ensures r.Some? ==> r.value < |s| && s[r.value].file == Some(f)
    ensures r.Some? ==> forall j :: 0 <= j < r.value ==> s[j].file != Some(f)
  {
    if s == [] then None
    else if s[0].file == Some(f) then Some(0)
    else match FirstWithFile(s[1..], f)
      case None => None
      case Some(k) => Some(k + 1)
  }

  /** The iterator found for a file has as path the position of the first row
      holding that file. */
  lemma FirstWithFilePath(s: seq<Node>, stamp: Guint, f: File)
    requires Distinct(s) && |s| <= MaxGint
    requires FirstWithFile(s, f).Some?
    ensures PathOf(s, stamp, Iter(stamp, s[FirstWithFile(s, f).value]))
         == Some([FirstWithFile(s, f).value])
  {
    IndexOfDistinct(s, FirstWithFile(s, f).value);
  }

  /** file_changed: one notification per node from position `from` on whose
      file is `f`, in list order. */
  function ChangedRows(s: seq<Node>, stamp: Guint, f: File, from: nat): seq<RowChanged>
    requires from <= |s| <= MaxGint
    decreases |s| - from
  {
    if from == |s| then []
    else
      (if s[from].file == Some(f) then [RowChanged([from], Iter(stamp, s[from]))] else [])
      + ChangedRows(s, stamp, f, from + 1)
  }

  /** A notification reports row k at or after `from`, which holds `f`: it
      carries the path [k] and an iterator for that row. */
  ghost predicate ReportsRow(s: seq<Node>, stamp: Guint, f: File, from: nat, r: RowChanged)
  {
    |r.path| == 1 && from <= r.path[0] < |s|
    && s[r.path[0]].file == Some(f)
    && r.iter == Iter(stamp, s[r.path[0]])
  }

  lemma ChangedRowsUnfold(s: seq<Node>, stamp: Guint, f: File, from: nat)
    requires from < |s| <= MaxGint
    ensures ChangedRows(s, stamp, f, from)
         == (if s[from].file == Some(f) then [RowChanged([from], Iter(stamp, s[from]))] else [])
            + ChangedRows(s, stamp, f, from + 1)
  {
  }

  /** Every notification of file_changed is for a row holding the file and
      carries that row's position and an iterator for it; so no separator row
      is ever reported. */
  lemma {:induction false} ChangedRowsSound(s: seq<Node>, stamp: Guint, f: File, from: nat)
    requires from <= |s| <= MaxGint
    ensures forall r :: r in ChangedRows(s, stamp, f, from) ==> ReportsRow(s, stamp, f, from, r)
    decreases |s| - from
  {
    if from < |s| {
      ChangedRowsSound(s, stamp, f, from + 1);
      ChangedRowsUnfold(s, stamp, f, from);
    }
  }

  /** Every row from position `from` on that holds the file is reported. */
  lemma {:induction false} ChangedRowsComplete(s: seq<Node>, stamp: Guint, f: File, from: nat, k: nat)
    requires from <= k < |s| <= MaxGint && s[k].file == Some(f)
    ensures RowChanged([k], Iter(stamp, s[k])) in ChangedRows(s, stamp, f, from)
    decreases k - from
  {
    ChangedRowsUnfold(s, stamp, f, from);
    if k > from {
      ChangedRowsComplete(s, stamp, f, from + 1, k);
    }
  }

  /** The row a notification is for: the first index of its path. */
  function Position(r: RowChanged): int
  {
    if |r.path| == 0 then -1 else r.path[0]
  }

  /** Notifications in strictly increasing row order. */
  ghost predicate Increasing(rows: seq<RowChanged>)
  {
    forall i, j :: 0 <= i < j < |rows| ==> Position(rows[i]) < Position(rows[j])
  }

  lemma IncreasingPrepend(r: RowChanged, rest: seq<RowChanged>)
    requires Increasing(rest)
    requires forall x :: x in rest ==> Position(r) < Position(x)
    ensures Increasing([r] + rest)
  {
    var rows := [r] + rest;
    forall i, j | 0 <= i < j < |rows|
      ensures Position(rows[i]) < Position(rows[j])
    {
      assert rows[j] == rest[j - 1];
      if i > 0 {
        assert rows[i] == rest[i - 1];
      }
    }
  }

  /** The notifications come in increasing row order, so no row is reported
      twice. */
  lemma {:induction false} ChangedRowsOrdered(s: seq<Node>, stamp: Guint, f: File, from: nat)
    requires from <= |s| <= MaxGint
    ensures Increasing(ChangedRows(s, stamp, f, from))
    decreases |s| - from
  {
    if from < |s| {
      ChangedRowsOrdered(s, stamp, f, from + 1);
      ChangedRowsSound(s, stamp, f, from + 1);
      ChangedRowsUnfold(s, stamp, f, from);
      if s[from].file == Some(f) {
        IncreasingPrepend(RowChanged([from], Iter(stamp, s[from])), ChangedRows(s, stamp, f, from + 1));
      }
    }
  }
}
