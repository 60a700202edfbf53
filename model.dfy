/** The favourites list model itself (thunar/thunar-favourites-model.c:87-101):
    a stamp, a row count and the head of a singly linked chain of nodes. The
    ghost sequence `nodes` lists the chain in link order; every method is
    proved to compute what the functions of module Chain compute over it. */
module FavouritesModel {
  import opened Base
  import opened Columns
  import opened Construction
  import opened Chain

  class Model {
    /** Stamp given to every iterator this model issues. */
    const stamp: Guint
    /** n_favourites: the number of rows. */
    var count: nat
    /** favourites: the first node of the chain, or null. */
    var head: Node?
    /** The nodes reachable from `head`, in link order. */
    ghost var nodes: seq<Node>

    /** The chain starts at `head`, links each node to the one after it, ends
        with null, has no node twice, and has `count` nodes; the count fits
        the signed row count the interface reports. */
    ghost predicate Valid()
      reads this, nodes
    {
      && count == |nodes| && count <= MaxGint
      && head == (if nodes == [] then null else nodes[0])
      && (forall i {:trigger nodes[i].next} :: 0 <= i < |nodes| ==>
            nodes[i].next == (if i + 1 < |nodes| then nodes[i + 1] else null))
      && Distinct(nodes)
    }

    /** What the rows show, in order. */
    ghost function Entries(): seq<Entry>
      reads this
    {
      var ns := nodes;
      seq(|ns|, i requires 0 <= i < |ns| => EntryOf(ns[i]))
    }

    /** thunar_favourites_model_init: append one row per resolved bookmark
        line, then prepend the separator, the Filesystem row (when "/"
        resolved) and the Home row (when the home directory resolved). */
    constructor (stamp: Guint, lines: seq<Option<File>>, root: Option<File>, home: Option<File>)
      requires |lines| + 3 <= MaxGint
      ensures Valid() && this.stamp == stamp
      ensures forall i :: 0 <= i < |nodes| ==> fresh(nodes[i])
      ensures Entries() == InitialEntries(lines, root, home)
    {
      this.stamp := stamp;
      count := 0;
      head := null;
      nodes := [];
      new;
      for i := 0 to |lines|
        invariant Valid() && count <= i
        invariant forall j :: 0 <= j < |nodes| ==> fresh(nodes[j])
        invariant Entries() == BookmarkEntries(lines[..i])
      {
        assert lines[..i + 1] == lines[..i] + [lines[i]];
        BookmarkEntriesSnoc(lines[..i], lines[i]);
        if lines[i].Some? {
          AppendBookmark(lines[i].value);
        }
      }
      assert lines[..|lines|] == lines;
      Prepend(None, None);
      if root.Some? {
        Prepend(root, Some(FilesystemName));
      }
      if home.Some? {
        Prepend(home, Some(HomeName));
      }
    }

    /** Append a bookmark row at the tail, walking the chain to its last node.
        Existing rows keep their nodes and order. */
    method AppendBookmark(file: File)
      requires Valid() && count < MaxGint
      modifies this, nodes
      ensures Valid()
      ensures |nodes| == |old(nodes)| + 1 && nodes[..|old(nodes)|] == old(nodes)
      ensures fresh(nodes[|old(nodes)|])
      ensures count == old(count) + 1
      ensures Entries() == old(Entries()) + [Entry(Some(file), None)]
    {
      var favourite := new Node(Some(file), None, null);
      if head == null {
        head := favourite;
      } else {
        var current := LastNode();
        current.next := favourite;
      }
      nodes := nodes + [favourite];
      count := count + 1;
    }

    /** The tail of a non-empty chain: the first node whose link is null. */
    method LastNode() returns (last: Node)
      requires Valid() && head != null
      ensures last == nodes[|nodes| - 1] && last.next == null
    {
      last := head;
      ghost var k := 0;
      while last.next != null
        invariant 0 <= k < |nodes| && last == nodes[k]
        decreases |nodes| - k
      {
        last := last.next;
        k := k + 1;
      }
    }

    /** Prepend a row at the head. */
    method Prepend(file: Option<File>, specialName: Option<string>)
      requires Valid() && count < MaxGint
      modifies this
      ensures Valid()
      ensures |nodes| == |old(nodes)| + 1 && nodes[1..] == old(nodes) && fresh(nodes[0])
      ensures count == old(count) + 1
      ensures Entries() == [Entry(file, specialName)] + old(Entries())
    {
      var favourite := new Node(file, specialName, head);
      head := favourite;
      nodes := [favourite] + nodes;
      count := count + 1;
    }

    /** get_iter: `iter` is written only on success. */
    method GetIter(iter: Iter, path: seq<Gint>) returns (ok: bool, result: Iter)
      requires Valid()
      ensures ok == IterAt(nodes, stamp, path).Some?
      ensures result == if ok then IterAt(nodes, stamp, path).value else iter
    {
      if |path| == 0 {
        return false, iter;
      }
      var index: int := path[0];
      if ToUnsigned(index) >= count {
        return false, iter;
      }
      var favourite := head;
      ghost var k := 0;
      while index > 0
        invariant 0 <= index && k + index == path[0]
        invariant k < |nodes| && favourite == nodes[k]
      {
        favourite := favourite.next;
        index := index - 1;
        k := k + 1;
      }
      return true, Iter(stamp, favourite);
    }

    /** get_path: a linear scan from the head for the iterator's node. */
    method GetPath(it: Iter) returns (path: Option<seq<Gint>>)
      requires Valid()
      ensures path == PathOf(nodes, stamp, it)
    {
      if it.stamp != stamp {
        return None;
      }
      var favourite := head;
      var index := 0;
      while favourite != null && favourite != it.node
        invariant 0 <= index <= |nodes|
        invariant favourite == if index < |nodes| then nodes[index] else null
        invariant forall j :: 0 <= j < index ==> nodes[j] != it.node
        decreases |nodes| - index
      {
        favourite := favourite.next;
        index := index + 1;
      }
      if favourite == null {
        return None;
      }
      return Some([index]);
    }

    /** get_value: nothing is produced for an iterator of another stamp; the
        column number must be in range and the iterator must point at a node. */
    method GetValue(it: Iter, column: Gint, displayName: File -> string,
                    loadIcon: (File, int) -> Option<Pixbuf>) returns (v: Option<Value>)
      requires Valid()
      requires 0 <= column < NColumns
      requires it.stamp == stamp ==> it.node != null
      ensures it.stamp != stamp ==> v.None?
      ensures it.stamp == stamp ==> v == Some(ValueOf(EntryOf(it.node), column, displayName, loadIcon))
    {
      if it.stamp != stamp {
        return None;
      }
      var favourite := it.node;
      return Some(ValueOf(Entry(favourite.file, favourite.specialName), column, displayName, loadIcon));
    }

    /** iter_next: overwrite the iterator's node with the following one. */
    method IterNext(it: Iter) returns (ok: bool, result: Iter)
      requires Valid()
      requires it.stamp == stamp ==> it.node in nodes
      ensures (ok, result) == NextOf(nodes, stamp, it)
    {
      if it.stamp != stamp {
        return false, it;
      }
      result := it.(node := it.node.next);
      ok := result.node != null;
    }

    /** iter_children: `iter` is written only on success. */
    method IterChildren(iter: Iter, parent: Option<Iter>) returns (ok: bool, result: Iter)
      requires Valid()
      ensures ok == FirstChild(nodes, stamp, parent).Some?
      ensures result == if ok then FirstChild(nodes, stamp, parent).value else iter
    {
      if parent.Some? {
        return false, iter;
      }
      if head != null {
        return true, Iter(stamp, head);
      }
      return false, iter;
    }

    /** iter_n_children: the stored count at the root, 0 under a row. */
    function IterNChildren(parent: Option<Iter>): (r: Gint)
      reads this, nodes
      requires Valid()
      ensures r == NChildren(nodes, parent)
    {
      if parent.None? then count else 0
    }

    /** iter_nth_child: walk n steps from the head; `iter` is written only on
        success. */
    method IterNthChild(iter: Iter, parent: Option<Iter>, n: Gint) returns (ok: bool, result: Iter)
      requires Valid()
      ensures ok == NthChild(nodes, stamp, parent, n).Some?
      ensures result == if ok then NthChild(nodes, stamp, parent, n).value else iter
    {
      if parent.Some? {
        return false, iter;
      }
      var favourite := head;
      var m: int := n;
      ghost var k := 0;
      while favourite != null && m > 0
        invariant 0 <= k <= |nodes|
        invariant favourite == if k < |nodes| then nodes[k] else null
        invariant m == n - k
        invariant n < 0 ==> k == 0
        invariant 0 <= n ==> 0 <= m
        decreases |nodes| - k
      {
        m := m - 1;
        favourite := favourite.next;
        k := k + 1;
      }
      if favourite != null {
        return true, Iter(stamp, favourite);
      }
      return false, iter;
    }

    /** file_changed: one row-changed notification, in list order, for every
        node whose file is `f`. */
    method FileChanged(f: File) returns (rows: seq<RowChanged>)
      requires Valid()
      ensures rows == ChangedRows(nodes, stamp, f, 0)
    {
      rows := [];
      var favourite := head;
      var n := 0;
      while favourite != null
        invariant 0 <= n <= |nodes|
        invariant favourite == if n < |nodes| then nodes[n] else null
        invariant rows + ChangedRows(nodes, stamp, f, n) == ChangedRows(nodes, stamp, f, 0)
        decreases |nodes| - n
      {
        ChangedRowsUnfold(nodes, stamp, f, n);
        ghost var before := rows;
        if favourite.file == Some(f) {
          rows := rows + [RowChanged([n], Iter(stamp, favourite))];
          assert rows + ChangedRows(nodes, stamp, f, n + 1)
              == before + ([RowChanged([n], Iter(stamp, favourite))] + ChangedRows(nodes, stamp, f, n + 1));
        }
        favourite := favourite.next;
        n := n + 1;
      }
    }

    /** thunar_favourites_model_iter_for_file: the iterator of the first row
        holding `f`; `iter` is left unchanged when there is none. */
    method IterForFile(f: File, iter: Iter) returns (found: bool, result: Iter)
      requires Valid()
      ensures found == FirstWithFile(nodes, f).Some?
      ensures result == if found then Iter(stamp, nodes[FirstWithFile(nodes, f).value]) else iter
    {
      var favourite := head;
      ghost var k := 0;
      while favourite != null
        invariant 0 <= k <= |nodes|
        invariant favourite == if k < |nodes| then nodes[k] else null
        invariant forall j :: 0 <= j < k ==> nodes[j].file != Some(f)
        decreases |nodes| - k
      {
        if favourite.file == Some(f) {
          return true, Iter(stamp, favourite);
        }
        favourite := favourite.next;
        k := k + 1;
      }
      return false, iter;
    }
  }
}
