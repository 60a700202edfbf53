/** The rows the favourites list starts with
    (thunar/thunar-favourites-model.c:132-240), as a function of which
    lookups succeeded. Each line of the bookmarks file is given as the outcome
    of parsing it as a URI and resolving it to a file: `None` when either step
    failed. */
module Construction {
  import opened Base
  import opened Columns

  /** Fixed labels of the two special roots. */
  const HomeName: string := "Home"
  const FilesystemName: string := "Filesystem"

  /** The number of bookmark lines that resolved to a file. */
  function NumResolved(lines: seq<Option<File>>): nat
  {
    if lines == [] then 0
    else NumResolved(lines[..|lines| - 1]) + (if lines[|lines| - 1].Some? then 1 else 0)
  }

  /** The rows the bookmark loop appends, line after line: a resolved line adds
      one row holding its file and no label, any other line adds nothing. */
  function BookmarkEntries(lines: seq<Option<File>>): (r: seq<Entry>)
    ensures |r| == NumResolved(lines)
    ensures forall k :: 0 <= k < |r| ==> r[k].file.Some? && r[k].specialName.None?
  {
    if lines == [] then []
    else
      var last := lines[|lines| - 1];
      BookmarkEntries(lines[..|lines| - 1]) + (if last.Some? then [Entry(last, None)] else [])
  }

  /** Resolving one more line extends the bookmark rows by that line's row. */
  lemma BookmarkEntriesSnoc(lines: seq<Option<File>>, line: Option<File>)
    ensures BookmarkEntries(lines + [line])
         == BookmarkEntries(lines) + (if line.Some? then [Entry(line, None)] else [])
  {
    assert (lines + [line])[..|lines|] == lines;
  }

  /** A resolved line i becomes the row at the position equal to the number of
      resolved lines before it. */
  lemma {:induction false} BookmarkPosition(lines: seq<Option<File>>, i: nat)
    requires i < |lines| && lines[i].Some?
    ensures NumResolved(lines[..i]) < |BookmarkEntries(lines)|
    ensures BookmarkEntries(lines)[NumResolved(lines[..i])] == Entry(lines[i], None)
  {
    var init := lines[..|lines| - 1];
    if i < |lines| - 1 {
      assert init[..i] == lines[..i];
      BookmarkPosition(init, i);
    } else {
      assert lines[..i] == init;
    }
  }

  /** Counting resolved lines over a longer prefix never gives less, and a
      resolved line in between counts once more. */
  lemma {:induction false} NumResolvedPrefix(lines: seq<Option<File>>, i: nat, j: nat)
    requires i <= j <= |lines|
    ensures NumResolved(lines[..i]) <= NumResolved(lines[..j])
    ensures i < j && lines[i].Some? ==> NumResolved(lines[..i]) < NumResolved(lines[..j])
  {
    if i < j {
      var p := lines[..j];
      assert p[..j - 1] == lines[..j - 1];
      NumResolvedPrefix(lines, i, j - 1);
      if i == j - 1 {
        assert lines[..i] == p[..j - 1];
      }
    }
  }

  /** Rows of resolved lines keep the order of the lines in the file. */
  lemma BookmarkOrder(lines: seq<Option<File>>, i: nat, j: nat)
    requires i < j < |lines| && lines[i].Some? && lines[j].Some?
    ensures NumResolved(lines[..i]) < NumResolved(lines[..j])
  {
    NumResolvedPrefix(lines, i, j);
  }

  /** Every bookmark row comes from a resolved line. */
  lemma {:induction false} BookmarkOrigin(lines: seq<Option<File>>, k: nat)
    requires k < |BookmarkEntries(lines)|
    ensures exists i :: 0 <= i < |lines| && lines[i].Some? && NumResolved(lines[..i]) == k
  {
    var n := |lines| - 1;
    var init := lines[..n];
    assert lines[..n] == init;
    if k < |BookmarkEntries(init)| {
      BookmarkOrigin(init, k);
      var i :| 0 <= i < |init| && init[i].Some? && NumResolved(init[..i]) == k;
      assert init[..i] == lines[..i];
    } else {
      assert lines[n].Some? && NumResolved(lines[..n]) == k;
    }
  }

  /** The list built by the initialiser: Home (when the home directory
      resolved), Filesystem (when "/" resolved), the separator, then the
      bookmark rows. */
  function InitialEntries(lines: seq<Option<File>>, root: Option<File>, home: Option<File>): seq<Entry>
  {
    (if home.Some? then [Entry(home, Some(HomeName))] else [])
    + (if root.Some? then [Entry(root, Some(FilesystemName))] else [])
    + [Separator]
    + BookmarkEntries(lines)
  }

  /** Position of the separator row in the initial list. */
  function SeparatorIndex(root: Option<File>, home: Option<File>): nat
  {
    (if home.Some? then 1 else 0) + (if root.Some? then 1 else 0)
  }

  /** Shape of the initial list: the special roots come first, then the
      separator, then one row per resolved bookmark line and nothing else. */
  lemma InitialLayout(lines: seq<Option<File>>, root: Option<File>, home: Option<File>)
    ensures var s := InitialEntries(lines, root, home);
      var sep := SeparatorIndex(root, home);
      && |s| == sep + 1 + NumResolved(lines)
      && (home.Some? ==> s[0] == Entry(home, Some(HomeName)))
      && (root.Some? ==> s[sep - 1] == Entry(root, Some(FilesystemName)))
      && s[sep] == Separator
      && s[sep + 1..] == BookmarkEntries(lines)
  {
  }

  /** After initialisation exactly one row is a separator, and it is the only
      row the name column shows no name for. */
  lemma SeparatorUnique(lines: seq<Option<File>>, root: Option<File>, home: Option<File>,
                        k: nat, displayName: File -> string,
                        loadIcon: (File, int) -> Option<Pixbuf>)
    requires k < |InitialEntries(lines, root, home)|
    ensures var e := InitialEntries(lines, root, home)[k];
      && (ValueOf(e, ColumnSeparator, displayName, loadIcon).flag <==> k == SeparatorIndex(root, home))
      && (ValueOf(e, ColumnName, displayName, loadIcon).text.None? <==> k == SeparatorIndex(root, home))
  {
    var s := InitialEntries(lines, root, home);
    var sep := SeparatorIndex(root, home);
    InitialLayout(lines, root, home);
    if k > sep {
      assert s[k] == BookmarkEntries(lines)[k - sep - 1];
    }
  }

  /** An empty or missing bookmarks file leaves exactly the three fixed rows. */
  lemma EmptyBookmarksFile(root: File, home: File)
    ensures InitialEntries([], Some(root), Some(home))
         == [Entry(Some(home), Some(HomeName)), Entry(Some(root), Some(FilesystemName)), Separator]
  {
  }

  /** A line that fails to resolve adds no row and the lines around it are
      kept in order. */
  lemma UnresolvedLineSkipped(before: seq<Option<File>>, after: seq<Option<File>>)
    ensures BookmarkEntries(before + [None] + after) == BookmarkEntries(before + after)
  {
    BookmarkEntriesAppend(before + [None], after);
    BookmarkEntriesAppend(before, after);
    BookmarkEntriesSnoc(before, None);
  }

  /** Bookmark rows of two runs of lines are the rows of each run in turn. */
  lemma {:induction false} BookmarkEntriesAppend(a: seq<Option<File>>, b: seq<Option<File>>)
    ensures BookmarkEntries(a + b) == BookmarkEntries(a) + BookmarkEntries(b)
  {
    if b == [] {
      assert a + b == a;
    } else {
      var n := |b| - 1;
      assert (a + b)[..|a + b| - 1] == a + b[..n];
      BookmarkEntriesAppend(a, b[..n]);
    }
  }
}
