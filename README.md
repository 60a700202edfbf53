# Thunar favourites list model

A Dafny model of the favourites list behind the sidebar of the Thunar file
manager (thunar/thunar-favourites-model.c). The list is a singly linked chain
of favourite nodes. Each node holds a file, an optional fixed label and a link to the next node.
A model object owns the chain, a stamp and the row count `n_favourites`.
The model exposes the chain to the view through the GTK tree-model interface:
flags, column types, iterators, paths, cell values, and row-changed
notifications when a file changes.

The project has five modules:

- `Base` (base.dfy): nullable values, the C `gint`/`guint` widths and the
  signed-to-unsigned conversion `get_iter` relies on, opaque file and icon
  handles.
- `Columns` (columns.dfy): flags, column count, column types, and the value
  a row shows in each column.
- `Construction` (construction.dfy): the rows the initialiser builds, as a
  function of which bookmark lines and special paths resolved to a file.
- `Chain` (chain.dfy): the `Node` class, iterators, and what each tree-model
  operation computes over the chain taken as the sequence of its nodes. The
  lemmas for round trips, walking, lookup and change notification are here.
- `FavouritesModel` (model.dfy): the `Model` class with the real fields
  (`stamp`, `count`, `head`) and a ghost sequence `nodes` of the chain.
  `Valid()` ties `head`, every `next` link and `count` to `nodes`. Every
  operation walks the links as the C code does. It is proved to return what the
  matching `Chain` function returns.

Three behaviours of the code that the model follows:

- `get_iter` compares the signed path index with the unsigned row count, so
  a negative index is rejected as well as one at or past the end.
- `iter_nth_child` with a negative `n` never advances its walk and returns
  the head row.
- `iter_next` on an iterator of another stamp returns false and leaves the
  iterator alone.

## Model

| member | source | states |
|---|---|---|
| Base.ToUnsigned | thunar/thunar-favourites-model.c:352-353 | converting a gint to guint keeps a non-negative value and makes a negative one larger than any gint |
| Columns.GetFlags | thunar/thunar-favourites-model.c:302-306 | the model reports persistent iterators and a flat list |
| Columns.GetNColumns | thunar/thunar-favourites-model.c:310-314 | there are three columns, and the name, icon and separator column numbers are all below the count |
| Columns.GetColumnType | thunar/thunar-favourites-model.c:318-336 | column 0 is a string, 1 a pixbuf, 2 a boolean, each in both directions; other numbers are excluded as the source asserts |
| Columns.ValueOf | thunar/thunar-favourites-model.c:408-438 | every value has the type its column declares; name is the label, else the file's display name, else none; icon is loaded at size 32 only when there is a file; separator is true exactly when there is no file |
| Construction.BookmarkEntries | thunar/thunar-favourites-model.c:152-189 | the bookmark loop adds one row per resolved line, holding its file and no label |
| Construction.BookmarkEntriesSnoc | thunar/thunar-favourites-model.c:157-183 | handling one more line extends the rows by that line's row if it resolved, by nothing otherwise |
| Construction.BookmarkPosition | thunar/thunar-favourites-model.c:152-189 | a resolved line becomes the row whose position is the number of resolved lines before it |
| Construction.BookmarkOrder | thunar/thunar-favourites-model.c:167-183 | rows of resolved lines keep the order of the lines in the file |
| Construction.BookmarkOrigin | thunar/thunar-favourites-model.c:152-189 | every bookmark row comes from some resolved line |
| Construction.UnresolvedLineSkipped | thunar/thunar-favourites-model.c:157-165 | a line that fails to parse or resolve adds no row and does not disturb the others |
| Construction.InitialLayout | thunar/thunar-favourites-model.c:143-239 | initial order is Home (if resolved), Filesystem (if resolved), separator, then the bookmark rows; the length counts exactly these |
| Construction.SeparatorUnique | thunar/thunar-favourites-model.c:195-239 | after initialisation exactly one row has the separator flag, and it is the only row without a name |
| Construction.EmptyBookmarksFile | thunar/thunar-favourites-model.c:148-239 | with no bookmarks and both special paths resolved, the rows are exactly Home, Filesystem, separator |
| Chain.IndexOf | thunar/thunar-favourites-model.c:379-381 | the first position holding a node, found exactly when the node is in the chain |
| Chain.IterAt | thunar/thunar-favourites-model.c:340-363 | get_iter succeeds exactly for a non-empty path whose first index is in 0..count-1, and yields the model's stamp and that row's node |
| Chain.PathOf | thunar/thunar-favourites-model.c:367-389 | get_path fails exactly for a foreign stamp or a node not in the chain; otherwise it gives the one-index path of that node |
| Chain.PathOfIterAt | thunar/thunar-favourites-model.c:352-388 | round trip: for every row i, the path of get_iter([i]) is [i] |
| Chain.IterAtPathOf | thunar/thunar-favourites-model.c:352-388 | round trip: get_iter of the path of a valid iterator gives the iterator back |
| Chain.NextOf | thunar/thunar-favourites-model.c:443-452 | iter_next refuses a foreign stamp and leaves the iterator alone; otherwise it keeps the stamp, moves to the next node, and succeeds exactly when that node exists |
| Chain.NextAdvances | thunar/thunar-favourites-model.c:443-452 | advancing row i's iterator gives row i+1's, and fails exactly at the last row |
| Chain.WalkVisitsAllRows | thunar/thunar-favourites-model.c:443-498 | walking from a row by calling iter_next on the iterator it returns, until it fails, visits every row from there to the end, so from the head it visits as many rows as iter_n_children reports |
| Chain.FirstChild | thunar/thunar-favourites-model.c:456-476 | iter_children succeeds exactly at the root of a non-empty list, giving the head |
| Chain.NChildren | thunar/thunar-favourites-model.c:489-498 | the root has one child per row; a row has none |
| Chain.HasChild | thunar/thunar-favourites-model.c:480-485 | no row has children |
| Chain.ParentOf | thunar/thunar-favourites-model.c:531-537 | no row has a parent |
| Chain.NthChild | thunar/thunar-favourites-model.c:502-527 | iter_nth_child fails under a row; at the root a negative n yields the same as iter_children |
| Chain.NthChildIsIterAt | thunar/thunar-favourites-model.c:502-527 | at the root and for n >= 0, iter_nth_child finds the same row as get_iter([n]) and fails exactly when n is past the end |
| Chain.ListOnlyHonoured | thunar/thunar-favourites-model.c:302-306 | the list-only flag agrees with navigation: no children, no parent, nothing under a row |
| Chain.FirstWithFile | thunar/thunar-favourites-model.c:657-665 | the first position whose node holds the file, found exactly when some node does |
| Chain.FirstWithFilePath | thunar/thunar-favourites-model.c:646-666 | the iterator found for a file has as path the position of the first row holding it |
| Chain.ChangedRowsSound | thunar/thunar-favourites-model.c:575-585 | every row-changed notification is for a node holding the file, with that node's path and iterator; separators are never reported |
| Chain.ChangedRowsComplete | thunar/thunar-favourites-model.c:575-585 | every node holding the file is reported |
| Chain.ChangedRowsOrdered | thunar/thunar-favourites-model.c:575-585 | notifications come in increasing row order, so within one call no row is reported twice |
| FavouritesModel.Model.constructor | thunar/thunar-favourites-model.c:132-240 | initialisation yields a valid chain whose rows are exactly the initial layout and whose stamp is the given one |
| FavouritesModel.Model.AppendBookmark | thunar/thunar-favourites-model.c:167-183 | appending keeps all existing nodes in order, places one fresh node last and adds one to the count |
| FavouritesModel.Model.LastNode | thunar/thunar-favourites-model.c:178-180 | the walk to the tail stops at the last node, whose link is null |
| FavouritesModel.Model.Prepend | thunar/thunar-favourites-model.c:195-232 | prepending puts one fresh node first, keeps the rest, and adds one to the count |
| FavouritesModel.Model.GetIter | thunar/thunar-favourites-model.c:340-363 | walking the links computes IterAt; the caller's iterator is untouched on failure |
| FavouritesModel.Model.GetPath | thunar/thunar-favourites-model.c:367-389 | the linear scan computes PathOf |
| FavouritesModel.Model.GetValue | thunar/thunar-favourites-model.c:393-439 | nothing for a foreign stamp, otherwise the column value of the iterator's node |
| FavouritesModel.Model.IterNext | thunar/thunar-favourites-model.c:443-452 | following the node's link computes NextOf |
| FavouritesModel.Model.IterChildren | thunar/thunar-favourites-model.c:456-476 | computes FirstChild; the caller's iterator is untouched on failure |
| FavouritesModel.Model.IterNChildren | thunar/thunar-favourites-model.c:489-498 | the stored count equals the number of nodes in the chain |
| FavouritesModel.Model.IterNthChild | thunar/thunar-favourites-model.c:502-527 | the bounded walk computes NthChild; the caller's iterator is untouched on failure |
| FavouritesModel.Model.FileChanged | thunar/thunar-favourites-model.c:563-586 | the scan emits exactly the notifications ChangedRows lists, in order |
| FavouritesModel.Model.IterForFile | thunar/thunar-favourites-model.c:646-666 | finds the first node holding the file; the caller's iterator is untouched when there is none |

## Left out

- Reading `~/.gtk-bookmarks` with `fopen`/`fgets`, the 1024-byte line buffer and `g_strstrip` are file I/O. Each line is given as the outcome of resolving it. A line longer than the buffer, which `fgets` splits into several lines, is not modelled.
- `thunar_vfs_uri_new`, `thunar_vfs_uri_new_for_path` and `thunar_file_get_for_uri` belong to the file layer. Their combined outcome is an input: `None` when parsing or resolving failed.
- `thunar_file_get_display_name` and `thunar_file_load_icon` belong to the file layer. They are function parameters of `ValueOf` and `GetValue`.
- `_()` translation of the "Home" and "Filesystem" labels: the untranslated strings are used.
- Signal connection and disconnection for "changed" and "destroy", and the `gtk_tree_model_row_changed` call, are GObject plumbing. `FileChanged` returns the notifications it would emit.
- The "changed" handler is connected once for every row that holds a file (thunar/thunar-favourites-model.c:185-186, 215-216, 234-235). When two rows hold the same file handle, one change of that file runs `file_changed` once per such row, and each run reports every row holding the file. This repetition of whole scans is not modelled: `FileChanged` models one run.
- `thunar_favourites_model_file_destroy` is an empty stub in the source, with nothing to state.
- The drag-and-drop functions `drag_data_received` and `row_drop_possible` are stubs that return false, with nothing to state.
- GObject type registration, `class_init`, the interface tables and `finalize` are boilerplate and manual memory management. Reference counting of files is left out for the same reason.
- `thunar_favourites_model_get_default` is the process-wide singleton and its weak pointer: lifetime plumbing.
- `g_random_int` for the stamp is randomness. The stamp is a constructor parameter.
- The separator is added only under `GTK_CHECK_VERSION(2,6,0)`. The model assumes GTK 2.6 or later.
- The `g_return_val_if_fail` type checks on the model and the file always hold in typed Dafny.
- thunar/thunar-favourites-model.h, which defines the column numbers and their count, is not part of this model. The values 0, 1, 2 and 3 are used.
- thunar/thunar-launcher.h declares only types and accessors, with no logic.
- FavouritesModel.Model.constructor: requires at most 2^31 - 4 bookmark lines. The unsigned `n_favourites` wrap-around and a row count beyond what `iter_n_children` can return as a `gint` are not modelled.
- FavouritesModel.Model.IterNext: requires an iterator with the model's stamp to point at a node of the chain. The source dereferences it without a check.
- FavouritesModel.Model.GetValue: requires a column number in range. The source asserts it, and the case where assertions are compiled out is not modelled. It also requires an iterator with the model's stamp to point at a node. After `iter_next` has run past the last row the iterator's node is null, and the source then dereferences it without a check, which is undefined behaviour.
- FavouritesModel.Model.IterNthChild: the walk counter is an unbounded integer. The source's test `n-- > 0` decrements `n` even when the test fails, so `n` equal to `G_MININT` on a non-empty list overflows a `gint`, which is undefined behaviour in C. The model returns the head row for that input as for any other negative `n`.
- Columns.GetColumnType: requires a column number in range. The `G_TYPE_INVALID` returned after the assertion when assertions are compiled out is not modelled.
