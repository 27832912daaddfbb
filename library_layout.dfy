/** The values MovieLibrariesViewModel works with, the reference definitions of
    its two computations (the "movies" filter and the grid layout of
    calculateRows), and what is proved about them. */
module LibraryLayout {
  import opened Wrappers

  /** A library summary as the media server returns it. Only its identity and
      its collection-type tag matter to the view model. */
  datatype Library = Library(id: string, collectionType: Option<string>)

  /** One grid cell: a real cell carries a library, the loading placeholder
      carries none and has `loadingCell` set. */
  datatype LibraryRowCell = LibraryRowCell(item: Option<Library>, loadingCell: bool)

  /** One grid row: its position among the rows and its cells. */
  datatype LibraryRow = LibraryRow(section: int, items: seq<LibraryRowCell>)

  /** The collection-type tag of a movie library. */
  const MoviesCollectionType: string := "movies"

  /** The placeholder appended to the last row while more pages remain. */
  const LoadingCell: LibraryRowCell := LibraryRowCell(None, true)

  predicate IsMovies(library: Library) {
    library.collectionType == Some(MoviesCollectionType)
  }

  /** The cell built for a library, `LibraryRowCell(item: library)`. */
  function ItemCell(library: Library): (cell: LibraryRowCell) {
    LibraryRowCell(Some(library), false)
  }

  // ---------------------------------------------------------------------------
  // The "movies" filter
  // ---------------------------------------------------------------------------

  /** The movie libraries among `items`, in response order. */
  function MovieLibraries(items: seq<Library>): (movies: seq<Library>)
    ensures |movies| <= |items|
    ensures forall x :: x in movies ==> x in items && IsMovies(x)
  {
    if items == [] then []
    else
      var rest := MovieLibraries(items[..|items| - 1]);
      var last := items[|items| - 1];
      if IsMovies(last) then rest + [last] else rest
  }

  /** The filter keeps response order: filtering a concatenation is the
      concatenation of the filtered parts. */
  lemma {:induction false} MovieLibrariesConcat(a: seq<Library>, b: seq<Library>)
    ensures MovieLibraries(a + b) == MovieLibraries(a) + MovieLibraries(b)
    decreases |b|
  {
    if b == [] {
      assert a + b == a;
    } else {
      var b' := b[..|b| - 1];
      assert (a + b)[..|a + b| - 1] == a + b';
      assert (a + b)[|a + b| - 1] == b[|b| - 1];
      MovieLibrariesConcat(a, b');
    }
  }

  /** Nothing is dropped or duplicated: every movie library occurs in the
      result exactly as often as in the response, every other library not at all. */
  lemma {:induction false} MovieLibrariesCount(items: seq<Library>, x: Library)
    ensures multiset(MovieLibraries(items))[x] == if IsMovies(x) then multiset(items)[x] else 0
    decreases |items|
  {
    if items != [] {
      var init := items[..|items| - 1];
      var last := items[|items| - 1];
      assert items == init + [last];
      MovieLibrariesCount(init, x);
    }
  }

  // ---------------------------------------------------------------------------
  // The grid layout
  // ---------------------------------------------------------------------------

  /** One past the index of the last library of row `i`: the row's natural end,
      cut back to the number of libraries. */
  function RowEnd(n: nat, columns: nat, i: nat): (end: nat) {
    if i * columns + columns > n then n else i * columns + columns
  }

  /** For every row the loop visits, the slice bounds are in range; every row
      before the last is full and the last holds the remainder. */
  lemma RowBounds(n: nat, columns: nat, i: nat)
    requires columns > 0 && i <= n / columns
    ensures 0 <= i * columns <= RowEnd(n, columns, i) <= n
    ensures i < n / columns ==> RowEnd(n, columns, i) == i * columns + columns
    ensures i == n / columns ==> RowEnd(n, columns, i) - i * columns == n % columns
  {
    var q, r := n / columns, n % columns;
    assert n == q * columns + r;
    MulMonotonic(i, q, columns);
    if i < q {
      MulMonotonic(i + 1, q, columns);
    }
  }

  /** Multiplying by a natural number keeps the order. A hint for the solver,
      which does not find this nonlinear step on its own inside RowBounds. */
  lemma MulMonotonic(a: nat, b: nat, c: nat)
    requires a <= b
    ensures a * c <= b * c
  {
  }

  /** The real cells for a slice of libraries, in order. */
  function ItemCells(libraries: seq<Library>): (cells: seq<LibraryRowCell>) {
    seq(|libraries|, j requires 0 <= j < |libraries| => ItemCell(libraries[j]))
  }

  /** Row `i` as calculateRows builds it: the cells of the libraries
      `i * columns` up to `RowEnd`, then the loading placeholder if this is the
      last row and more pages remain. */
  function RowAt(libraries: seq<Library>, columns: nat, hasNextPage: bool, i: nat): (row: LibraryRow)
    requires columns > 0 && i <= |libraries| / columns
    ensures row.section == i
  {
    RowBounds(|libraries|, columns, i);
    var cells := ItemCells(libraries[i * columns .. RowEnd(|libraries|, columns, i)]);
    LibraryRow(i, if i == |libraries| / columns && hasNextPage then cells + [LoadingCell] else cells)
  }

  /** The rows calculateRows returns. None for no libraries; otherwise one row
      more than the number of full rows, so when `columns` divides the number of
      libraries the last row holds no library. */
  function Rows(libraries: seq<Library>, columns: nat, hasNextPage: bool): (rows: seq<LibraryRow>)
    requires columns > 0
    ensures |rows| == if |libraries| == 0 then 0 else |libraries| / columns + 1
    ensures forall k :: 0 <= k < |rows| ==> rows[k].section == k
  {
    if |libraries| == 0 then []
    else seq(|libraries| / columns + 1,
             i requires 0 <= i <= |libraries| / columns => RowAt(libraries, columns, hasNextPage, i))
  }

  /** Row `i` of the layout is the row calculateRows builds in iteration `i`.
      A hint for the solver: it unfolds the comprehension in `Rows` once, so
      that the lemmas below need not. */
  lemma RowOfRows(libraries: seq<Library>, columns: nat, hasNextPage: bool, i: nat)
    requires columns > 0 && 0 < |libraries| && i <= |libraries| / columns
    ensures Rows(libraries, columns, hasNextPage)[i] == RowAt(libraries, columns, hasNextPage, i)
  {
  }

  /** The cells of row `i`: one real cell per library of its slice, in order,
      then the placeholder on the last row when more pages remain. */
  lemma RowAtCells(libraries: seq<Library>, columns: nat, hasNextPage: bool, i: nat)
    requires columns > 0 && i <= |libraries| / columns
    ensures var first, last := i * columns, RowEnd(|libraries|, columns, i);
            var row := RowAt(libraries, columns, hasNextPage, i);
            && first <= last <= |libraries|
            && |row.items| == last - first + (if i == |libraries| / columns && hasNextPage then 1 else 0)
            && (forall j :: 0 <= j < last - first ==> row.items[j] == ItemCell(libraries[first + j]))
  {
    RowBounds(|libraries|, columns, i);
  }

  /** Row `k` of the layout: how many real cells it holds, which libraries they
      carry, and whether a placeholder follows them. */
  lemma RowLayout(libraries: seq<Library>, columns: nat, hasNextPage: bool, k: nat)
    requires columns > 0
    requires 0 < |libraries| && k <= |libraries| / columns
    ensures var rows := Rows(libraries, columns, hasNextPage);
            var last := k == |libraries| / columns;
            var m := if last then |libraries| % columns else columns;
            && m <= columns
            && k * columns + m <= |libraries|
            && |rows[k].items| == m + (if last && hasNextPage then 1 else 0)
            && (forall j :: 0 <= j < m ==> rows[k].items[j] == ItemCell(libraries[k * columns + j]))
  {
    RowOfRows(libraries, columns, hasNextPage, k);
    RowBounds(|libraries|, columns, k);
    RowAtCells(libraries, columns, hasNextPage, k);
  }

  /** The libraries carried by the real cells, in order. */
  function CellLibraries(cells: seq<LibraryRowCell>): (carried: seq<Library>) {
    if cells == [] then []
    else
      var last := cells[|cells| - 1];
      CellLibraries(cells[..|cells| - 1]) + (if last.item.Some? then [last.item.value] else [])
  }

  /** The libraries carried by the real cells of all rows, row by row. */
  function LaidOutLibraries(rows: seq<LibraryRow>): (carried: seq<Library>) {
    if rows == [] then []
    else LaidOutLibraries(rows[..|rows| - 1]) + CellLibraries(rows[|rows| - 1].items)
  }

  /** What the real cells carry distributes over concatenation of cells. */
  lemma {:induction false} CellLibrariesConcat(a: seq<LibraryRowCell>, b: seq<LibraryRowCell>)
    ensures CellLibraries(a + b) == CellLibraries(a) + CellLibraries(b)
    decreases |b|
  {
    if b == [] {
      assert a + b == a;
    } else {
      var b' := b[..|b| - 1];
      assert (a + b)[..|a + b| - 1] == a + b';
      CellLibrariesConcat(a, b');
    }
  }

  /** The real cells built from a slice carry exactly that slice. */
  lemma {:induction false} CellLibrariesOfItemCells(libraries: seq<Library>)
    ensures CellLibraries(ItemCells(libraries)) == libraries
    decreases |libraries|
  {
    if libraries != [] {
      var init := libraries[..|libraries| - 1];
      assert ItemCells(libraries)[..|libraries| - 1] == ItemCells(init);
      CellLibrariesOfItemCells(init);
    }
  }

  /** The libraries a row carries are exactly its slice of `libraries`. */
  lemma RowLibraries(libraries: seq<Library>, columns: nat, hasNextPage: bool, i: nat)
    requires columns > 0 && i <= |libraries| / columns
    ensures var first, last := i * columns, RowEnd(|libraries|, columns, i);
            && 0 <= first <= last <= |libraries|
            && CellLibraries(RowAt(libraries, columns, hasNextPage, i).items) == libraries[first..last]
  {
    RowBounds(|libraries|, columns, i);
    var slice := libraries[i * columns .. RowEnd(|libraries|, columns, i)];
    CellLibrariesOfItemCells(slice);
    if i == |libraries| / columns && hasNextPage {
      CellLibrariesConcat(ItemCells(slice), [LoadingCell]);
      assert [LoadingCell][..0] == [];
    }
  }

  /** Each row starts where the one before it ends. */
  lemma RowsAreContiguous(n: nat, columns: nat, i: nat)
    requires columns > 0 && 0 < i <= n / columns
    ensures RowEnd(n, columns, i - 1) == i * columns
  {
    RowBounds(n, columns, i - 1);
  }

  /** Appending a row whose real cells carry the next slice of libraries
      extends what the rows carry by that slice. */
  lemma LaidOutAppend(rows: seq<LibraryRow>, i: nat, libraries: seq<Library>, first: nat, end: nat)
    requires i < |rows| && first <= end <= |libraries|
    requires LaidOutLibraries(rows[..i]) == libraries[..first]
    requires CellLibraries(rows[i].items) == libraries[first..end]
    ensures LaidOutLibraries(rows[..i + 1]) == libraries[..end]
  {
    assert rows[..i + 1][..i] == rows[..i];
    assert libraries[..first] + libraries[first..end] == libraries[..end];
  }

  /** The first `k` rows carry the libraries up to the end of row `k - 1`. */
  lemma {:induction false} LaidOutPrefix(libraries: seq<Library>, columns: nat, hasNextPage: bool, k: nat)
    requires columns > 0 && 0 < |libraries| && k <= |libraries| / columns + 1
    ensures var end := if k == 0 then 0 else RowEnd(|libraries|, columns, k - 1);
            && end <= |libraries|
            && LaidOutLibraries(Rows(libraries, columns, hasNextPage)[..k]) == libraries[..end]
  {
    if k > 0 {
      var i := k - 1;
      LaidOutPrefix(libraries, columns, hasNextPage, i);
      if i > 0 {
        RowsAreContiguous(|libraries|, columns, i);
      }
      RowLibraries(libraries, columns, hasNextPage, i);
      RowOfRows(libraries, columns, hasNextPage, i);
      LaidOutAppend(Rows(libraries, columns, hasNextPage), i, libraries,
                    i * columns, RowEnd(|libraries|, columns, i));
    }
  }

  /** Reading the real cells of the layout row by row gives back `libraries`:
      no library is dropped, duplicated or moved. */
  lemma LayoutKeepsLibraries(libraries: seq<Library>, columns: nat, hasNextPage: bool)
    requires columns > 0
    ensures LaidOutLibraries(Rows(libraries, columns, hasNextPage)) == libraries
  {
    var rows := Rows(libraries, columns, hasNextPage);
    var n := |libraries|;
    if n > 0 {
      LaidOutPrefix(libraries, columns, hasNextPage, |rows|);
      RowBounds(n, columns, n / columns);
      assert rows[..|rows|] == rows;
    }
  }

  /** When `columns` divides the number of libraries, the layout still ends
      with one more row, which carries no library: it is empty, or holds only
      the placeholder. */
  lemma ExactMultipleLeavesEmptyRow(libraries: seq<Library>, columns: nat, hasNextPage: bool)
    requires columns > 0 && |libraries| > 0 && |libraries| % columns == 0
    ensures var rows := Rows(libraries, columns, hasNextPage);
            rows[|rows| - 1].items == (if hasNextPage then [LoadingCell] else [])
  {
    RowLayout(libraries, columns, hasNextPage, |libraries| / columns);
  }

  /** Whether some row holds a loading placeholder. */
  predicate HasLoadingCell(rows: seq<LibraryRow>) {
    exists k, j :: 0 <= k < |rows| && 0 <= j < |rows[k].items| && rows[k].items[j].loadingCell
  }

  /** A loading placeholder appears exactly when more pages remain and there is
      a library to show; then it is the one placeholder, carries no library and
      is the last cell of the last row. */
  lemma PlaceholderPlacement(libraries: seq<Library>, columns: nat, hasNextPage: bool)
    requires columns > 0
    ensures var rows := Rows(libraries, columns, hasNextPage);
            && (HasLoadingCell(rows) <==> hasNextPage && |libraries| > 0)
            && (forall k, j :: 0 <= k < |rows| && 0 <= j < |rows[k].items| ==>
                  (rows[k].items[j].loadingCell <==>
                     hasNextPage && k == |rows| - 1 && j == |rows[k].items| - 1))
            && (hasNextPage && |libraries| > 0 ==>
                  rows[|rows| - 1].items != [] &&
                  rows[|rows| - 1].items[|rows[|rows| - 1].items| - 1] == LoadingCell)
  {
    var rows := Rows(libraries, columns, hasNextPage);
    var n := |libraries|;
    forall k, j | 0 <= k < |rows| && 0 <= j < |rows[k].items|
      ensures rows[k].items[j].loadingCell <==>
                hasNextPage && k == |rows| - 1 && j == |rows[k].items| - 1
    {
      RowLayout(libraries, columns, hasNextPage, k);
    }
    if hasNextPage && n > 0 {
      var last := |rows| - 1;
      RowLayout(libraries, columns, hasNextPage, last);
      assert rows[last] == RowAt(libraries, columns, hasNextPage, last);
      assert rows[last].items[|rows[last].items| - 1].loadingCell;
    }
  }
}
