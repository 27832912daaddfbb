/** The view model behind the movie-libraries grid: it keeps the movie
    libraries of the last response and the rows laid out from them. */
module ViewModels {
  import opened Wrappers
  import opened LibraryLayout

  class MovieLibrariesViewModel {
    /** The grid rows the view renders. */
    var rows: seq<LibraryRow>
    /** Whether more pages remain; read when the last row is built, never written here. */
    var hasNextPage: bool
    /** The movie libraries of the last response, in response order. */
    var libraries: seq<Library>
    /** The number of cells per row, fixed at construction. */
    const columns: nat

    constructor (columns: nat := 7)
      requires columns > 0
      ensures this.columns == columns
      ensures rows == [] && libraries == [] && !hasNextPage
    {
      this.columns := columns;
      rows := [];
      hasNextPage := false;
      libraries := [];
    }

    /** Lays `libraries` out in rows of `columns` cells, as the view shows them. */
    method CalculateRows() returns (calculatedRows: seq<LibraryRow>)
      requires columns > 0
      ensures calculatedRows == Rows(libraries, columns, hasNextPage)
    {
      if |libraries| == 0 {
        return [];
      }
      var rowCount := |libraries| / columns;
      calculatedRows := [];
      for i := 0 to rowCount + 1
        invariant |calculatedRows| == i
        invariant forall k :: 0 <= k < i ==> calculatedRows[k] == RowAt(libraries, columns, hasNextPage, k)
      {
        RowBounds(|libraries|, columns, i);
        var firstItemIndex := i * columns;
        var lastItemIndex := firstItemIndex + columns;
        if lastItemIndex > |libraries| {
          lastItemIndex := |libraries|;
        }

        var rowCells := [];
        for j := firstItemIndex to lastItemIndex
          invariant rowCells == ItemCells(libraries[firstItemIndex..j])
        {
          rowCells := rowCells + [ItemCell(libraries[j])];
        }
        if i == rowCount && hasNextPage {
          rowCells := rowCells + [LoadingCell];
        }

        calculatedRows := calculatedRows + [LibraryRow(i, rowCells)];
      }
    }

    /** Takes in a response of the user-views request: keeps its movie
        libraries, then either asks to route to the only one (the result) or
        lays them out in rows. A response without items changes nothing. */
    method ApplyResponse(responseItems: Option<seq<Library>>) returns (routedTo: Option<Library>)
      requires columns > 0
      modifies this`libraries, this`rows
      ensures responseItems.None? ==>
                libraries == old(libraries) && rows == old(rows) && routedTo == None
      ensures responseItems.Some? ==> libraries == MovieLibraries(responseItems.value)
      ensures responseItems.Some? && |libraries| == 1 ==>
                routedTo == Some(libraries[0]) && rows == old(rows)
      ensures responseItems.Some? && |libraries| != 1 ==>
                routedTo == None && rows == Rows(libraries, columns, hasNextPage)
    {
      routedTo := None;
      if responseItems.Some? {
        var items := responseItems.value;
        libraries := [];
        for i := 0 to |items|
          modifies this`libraries
          invariant libraries == MovieLibraries(items[..i])
        {
          assert items[..i + 1][..i] == items[..i];
          if IsMovies(items[i]) {
            libraries := libraries + [items[i]];
          }
        }
        assert items[..|items|] == items;
        if |libraries| == 1 {
          routedTo := Some(libraries[0]);
        } else {
          rows := CalculateRows();
        }
      }
    }
  }
}
