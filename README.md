# Movie libraries grid (Swiftfin `MovieLibrariesViewModel`)

A Dafny model of the view model behind Swiftfin's movie-libraries screen. It
takes the user's views returned by the Jellyfin server and keeps only the
libraries whose collection type is `"movies"`, in response order. When exactly
one such library remains, it asks the router to open it. Otherwise it lays the
libraries out as a grid: rows of `columns` cells (7 by default), with a loading
placeholder at the end of the last row while more pages remain.

Files:

- `wrappers.dfy`: module `Wrappers`, the `Option` type standing for Swift's optionals.
- `library_layout.dfy`: module `LibraryLayout`, which holds the values (`Library`,
  `LibraryRowCell`, `LibraryRow`). It also holds the reference definitions
  `MovieLibraries` (the filter) and `Rows` (the grid), and the lemmas about them.
- `movie_libraries_view_model.dfy`: module `ViewModels`, the class
  `MovieLibrariesViewModel`. It has the fields `rows`, `hasNextPage`,
  `libraries` and `columns`. `CalculateRows` is the nested loop of
  `calculateRows()`, proved equal to `Rows`. `ApplyResponse` is the closure
  that receives the response; it returns the library it routes to, if any.

The row count is kept as the source computes it. The source loops from 0
through `n / columns` inclusive, where `n` is the number of libraries. So a
non-empty list always gets `n / columns + 1` rows. When `columns` divides `n`,
the last row holds no library: it is empty, or it holds only the placeholder.
The model reproduces this behaviour and proves it (`ExactMultipleLeavesEmptyRow`).

## Model

| member | source | states |
|---|---|---|
| `LibraryLayout.MovieLibraries` | Shared/ViewModels/MovieLibrariesViewModel.swift:48-53 | the filtered list is no longer than the response, and every library in it comes from the response and has collection type "movies" |
| `LibraryLayout.MovieLibrariesConcat` | Shared/ViewModels/MovieLibrariesViewModel.swift:49-53 | the filter keeps response order: filtering a concatenation gives the concatenation of the filtered parts |
| `LibraryLayout.MovieLibrariesCount` | Shared/ViewModels/MovieLibrariesViewModel.swift:49-53 | nothing is dropped or duplicated: a movie library occurs in the result as often as in the response, and any other library never occurs |
| `LibraryLayout.RowBounds` | Shared/ViewModels/MovieLibrariesViewModel.swift:68-75 | for every row index the loop visits, 0 <= firstItemIndex <= lastItemIndex <= n, so the slice is in range; rows before the last end at firstItemIndex + columns; the last row spans n % columns libraries |
| `LibraryLayout.Rows` | Shared/ViewModels/MovieLibrariesViewModel.swift:66-98 | no rows for no libraries; otherwise exactly n / columns + 1 rows, row k being RowAt(k): the cells of libraries k * columns up to RowEnd (the end clamped to n), then the loading placeholder on the last row when hasNextPage holds; row k has section k |
| `LibraryLayout.RowLayout` | Shared/ViewModels/MovieLibrariesViewModel.swift:71-87 | every row but the last holds exactly columns real cells, the last holds n % columns; none holds more than columns; real cell j of row k carries library k * columns + j; only the last row gets an extra cell, and only when more pages remain |
| `LibraryLayout.LaidOutPrefix` | Shared/ViewModels/MovieLibrariesViewModel.swift:70-94 | the first k rows carry, in order, exactly the libraries before the end of row k - 1 |
| `LibraryLayout.LayoutKeepsLibraries` | Shared/ViewModels/MovieLibrariesViewModel.swift:70-94 | reading the real cells of all rows, row by row, gives back the library list exactly: nothing dropped, duplicated or reordered |
| `LibraryLayout.ExactMultipleLeavesEmptyRow` | Shared/ViewModels/MovieLibrariesViewModel.swift:68-70 | when columns divides n, the extra last row holds no library: it is empty, or holds only the placeholder when more pages remain |
| `LibraryLayout.PlaceholderPlacement` | Shared/ViewModels/MovieLibrariesViewModel.swift:83-87 | a loading cell appears if and only if hasNextPage holds and there is a library; it is then the only loading cell, it carries no library, and it is the last cell of the last row |
| `ViewModels.MovieLibrariesViewModel.constructor` | Shared/ViewModels/MovieLibrariesViewModel.swift:18-33 | a new view model has the given column count (7 by default), no rows, no libraries and no next page |
| `ViewModels.MovieLibrariesViewModel.CalculateRows` | Shared/ViewModels/MovieLibrariesViewModel.swift:66-98 | the nested loop returns exactly the layout Rows of the current libraries, columns and hasNextPage |
| `ViewModels.MovieLibrariesViewModel.ApplyResponse` | Shared/ViewModels/MovieLibrariesViewModel.swift:46-61 | a response without items changes nothing and routes nowhere; otherwise libraries becomes the movie libraries of the response, in order; if exactly one remains, the route goes to it and rows is unchanged; otherwise nothing is routed and rows becomes the layout of the new libraries (empty for none) |

## Left out

- ViewModels.MovieLibrariesViewModel.constructor: requires `columns` to be positive, and so does every operation that lays out rows. Swift's `init(columns:)` accepts any `Int`. With `columns <= 0`, Swift traps in `calculateRows()`: on the division at line 68 when `columns` is 0, and on the reversed range at line 70 or 78 when it is negative. The trap happens only once two or more movie libraries reach `calculateRows()`; such a view model runs normally with no items, no movie library or one. The model cannot build one.
- The request itself: `UserViewsAPI.getUserViews`, the current user's id from the session manager, and the constructor's call to `requestLibraries()`. These are network and global session state. The response's item list is an input to `ApplyResponse`.
- The failure path, where `handleAPIRequestError` runs. That method belongs to the `ViewModel` superclass, which is not part of this model. The model has no operation for it, so a failure leaves `libraries` and `rows` as they were.
- Combine plumbing: `trackActivity(loading)`, `sink`, `store(in:)` and the `@Published` change notifications. Plain field assignments stand in for them.
- The router: `ApplyResponse` returns the library it routes to. The source's `router?` is optional, so when no router is attached the Swift call does nothing. The model still reports the request.
- `totalPages`, `currentPage` and `hasPreviousPage`: this file never reads or writes them. `hasNextPage` is only read, so no operation of the model changes it.
- The `print` diagnostics in `calculateRows()`.
- Races between overlapping `requestLibraries()` calls. Each response is applied as one step.
- `Library` keeps only an identity and the collection type. Titles and the other server fields play no part in this logic.
- The fields of `LibraryRowCell` are taken as `item` and `loadingCell`, with `loadingCell` false for a cell built from a library. The type's definition is not part of this model.
- Integer overflow of `i * columns` in Swift is not modelled. Integers are unbounded, and the products stay below the library count plus `columns`.
