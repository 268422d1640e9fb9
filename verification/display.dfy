/** The column the standings table is displayed by, and its direction. The
    display order never feeds back into the ranks. */
module DisplaySort {

  datatype Column = Id | Rank
  datatype Direction = Asc | Desc
  datatype SortOption = SortOption(key: Column, order: Direction)

  /** Every group starts displayed by rank, ascending. */
  const DefaultOption: SortOption := SortOption(Rank, Asc)

  /** Clicking a column header: the current column flips its direction, a
      different column becomes current in ascending order. */
  function HandleSort(opt: SortOption, key: Column): (r: SortOption)
    ensures r.key == key
    ensures opt.key == key ==> r.order != opt.order
    ensures opt.key != key ==> r.order == Asc
  {
    if opt.key == key then opt.(order := if opt.order == Asc then Desc else Asc)
    else SortOption(key, Asc)
  }

  /** Clicking the current column twice restores the option. */
  lemma SameColumnTwiceRestores(opt: SortOption)
    ensures HandleSort(HandleSort(opt, opt.key), opt.key) == opt
  {
  }

  /** Clicking a new column twice ends on that column, descending. */
  lemma NewColumnTwiceDescends(opt: SortOption, key: Column)
    requires opt.key != key
    ensures HandleSort(HandleSort(opt, key), key) == SortOption(key, Desc)
  {
  }
}
