/** The column-header behaviour of the profile browser: what a click on a
    sortable header does to the sort settings (`handleSort`) and which icon
    the header shows (`renderSortIcon`). */
module SortToggle {
  import opened Types

  /** `FaSort`, `FaSortUp` and `FaSortDown`. */
  datatype Icon = Neutral | Up | Down

  /** The settings after a click on the header of `key`. */
  function Toggle(st: SortState, key: SortKey): (next: SortState)
    ensures next.key == Some(key)
    ensures next.order == Desc <==> st.key == Some(key) && st.order == Asc
  {
    SortState(Some(key), if st.key == Some(key) && st.order == Asc then Desc else Asc)
  }

  /** The icon of the header of `key` under the settings `st`. */
  function SortIcon(st: SortState, key: SortKey): (icon: Icon)
    ensures icon == Neutral <==> st.key != Some(key)
    ensures icon == Up <==> st.key == Some(key) && st.order == Asc
    ensures icon == Down <==> st.key == Some(key) && st.order == Desc
  {
    if st.key != Some(key) then Neutral
    else
      match st.order
      case Asc => Up
      case Desc => Down
  }

  /** Once a column is the sort key, each click on it flips the order. */
  lemma ToggleFlips(st: SortState, key: SortKey)
    requires st.key == Some(key)
    ensures Toggle(st, key).order != st.order
    ensures Toggle(Toggle(st, key), key) == st
  {
  }

  /** Three clicks on a column that is not the sort key go asc, desc, asc. */
  lemma ThreeClicks(st: SortState, key: SortKey)
    requires st.key != Some(key)
    ensures Toggle(st, key) == SortState(Some(key), Asc)
    ensures Toggle(Toggle(st, key), key) == SortState(Some(key), Desc)
    ensures Toggle(Toggle(Toggle(st, key), key), key) == SortState(Some(key), Asc)
  {
  }

  /** After a click the clicked header shows an arrow, flipped if it showed
      one, and every other header shows the neutral icon. */
  lemma IconAfterToggle(st: SortState, key: SortKey, other: SortKey)
    ensures SortIcon(Toggle(st, key), key) == if SortIcon(st, key) == Up then Down else Up
    ensures other != key ==> SortIcon(Toggle(st, key), other) == Neutral
  {
  }
}
