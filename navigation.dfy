/** Moving the library selection one entry forward or back. A selection is
    an index into the library, or -1 when nothing is selected. */
module Navigation {

  predicate IsSelection(index: int, size: nat) { -1 <= index < size }

  /** The selection after "next": one further when that stays inside the
      library, the same otherwise. From no selection it is the first
      entry. */
  function NextIndex(index: int, size: nat): (r: int)
    ensures IsSelection(index, size) ==> IsSelection(r, size)
    ensures r == index || r == index + 1
    ensures r == index + 1 <==> index + 1 < size
  {
    if index < size - 1 then index + 1 else index
  }

  /** The selection after "previous": one back when that is still an entry,
      the same otherwise; it never goes from the first entry to no
      selection. */
  function PreviousIndex(index: int, size: nat): (r: int)
    ensures IsSelection(index, size) ==> IsSelection(r, size)
    ensures r == index || r == index - 1
    ensures r == index - 1 <==> 0 < index
    ensures 0 <= index ==> 0 <= r
  {
    if index > 0 then index - 1 else index
  }

  /** "previous" undoes a "next" that moved from an entry, and "next" undoes
      a "previous" that moved. */
  lemma NextPreviousInverse(index: int, size: nat)
    requires IsSelection(index, size)
    ensures 0 <= index && NextIndex(index, size) != index ==>
      PreviousIndex(NextIndex(index, size), size) == index
    ensures PreviousIndex(index, size) != index ==>
      NextIndex(PreviousIndex(index, size), size) == index
  {
  }
}
