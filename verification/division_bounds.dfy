/**
 * The bounds of a division of a split range, as the grid and repo indexes
 * read them from their list of range splits: the index is first clamped
 * into the list, so an index below the list reads its first split and one
 * past it reads its last, and an empty list has nothing to read.
 */
module DivisionBounds {
  import opened Wrappers
  import opened JavaLang

  /** `Math.max(0, Math.min(size - 1, index))`. */
  function Clamp(index: int, size: int): (c: int)
    ensures size > 0 ==> 0 <= c < size
    ensures 0 <= index < size ==> c == index
    ensures index < 0 ==> c == 0
    ensures size > 0 && index >= size ==> c == size - 1
  {
    if size - 1 < index then (if size - 1 < 0 then 0 else size - 1)
    else if index < 0 then 0 else index
  }

  /**
   * `getDivisionMinRange(index)`: the split at the clamped index; reading an
   * empty list of splits fails.
   */
  function DivisionMin<T>(splits: seq<T>, index: Int32): (r: Result<T>)
    ensures r.Err? <==> splits == []
    ensures r.Err? ==> r.error == IndexOutOfBounds
    ensures r.Ok? ==> r.value in splits
    ensures r.Ok? && 0 <= index < |splits| ==> r.value == splits[index]
    ensures r.Ok? && index < 0 ==> r.value == splits[0]
    ensures r.Ok? && index >= |splits| ==> r.value == splits[|splits| - 1]
  {
    if splits == [] then Err(IndexOutOfBounds) else Ok(splits[Clamp(index, |splits|)])
  }

  /**
   * `getDivisionMaxRange(index)`: the lower bound of the next division,
   * where the next index is computed in 32-bit arithmetic (so the largest
   * index wraps round to the smallest and reads the first split).
   */
  function DivisionMax<T>(splits: seq<T>, index: Int32): (r: Result<T>)
    ensures index < 0x7fff_ffff ==> r == DivisionMin(splits, index + 1)
    ensures index == 0x7fff_ffff ==> r == DivisionMin(splits, -0x8000_0000)
  {
    DivisionMin(splits, Wrap32(index + 1))
  }
}
