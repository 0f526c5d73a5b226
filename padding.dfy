/** getPaddedArray, copied identically into the Sobel and the Prewitt
    classes: a fresh grid n cells larger on every side, whose outermost ring
    of cells is 0 and whose other cells are copied from the argument shifted
    by one row and one column. */
module Padding {

  /** The outermost ring of a height x width grid. */
  predicate OnFrame(height: int, width: int, i: int, j: int)
  {
    i == 0 || j == 0 || i == height - 1 || j == width - 1
  }

  /** Fills row i of the padded grid: 0 on the frame, the argument's cell
      up and to the left elsewhere. */
  method PadRow(arr: array2<int>, paddedArray: array2<int>, i: int)
    requires paddedArray != arr
    requires 0 <= i < paddedArray.Length0
    requires OnFrame(paddedArray.Length0, paddedArray.Length1, i, 1) || i - 1 < arr.Length0
    requires paddedArray.Length1 - 2 <= arr.Length1
    modifies paddedArray
    ensures forall j :: 0 <= j < paddedArray.Length1 ==>
      if OnFrame(paddedArray.Length0, paddedArray.Length1, i, j) then paddedArray[i, j] == 0
      else paddedArray[i, j] == arr[i - 1, j - 1]
    ensures forall r, j :: 0 <= r < paddedArray.Length0 && r != i && 0 <= j < paddedArray.Length1 ==>
      paddedArray[r, j] == old(paddedArray[r, j])
  {
    var j := 0;
    while j < paddedArray.Length1
      invariant 0 <= j <= paddedArray.Length1
      invariant forall c :: 0 <= c < j ==>
        if OnFrame(paddedArray.Length0, paddedArray.Length1, i, c) then paddedArray[i, c] == 0
        else paddedArray[i, c] == arr[i - 1, c - 1]
      invariant forall r, c :: 0 <= r < paddedArray.Length0 && r != i && 0 <= c < paddedArray.Length1 ==>
        paddedArray[r, c] == old(paddedArray[r, c])
    {
      if OnFrame(paddedArray.Length0, paddedArray.Length1, i, j) {
        paddedArray[i, j] := 0;
      } else {
        paddedArray[i, j] := arr[i - 1, j - 1];
      }
      j := j + 1;
    }
  }

  /** getPaddedArray(arr, n). Java reads arr[0] (so arr has a row), rejects
      negative dimensions, and for n >= 2 reads past the end of arr;
      the precondition is exactly the set of arguments that return. For
      n == 1, the only value ever passed, the interior is arr itself. */
  method GetPaddedArray(arr: array2<int>, n: int) returns (paddedArray: array2<int>)
    requires arr.Length0 >= 1
    requires n <= 1
    requires arr.Length0 + 2 * n >= 0 && arr.Length1 + 2 * n >= 0
    ensures fresh(paddedArray)
    ensures paddedArray.Length0 == arr.Length0 + 2 * n && paddedArray.Length1 == arr.Length1 + 2 * n
    ensures forall i, j ::
      0 <= i < paddedArray.Length0 && 0 <= j < paddedArray.Length1 && OnFrame(paddedArray.Length0, paddedArray.Length1, i, j)
      ==> paddedArray[i, j] == 0
    ensures forall i, j ::
      0 <= i < paddedArray.Length0 && 0 <= j < paddedArray.Length1 && !OnFrame(paddedArray.Length0, paddedArray.Length1, i, j)
      ==> paddedArray[i, j] == arr[i - 1, j - 1]
    ensures n == 1 ==>
      forall i, j :: 0 <= i < arr.Length0 && 0 <= j < arr.Length1 ==> paddedArray[i + 1, j + 1] == arr[i, j]
  {
    paddedArray := new int[arr.Length0 + 2 * n, arr.Length1 + 2 * n];
    var i := 0;
    while i < paddedArray.Length0
      invariant 0 <= i <= paddedArray.Length0
      invariant forall r, c :: 0 <= r < i && 0 <= c < paddedArray.Length1 ==>
        if OnFrame(paddedArray.Length0, paddedArray.Length1, r, c) then paddedArray[r, c] == 0
        else paddedArray[r, c] == arr[r - 1, c - 1]
    {
      PadRow(arr, paddedArray, i);
      i := i + 1;
    }
  }
}
