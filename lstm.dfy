/** The sliding-window split that prepares sequence data for a forecasting
    model: every window of `nIn` consecutive observations is paired with the
    `nOut` observations that follow it. */
module Lstm {

  /** Number of windows `range(len(data) - nIn - nOut + 1)` yields:
      a negative range bound gives no iterations. */
  function WindowCount(len: nat, nIn: nat, nOut: nat): nat
  {
    if len + 1 >= nIn + nOut then len + 1 - nIn - nOut else 0
  }

  /** `create_dataset`: one loop appends the input window to `x` and the
      target window to `y`. The window lengths are model parameters of type
      `nat`; the model does not cover negative lengths. */
  method CreateDataset<T>(data: seq<T>, nIn: nat, nOut: nat) returns (x: seq<seq<T>>, y: seq<seq<T>>)
    ensures |x| == |y| == WindowCount(|data|, nIn, nOut)
    ensures |x| == if |data| + 1 >= nIn + nOut then |data| - nIn - nOut + 1 else 0
    ensures forall i :: 0 <= i < |x| ==> i + nIn + nOut <= |data| && x[i] == data[i..i + nIn]
    ensures forall i :: 0 <= i < |y| ==> y[i] == data[i + nIn..i + nIn + nOut]
    ensures forall i :: 0 <= i < |x| ==> |x[i]| == nIn && |y[i]| == nOut
  {
    x, y := [], [];
    var n := WindowCount(|data|, nIn, nOut);
    for i := 0 to n
      invariant |x| == |y| == i
      invariant forall k :: 0 <= k < i ==> x[k] == data[k..k + nIn]
      invariant forall k :: 0 <= k < i ==> y[k] == data[k + nIn..k + nIn + nOut]
    {
      x := x + [data[i..i + nIn]];
      y := y + [data[i + nIn..i + nIn + nOut]];
    }
  }
}
