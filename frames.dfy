/**
 * The preview frames that `render` derives from the requested widths and the
 * theme names (src/Playroom/Playroom.js).
 */
module Frames {

  datatype Frame = Frame(theme: string, width: int)

  /** `themeNames.map(theme => ({ theme, width }))`. */
  function FramesForWidth(themeNames: seq<string>, width: int): seq<Frame>
  {
    seq(|themeNames|, j requires 0 <= j < |themeNames| => Frame(themeNames[j], width))
  }

  /** `flatMap(widths, width => FramesForWidth(themeNames, width))`. */
  function FramesOf(widths: seq<int>, themeNames: seq<string>): seq<Frame>
  {
    if |widths| == 0 then []
    else FramesForWidth(themeNames, widths[0]) + FramesOf(widths[1..], themeNames)
  }

  /** There is one frame per (width, theme) pair. */
  lemma {:induction false} FramesLength(widths: seq<int>, themeNames: seq<string>)
    ensures |FramesOf(widths, themeNames)| == |widths| * |themeNames|
  {
    if |widths| > 0 {
      FramesLength(widths[1..], themeNames);
      assert |widths| * |themeNames| == |themeNames| + (|widths| - 1) * |themeNames|;
    }
  }

  /** The frames are width-major: width `i` with theme `j` sits at index `i * |themeNames| + j`. */
  lemma {:induction false} FrameAt(widths: seq<int>, themeNames: seq<string>, i: nat, j: nat)
    requires i < |widths| && j < |themeNames|
    ensures i * |themeNames| + j < |FramesOf(widths, themeNames)|
    ensures FramesOf(widths, themeNames)[i * |themeNames| + j] == Frame(themeNames[j], widths[i])
  {
    var n := |themeNames|;
    FramesLength(widths, themeNames);
    if i > 0 {
      FrameAt(widths[1..], themeNames, i - 1, j);
      assert widths[1..][i - 1] == widths[i];
      assert i * n + j == n + ((i - 1) * n + j);
    }
  }

  /** An index into `m` rounds of `n` splits into a round and a place in it. */
  lemma QuotientRemainder(k: int, n: int, m: int)
    requires 0 <= k < m * n && 0 <= n
    ensures n > 0 && 0 <= k / n < m && 0 <= k % n < n
    ensures k == (k / n) * n + k % n
  {
    assert (k / n) * n <= k;
    assert (k / n - m) * n == (k / n) * n - m * n < 0;
  }

  /** Conversely, the frame at index `k` has width `k / |themeNames|` and theme `k % |themeNames|`. */
  lemma FrameAtIndex(widths: seq<int>, themeNames: seq<string>, k: int)
    requires 0 <= k < |FramesOf(widths, themeNames)|
    ensures |themeNames| > 0
    ensures k / |themeNames| < |widths| && k % |themeNames| < |themeNames|
    ensures FramesOf(widths, themeNames)[k] == Frame(themeNames[k % |themeNames|], widths[k / |themeNames|])
  {
    var n := |themeNames|;
    FramesLength(widths, themeNames);
    QuotientRemainder(k, n, |widths|);
    var i, j := k / n, k % n;
    FrameAt(widths, themeNames, i, j);
    assert i * n + j == k;
  }
}
