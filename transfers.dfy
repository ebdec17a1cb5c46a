/** The transfer fan-out shared by both schedulers (depot/region.py and
    depot/world.py carry the same code): a transfer's curve is drawn whole at
    its arrival frame, growing in over the frames before it and shrinking
    away over the frames after it. */
module Transfers {
  import opened Frames
  import opened AniMapLib

  /** How a loop over the rows of an input file ends: normally, or at a
      Python KeyError for the given ID. */
  datatype Outcome = Done | KeyError(id: string)

  /** The instructions frame `t` receives from a transfer of `path` arriving
      at frame `start`, spread over `k` frames (`frames_for_line`): the whole
      path at `start`, the prefix up to cut i at frame start - (k-1-i) and the
      suffix from cut i at frame start + i + 1, for i in 0 .. k-2. */
  function FanOutAt(path: seq<Sample>, k: nat, start: int, t: int): (r: seq<Instr>)
    requires k >= 1
    ensures |r| <= 1
    ensures |r| == 1 <==> start - (k - 1) <= t <= start + (k - 1)
  {
    if t == start then [Line(path)]
    else if start - (k - 1) <= t < start then
      CutBounded(|path|, k, t - start + k - 1);
      [Line(path[..Cut(|path|, k, t - start + k - 1)])]
    else if start < t <= start + (k - 1) then
      CutBounded(|path|, k, t - start - 1);
      CutLast(|path|, k);
      [Line(path[Cut(|path|, k, t - start - 1)..Cut(|path|, k, k - 1)])]
    else []
  }

  /** The prefix placed before the arrival and the suffix placed after it by
      the same loop step together make up the whole path. */
  lemma FanOutPairs(path: seq<Sample>, k: nat, start: int, i: nat)
    requires k >= 1 && i < k - 1
    ensures FanOutAt(path, k, start, start - (k - 1 - i))[0].path
            + FanOutAt(path, k, start, start + i + 1)[0].path == path
  {
    CutBounded(|path|, k, i);
    CutLast(|path|, k);
    var c := Cut(|path|, k, i);
    assert path[..c] + path[c..] == path;
  }

  /** Before the arrival the drawn part grows frame by frame up to the whole
      path; after it the part shrinks.  When the path has at least k samples
      every step changes the length. */
  lemma FanOutGrowsThenShrinks(path: seq<Sample>, k: nat, start: int, t: int, u: int)
    requires k >= 1 && start - (k - 1) <= t < u <= start + (k - 1)
    ensures u <= start ==>
              |FanOutAt(path, k, start, t)[0].path| <= |FanOutAt(path, k, start, u)[0].path|
    ensures start <= t ==>
              |FanOutAt(path, k, start, t)[0].path| >= |FanOutAt(path, k, start, u)[0].path|
    ensures |path| >= k && u <= start ==>
              |FanOutAt(path, k, start, t)[0].path| < |FanOutAt(path, k, start, u)[0].path|
    ensures |path| >= k && start <= t ==>
              |FanOutAt(path, k, start, t)[0].path| > |FanOutAt(path, k, start, u)[0].path|
  {
    if u <= start {
      FanOutGrows(path, k, start, t, u);
    }
    if start <= t {
      FanOutShrinks(path, k, start, t, u);
    }
  }

  lemma FanOutGrows(path: seq<Sample>, k: nat, start: int, t: int, u: int)
    requires k >= 1 && start - (k - 1) <= t < u <= start
    ensures |FanOutAt(path, k, start, t)[0].path| <= |FanOutAt(path, k, start, u)[0].path|
    ensures |path| >= k ==> |FanOutAt(path, k, start, t)[0].path| < |FanOutAt(path, k, start, u)[0].path|
  {
    var x := |path|;
    CutLast(x, k);
    var i := t - start + k - 1;
    CutBounded(x, k, i);
    assert |FanOutAt(path, k, start, t)[0].path| == Cut(x, k, i);
    if u < start {
      CutBounded(x, k, u - start + k - 1);
      CutMonotone(x, k, i, u - start + k - 1);
      assert |FanOutAt(path, k, start, u)[0].path| == Cut(x, k, u - start + k - 1);
    } else if x >= k {
      CutMonotone(x, k, i, k - 1);
    }
  }

  lemma FanOutShrinks(path: seq<Sample>, k: nat, start: int, t: int, u: int)
    requires k >= 1 && start <= t < u <= start + (k - 1)
    ensures |FanOutAt(path, k, start, t)[0].path| >= |FanOutAt(path, k, start, u)[0].path|
    ensures |path| >= k ==> |FanOutAt(path, k, start, t)[0].path| > |FanOutAt(path, k, start, u)[0].path|
  {
    var x := |path|;
    CutLast(x, k);
    var j := u - start - 1;
    CutBounded(x, k, j);
    assert |FanOutAt(path, k, start, u)[0].path| == x - Cut(x, k, j);
    if start < t {
      CutBounded(x, k, t - start - 1);
      CutMonotone(x, k, t - start - 1, j);
      assert |FanOutAt(path, k, start, t)[0].path| == x - Cut(x, k, t - start - 1);
    } else if x >= k {
      QuotientPositive(x, k);
      CutMonotone(x, k, 0, j);
    }
  }

  /** The placement loop of a transfer (depot/region.py and depot/world.py
      alike): append the whole path at `start`, then for each i append the
      i-th prefix before and the i-th suffix after it.  A frame index below
      0 would wrap around and one at or past the end would raise IndexError
      in Python; the preconditions exclude both. */
  method FanOut(L: array<seq<Instr>>, path: seq<Sample>, framesForLine: nat, start: int)
    requires framesForLine >= 1
    requires framesForLine - 1 <= start && start + framesForLine - 1 < L.Length
    modifies L
    ensures forall t :: 0 <= t < L.Length ==>
              L[t] == old(L[t]) + FanOutAt(path, framesForLine, start, t)
  {
    var k := framesForLine;
    var numsEnd := Split(|path|, k);
    L[start] := L[start] + [Line(path)];
    for i := 0 to k - 1
      invariant forall t :: 0 <= t < L.Length ==>
                  L[t] == old(L[t]) + (if t == start || start - (k - 1) <= t < start - (k - 1) + i
                                          || start < t <= start + i
                                       then FanOutAt(path, k, start, t) else [])
    {
      var diff := i + 1;
      var sdiff := k - diff;
      var pre := Line(path[..numsEnd[i]]);
      L[start - sdiff] := L[start - sdiff] + [pre];
      var post := Line(path[numsEnd[i]..numsEnd[k - 1]]);
      L[start + diff] := L[start + diff] + [post];
    }
  }
}
