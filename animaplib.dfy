/** The integer helpers of AniMapLib.py: the frame-range splitter `split`,
    the timeline builder `title` and the frame compactor `remove_frames`,
    plus the quadrant rule that bends a transfer curve. */
module AniMapLib {
  import opened Frames

  // ---------------------------------------------------------------------
  // get_values_curved_line: the middle control point of the curve
  // ---------------------------------------------------------------------

  function Abs(r: real): real { if r < 0.0 then -r else r }

  /** The middle control point of the quadratic curve from p1 to p2: the
      midpoint of the chord moved by a third of the swapped coordinate
      differences, with the signs picked by the relative quadrant of p2.
      Whatever the quadrant, the move is perpendicular to the chord and its
      squared length is a ninth of the chord's.  The signs say which side
      the curve bows to: the x offset points against the chord's x
      direction (positive when that is zero) and the y offset along its y
      direction (negative when that is zero). */
  function ControlPoint(p1: Loc, p2: Loc): (c: Loc)
    ensures var dx, dy := p2.lon - p1.lon, p2.lat - p1.lat;
            var ox, oy := c.lon - (p1.lon + p2.lon) / 2.0, c.lat - (p1.lat + p2.lat) / 2.0;
            ox * dx + oy * dy == 0.0 && 9.0 * (ox * ox + oy * oy) == dx * dx + dy * dy
    ensures var dx, dy := p2.lon - p1.lon, p2.lat - p1.lat;
            var ox, oy := c.lon - (p1.lon + p2.lon) / 2.0, c.lat - (p1.lat + p2.lat) / 2.0;
            (dx > 0.0 ==> ox <= 0.0) && (dx <= 0.0 ==> ox >= 0.0)
            && (dy > 0.0 ==> oy >= 0.0) && (dy <= 0.0 ==> oy <= 0.0)
  {
    var xDiff := Abs(p1.lon - p2.lon);
    var yDiff := Abs(p1.lat - p2.lat);
    var xm := (p1.lon + p2.lon) / 2.0;
    var ym := (p1.lat + p2.lat) / 2.0;
    var hy := xDiff / 3.0;
    var hx := yDiff / 3.0;
    if p1.lon > p2.lon && p1.lat < p2.lat then Loc(xm + hx, ym + hy)
    else if p1.lon < p2.lon && p1.lat < p2.lat then Loc(xm - hx, ym + hy)
    else if p1.lon < p2.lon && p1.lat > p2.lat then Loc(xm - hx, ym - hy)
    else Loc(xm + hx, ym - hy)
  }

  /** The sign rule decides the side: reflecting the control point across
      the chord (through its midpoint) breaks it unless the two ends
      coincide. */
  lemma {:induction false} MirroredControlPointBowsOtherWay(p1: Loc, p2: Loc)
    requires p1 != p2
    ensures var c := ControlPoint(p1, p2);
            var dx, dy := p2.lon - p1.lon, p2.lat - p1.lat;
            var ox, oy := (p1.lon + p2.lon) / 2.0 - c.lon, (p1.lat + p2.lat) / 2.0 - c.lat;
            !((dx > 0.0 ==> ox <= 0.0) && (dx <= 0.0 ==> ox >= 0.0)
              && (dy > 0.0 ==> oy >= 0.0) && (dy <= 0.0 ==> oy <= 0.0))
  {
    var c := ControlPoint(p1, p2);
    var dx, dy := p2.lon - p1.lon, p2.lat - p1.lat;
    var ox, oy := c.lon - (p1.lon + p2.lon) / 2.0, c.lat - (p1.lat + p2.lat) / 2.0;
    assert dx != 0.0 || dy != 0.0;
    if dx != 0.0 {
      assert dx * dx > 0.0 && dy * dy >= 0.0;
    } else {
      assert dy * dy > 0.0;
    }
    assert ox * ox + oy * oy > 0.0;
    assert ox != 0.0 || oy != 0.0;
  }

  // ---------------------------------------------------------------------
  // split(x, n)
  // ---------------------------------------------------------------------

  /** Size of group `i` when `x` samples are cut into `n` groups: every group
      gets `x / n` samples and the LAST `x % n` groups get one more. */
  function GroupSize(x: nat, n: nat, i: nat): nat
    requires n >= 1
  {
    if i >= n - x % n then x / n + 1 else x / n
  }

  /** The cumulative cut index after group `i`: the sum of the sizes of
      groups 0..i. */
  function Cut(x: nat, n: nat, i: nat): nat
    requires n >= 1
    decreases i
  {
    if i == 0 then GroupSize(x, n, 0) else Cut(x, n, i - 1) + GroupSize(x, n, i)
  }

  /** Closed form of `Cut`: (i+1) full groups plus one sample for every
      enlarged group among the first i+1. */
  lemma {:induction false} CutClosedForm(x: nat, n: nat, i: nat)
    requires n >= 1
    ensures Cut(x, n, i) == (i + 1) * (x / n) + (if i + 1 > n - x % n then i + 1 - (n - x % n) else 0)
  {
    var q := x / n;
    if i > 0 {
      CutClosedForm(x, n, i - 1);
      assert (i + 1) * q == i * q + q;
    }
  }

  /** The last cut index is the whole sample count. */
  lemma CutLast(x: nat, n: nat)
    requires n >= 1
    ensures Cut(x, n, n - 1) == x
  {
    CutClosedForm(x, n, n - 1);
    assert x == n * (x / n) + x % n;
  }

  lemma QuotientPositive(x: nat, n: nat)
    requires 1 <= n <= x
    ensures x / n >= 1
  {
    assert x == n * (x / n) + x % n;
  }

  /** Cut indices never decrease, and strictly increase when every group is
      non-empty, which is the case exactly when x >= n. */
  lemma CutMonotone(x: nat, n: nat, i: nat, j: nat)
    requires n >= 1 && i <= j
    ensures Cut(x, n, i) <= Cut(x, n, j)
    ensures x >= n && i < j ==> Cut(x, n, i) < Cut(x, n, j)
    decreases j - i
  {
    if i < j {
      CutMonotone(x, n, i, j - 1);
      if x >= n {
        QuotientPositive(x, n);
      }
    }
  }

  /** Every cut index lies between 0 and x. */
  lemma CutBounded(x: nat, n: nat, i: nat)
    requires n >= 1 && i < n
    ensures Cut(x, n, i) <= x
  {
    CutMonotone(x, n, i, n - 1);
    CutLast(x, n);
  }

  /** The group sizes differ by at most one, the enlarged groups are exactly
      the last `x % n`, and when n divides x all groups have size x / n. */
  lemma GroupSizes(x: nat, n: nat, i: nat)
    requires n >= 1 && i < n
    ensures GroupSize(x, n, i) == x / n || GroupSize(x, n, i) == x / n + 1
    ensures GroupSize(x, n, i) == x / n + 1 <==> n - x % n <= i
    ensures x % n == 0 ==> GroupSize(x, n, i) == x / n
  {
  }

  /** What a sequence of all n cut indices satisfies as a whole. */
  lemma CutsOrdered(x: nat, n: nat, cuts: seq<nat>)
    requires n >= 1 && |cuts| == n
    requires forall i :: 0 <= i < n ==> cuts[i] == Cut(x, n, i)
    ensures cuts[n - 1] == x
    ensures forall i, j :: 0 <= i <= j < n ==> cuts[i] <= cuts[j] <= x
    ensures x >= n ==> forall i, j :: 0 <= i < j < n ==> cuts[i] < cuts[j]
  {
    CutLast(x, n);
    forall i, j | 0 <= i <= j < n
      ensures cuts[i] <= cuts[j] <= x
      ensures x >= n && i < j ==> cuts[i] < cuts[j]
    {
      CutMonotone(x, n, i, j);
      CutBounded(x, n, j);
    }
  }

  /** `split(x, n)`: first the list of group sizes, then the running sums.
      Python raises ZeroDivisionError for n == 0, hence the precondition. */
  method Split(x: nat, n: nat) returns (numsEnd: seq<nat>)
    requires n >= 1
    ensures |numsEnd| == n
    ensures forall i :: 0 <= i < n ==> numsEnd[i] == Cut(x, n, i)
    ensures numsEnd[n - 1] == x
    ensures forall i, j :: 0 <= i <= j < n ==> numsEnd[i] <= numsEnd[j] <= x
    ensures x >= n ==> forall i, j :: 0 <= i < j < n ==> numsEnd[i] < numsEnd[j]
  {
    var nums := GroupSizeList(x, n);
    numsEnd := [];
    for i := 0 to |nums|
      invariant |numsEnd| == i
      invariant forall j {:trigger numsEnd[j]} :: 0 <= j < i ==> numsEnd[j] == Cut(x, n, j)
    {
      ghost var cut := Cut(x, n, i);
      if i == 0 {
        numsEnd := numsEnd + [nums[i]];
      } else {
        assert cut == numsEnd[i - 1] + nums[i];
        numsEnd := numsEnd + [nums[i] + numsEnd[i - 1]];
      }
    }
    CutsOrdered(x, n, numsEnd);
  }

  /** The first half of `split`: the list `nums` of group sizes, x / n
      each, the last x % n of them one larger. */
  method GroupSizeList(x: nat, n: nat) returns (nums: seq<nat>)
    requires n >= 1
    ensures |nums| == n
    ensures forall j :: 0 <= j < n ==> nums[j] == GroupSize(x, n, j)
  {
    nums := [];
    if x % n == 0 {
      for i := 0 to n
        invariant |nums| == i
        invariant forall j :: 0 <= j < i ==> nums[j] == GroupSize(x, n, j)
      {
        var pp := x / n;
        nums := nums + [pp];
      }
    } else {
      var zp := n - x % n;
      var pp := x / n;
      for i := 0 to n
        invariant |nums| == i
        invariant forall j :: 0 <= j < i ==> nums[j] == GroupSize(x, n, j)
      {
        if i >= zp {
          nums := nums + [pp + 1];
        } else {
          nums := nums + [pp];
        }
      }
    }
  }

  // ---------------------------------------------------------------------
  // title(title_format, start_date, delta_days, frames_per_day)
  // ---------------------------------------------------------------------

  /** Frame `d * fpd + f` (with f < fpd) belongs to day d. */
  lemma {:induction false} DayOfFrame(d: nat, fpd: nat, f: nat)
    requires f < fpd
    ensures (d * fpd + f) / fpd == d
  {
    var m := d * fpd + f;
    var q := m / fpd;
    assert m == fpd * q + m % fpd;
    MulMono(q, d - 1, fpd);
    MulMono(d + 1, q, fpd);
    assert fpd * (d - 1) == d * fpd - fpd;
    assert fpd * (d + 1) == d * fpd + fpd;
  }

  lemma MulPred(b: nat, k: nat)
    requires b > 0
    ensures (b - 1) * k + k == b * k
  {
  }

  lemma MulMono(a: int, c: int, k: nat)
    ensures a <= c ==> k * a <= k * c && a * k <= c * k
  {
  }

  /** `title`: one title per frame, all frames of a day titled with that
      day's formatted date.  Dates are day offsets; `strftime` stands for
      formatting a date with a format string. */
  method Title(strftime: (string, int) -> string, titleFormat: string, startDay: int,
               deltaDays: nat, framesPerDay: nat)
    returns (titles: seq<string>)
    ensures |titles| == deltaDays * framesPerDay
    ensures forall i :: 0 <= i < |titles| ==>
              titles[i] == strftime(titleFormat, startDay + i / framesPerDay)
    ensures titles == FrameTitles(strftime, titleFormat, startDay, deltaDays, framesPerDay)
  {
    titles := [];
    for i := 0 to deltaDays
      invariant |titles| == i * framesPerDay
      invariant forall t :: 0 <= t < |titles| ==>
                  titles[t] == strftime(titleFormat, startDay + t / framesPerDay)
    {
      var day := startDay + i;
      for f := 0 to framesPerDay
        invariant |titles| == i * framesPerDay + f
        invariant forall t :: 0 <= t < |titles| ==>
                    titles[t] == strftime(titleFormat, startDay + t / framesPerDay)
      {
        DayOfFrame(i, framesPerDay, f);
        titles := titles + [strftime(titleFormat, day)];
      }
    }
  }

  /** The title of every frame: the formatted date of its day. */
  function FrameTitles(strftime: (string, int) -> string, titleFormat: string, startDay: int,
                       deltaDays: nat, framesPerDay: nat): (ts: seq<string>)
    ensures |ts| == deltaDays * framesPerDay
  {
    seq(deltaDays * framesPerDay, i requires 0 <= i < deltaDays * framesPerDay =>
      strftime(titleFormat, startDay + i / framesPerDay))
  }

  /** All frames of one day share their title. */
  lemma SameDaySameTitle(titles: seq<string>, strftime: (string, int) -> string, titleFormat: string,
                         startDay: int, fpd: nat, d: nat, f: nat, g: nat)
    requires f < fpd && g < fpd && d * fpd + f < |titles| && d * fpd + g < |titles|
    requires forall i :: 0 <= i < |titles| ==> titles[i] == strftime(titleFormat, startDay + i / fpd)
    ensures titles[d * fpd + f] == titles[d * fpd + g] == strftime(titleFormat, startDay + d)
  {
    DayOfFrame(d, fpd, f);
    DayOfFrame(d, fpd, g);
  }

  // ---------------------------------------------------------------------
  // remove_frames(L, Title, limit, frames_per_day)
  // ---------------------------------------------------------------------

  /** The first frame of day-block b, i.e. b * fpd, written as the running
      sum the scan of `remove_frames` computes (`i += frames_per_day`). */
  function BlockStart(b: nat, fpd: nat): nat
  {
    if b == 0 then 0 else BlockStart(b - 1, fpd) + fpd
  }

  lemma {:induction false} BlockStartProduct(b: nat, fpd: nat)
    ensures BlockStart(b, fpd) == b * fpd
  {
    if b > 0 {
      BlockStartProduct(b - 1, fpd);
      MulPred(b, fpd);
    }
  }

  /** A limit that is a whole number of blocks is where block limit / fpd starts. */
  lemma BlockStartDiv(limit: nat, fpd: nat)
    requires fpd >= 1 && limit % fpd == 0
    ensures BlockStart(limit / fpd, fpd) == limit
  {
    BlockStartProduct(limit / fpd, fpd);
  }

  /** Later blocks start later, a whole block further on. */
  lemma {:induction false} BlockStartMono(a: nat, c: nat, fpd: nat)
    ensures a <= c ==> BlockStart(a, fpd) <= BlockStart(c, fpd)
    ensures a < c ==> BlockStart(a, fpd) + fpd <= BlockStart(c, fpd)
    decreases c
  {
    if a < c {
      BlockStartMono(a, c - 1, fpd);
    }
  }

  /** The day-block of `fpd` frames starting at frame `s` is dead when every
      instruction in it is a municipality count or a milestone text. */
  predicate Dead(L: seq<seq<Instr>>, s: nat, fpd: nat)
    requires s + fpd <= |L|
  {
    forall k :: s <= k < s + fpd ==> Quiet(L[k])
  }

  /** A frame with no point, line or country instruction. */
  predicate Quiet(frame: seq<Instr>)
  {
    forall j :: 0 <= j < |frame| ==> IsMuniOrText(frame[j])
  }

  /** The indices s+c-1, ..., s+1, s: what `insert(0, s+k)` for k = 0..c-1
      puts in front of a list. */
  function Desc(s: nat, c: nat): (r: seq<nat>)
    ensures |r| == c
    ensures forall t :: 0 <= t < c ==> r[t] == s + c - 1 - t
  {
    if c == 0 then [] else [s + c - 1] + Desc(s, c - 1)
  }

  /** The list `frames_to_remove` after the first b day-blocks are scanned:
      for every dead block all frames but its last, newest block first. */
  function RemovalList(L: seq<seq<Instr>>, fpd: nat, b: nat): seq<nat>
    requires fpd >= 1 && BlockStart(b, fpd) <= |L|
  {
    if b == 0 then []
    else
      (if Dead(L, BlockStart(b - 1, fpd), fpd) then Desc(BlockStart(b - 1, fpd), fpd - 1) else [])
      + RemovalList(L, fpd, b - 1)
  }

  /** The compacted form of the first b day-blocks of `xs`, deadness taken
      from the frames `L`: a live block is kept whole, a dead block is
      reduced to its last element. */
  function Compact<T>(xs: seq<T>, L: seq<seq<Instr>>, fpd: nat, b: nat): seq<T>
    requires fpd >= 1 && |xs| == |L| && BlockStart(b, fpd) <= |L|
  {
    if b == 0 then []
    else
      Compact(xs, L, fpd, b - 1)
      + (if Dead(L, BlockStart(b - 1, fpd), fpd) then [xs[BlockStart(b, fpd) - 1]]
         else xs[BlockStart(b - 1, fpd) .. BlockStart(b, fpd)])
  }

  /** The number of dead blocks among the first b. */
  function DeadCount(L: seq<seq<Instr>>, fpd: nat, b: nat): nat
    requires BlockStart(b, fpd) <= |L|
  {
    if b == 0 then 0
    else DeadCount(L, fpd, b - 1) + (if Dead(L, BlockStart(b - 1, fpd), fpd) then 1 else 0)
  }

  /** The elements of `xs` (the first of which has index `off`) whose index
      does not occur in `D`, in their original order. */
  function Without<T>(xs: seq<T>, D: seq<nat>, off: nat): seq<T>
  {
    if xs == [] then [] else (if off in D then [] else [xs[0]]) + Without(xs[1..], D, off + 1)
  }

  lemma DescMembers(s: nat, c: nat, x: nat)
    ensures x in Desc(s, c) <==> s <= x < s + c
  {
    var r := Desc(s, c);
    if s <= x < s + c {
      assert r[s + c - 1 - x] == x;
    }
  }

  /** `frames_to_remove` is strictly descending and lies below the scanned
      blocks, so deleting its entries in list order never shifts an index
      that is still pending. */
  lemma {:induction false} RemovalListShape(L: seq<seq<Instr>>, fpd: nat, b: nat)
    requires fpd >= 1 && BlockStart(b, fpd) <= |L|
    ensures forall x :: x in RemovalList(L, fpd, b) ==> x < BlockStart(b, fpd)
    ensures forall a, c :: 0 <= a < c < |RemovalList(L, fpd, b)| ==>
              RemovalList(L, fpd, b)[a] > RemovalList(L, fpd, b)[c]
  {
    if b > 0 {
      var s := BlockStart(b - 1, fpd);
      RemovalListShape(L, fpd, b - 1);
      var head := if Dead(L, s, fpd) then Desc(s, fpd - 1) else [];
      var tail := RemovalList(L, fpd, b - 1);
      assert RemovalList(L, fpd, b) == head + tail;
      forall a, c | 0 <= a < c < |head + tail| ensures (head + tail)[a] > (head + tail)[c] {
        if a < |head| && c >= |head| {
          var y := tail[c - |head|];
          assert y in tail;
          RemovalListBelow(L, fpd, b - 1, y);
        }
      }
    }
    forall x | x in RemovalList(L, fpd, b) ensures x < BlockStart(b, fpd) {
      RemovalListBelow(L, fpd, b, x);
    }
  }

  /** An index of block j is in `frames_to_remove` exactly when block j is
      dead and the index is not the block's last. */
  lemma {:induction false} RemovalMember(L: seq<seq<Instr>>, fpd: nat, b: nat, j: nat, x: nat)
    requires fpd >= 1 && BlockStart(b, fpd) <= |L| && j < b
    requires BlockStart(j, fpd) <= x < BlockStart(j, fpd) + fpd
    ensures BlockStart(j, fpd) + fpd <= |L|
    ensures x in RemovalList(L, fpd, b) <==> Dead(L, BlockStart(j, fpd), fpd) && x < BlockStart(j, fpd) + fpd - 1
  {
    assert BlockStart(j, fpd) + fpd <= |L| by {
      BlockStartMono(j, b, fpd);
    }
    assert x in RemovalList(L, fpd, b) <==> x in RemovalList(L, fpd, j + 1) by {
      RemovalListAbove(L, fpd, b, j + 1, x);
    }
    RemovalListBlock(L, fpd, j, x);
  }

  /** Right after block j is scanned, its frame x is listed exactly when
      the block is dead and x is not its last frame. */
  lemma RemovalListBlock(L: seq<seq<Instr>>, fpd: nat, j: nat, x: nat)
    requires fpd >= 1 && BlockStart(j, fpd) + fpd <= |L|
    requires BlockStart(j, fpd) <= x < BlockStart(j, fpd) + fpd
    ensures x in RemovalList(L, fpd, j + 1) <==> Dead(L, BlockStart(j, fpd), fpd) && x < BlockStart(j, fpd) + fpd - 1
  {
    var s := BlockStart(j, fpd);
    var head := if Dead(L, s, fpd) then Desc(s, fpd - 1) else [];
    assert RemovalList(L, fpd, j + 1) == head + RemovalList(L, fpd, j);
    assert x !in RemovalList(L, fpd, j) by {
      RemovalListBelow(L, fpd, j, x);
    }
    assert x in head <==> Dead(L, s, fpd) && x < s + fpd - 1 by {
      DescMembers(s, fpd - 1, x);
    }
  }

  /** The entries added by the first b blocks lie below block b. */
  lemma {:induction false} RemovalListBelow(L: seq<seq<Instr>>, fpd: nat, b: nat, x: nat)
    requires fpd >= 1 && BlockStart(b, fpd) <= |L|
    ensures x in RemovalList(L, fpd, b) ==> x < BlockStart(b, fpd)
  {
    if b > 0 {
      var s := BlockStart(b - 1, fpd);
      var head := if Dead(L, s, fpd) then Desc(s, fpd - 1) else [];
      assert RemovalList(L, fpd, b) == head + RemovalList(L, fpd, b - 1);
      assert x in head ==> x < s + fpd - 1 by {
        DescMembers(s, fpd - 1, x);
      }
      RemovalListBelow(L, fpd, b - 1, x);
    }
  }

  /** Blocks scanned after frame x never add x: membership of x is settled
      once the block holding it has been scanned. */
  lemma {:induction false} RemovalListAbove(L: seq<seq<Instr>>, fpd: nat, b: nat, m: nat, x: nat)
    requires fpd >= 1 && BlockStart(b, fpd) <= |L| && m <= b && x < BlockStart(m, fpd)
    ensures BlockStart(m, fpd) <= |L|
    ensures x in RemovalList(L, fpd, b) <==> x in RemovalList(L, fpd, m)
    decreases b
  {
    BlockStartMono(m, b, fpd);
    if m < b {
      var s := BlockStart(b - 1, fpd);
      assert x < s by {
        BlockStartMono(m, b - 1, fpd);
      }
      var head := if Dead(L, s, fpd) then Desc(s, fpd - 1) else [];
      assert RemovalList(L, fpd, b) == head + RemovalList(L, fpd, b - 1);
      assert x !in head by {
        DescMembers(s, fpd - 1, x);
      }
      RemovalListAbove(L, fpd, b - 1, m, x);
    }
  }

  /** D holds, of the block of `fpd` frames from s, all indices but the
      last when the block is dead and none otherwise. */
  predicate BlockMarked(D: seq<nat>, L: seq<seq<Instr>>, s: nat, fpd: nat)
  {
    s + fpd <= |L| && forall x :: s <= x < s + fpd ==> (x in D <==> Dead(L, s, fpd) && x < s + fpd - 1)
  }

  /** D marks each of the first b blocks. */
  predicate AllMarked(D: seq<nat>, L: seq<seq<Instr>>, fpd: nat, b: nat)
  {
    b == 0 || (AllMarked(D, L, fpd, b - 1) && BlockMarked(D, L, BlockStart(b - 1, fpd), fpd))
  }

  /** `frames_to_remove` marks every one of the first b of the nb scanned
      blocks. */
  lemma {:induction false} RemovalMarksBlocks(L: seq<seq<Instr>>, fpd: nat, nb: nat, b: nat)
    requires fpd >= 1 && BlockStart(nb, fpd) <= |L| && b <= nb
    ensures AllMarked(RemovalList(L, fpd, nb), L, fpd, b)
  {
    if b > 0 {
      RemovalMarksBlocks(L, fpd, nb, b - 1);
      var j := b - 1;
      BlockStartMono(j, nb, fpd);
      forall x | BlockStart(j, fpd) <= x < BlockStart(j, fpd) + fpd
        ensures x in RemovalList(L, fpd, nb) <==> Dead(L, BlockStart(j, fpd), fpd) && x < BlockStart(j, fpd) + fpd - 1
      {
        RemovalMember(L, fpd, nb, j, x);
      }
    }
  }

  lemma {:induction false} WithoutAppend<T>(A: seq<T>, B: seq<T>, D: seq<nat>, off: nat)
    ensures Without(A + B, D, off) == Without(A, D, off) + Without(B, D, off + |A|)
  {
    if A == [] {
      assert A + B == B;
    } else {
      assert (A + B)[0] == A[0] && (A + B)[1..] == A[1..] + B;
      WithoutAppend(A[1..], B, D, off + 1);
    }
  }

  lemma WithoutSplit<T>(xs: seq<T>, D: seq<nat>, s: nat, e: nat)
    requires s <= e <= |xs|
    ensures Without(xs[..e], D, 0) == Without(xs[..s], D, 0) + Without(xs[s..e], D, s)
  {
    assert xs[..e] == xs[..s] + xs[s..e];
    WithoutAppend(xs[..s], xs[s..e], D, 0);
  }

  lemma {:induction false} WithoutAgree<T>(xs: seq<T>, D: seq<nat>, E: seq<nat>, off: nat)
    requires forall x :: off <= x < off + |xs| ==> (x in D <==> x in E)
    ensures Without(xs, D, off) == Without(xs, E, off)
  {
    if xs != [] {
      WithoutAgree(xs[1..], D, E, off + 1);
    }
  }

  lemma {:induction false} WithoutNone<T>(xs: seq<T>, D: seq<nat>, off: nat)
    requires forall x :: off <= x < off + |xs| ==> x !in D
    ensures Without(xs, D, off) == xs
  {
    if xs != [] {
      WithoutNone(xs[1..], D, off + 1);
    }
  }

  lemma {:induction false} WithoutAllButLast<T>(xs: seq<T>, D: seq<nat>, off: nat)
    requires |xs| >= 1
    requires forall x :: off <= x < off + |xs| - 1 ==> x in D
    requires off + |xs| - 1 !in D
    ensures Without(xs, D, off) == [xs[|xs| - 1]]
  {
    if |xs| == 1 {
      assert Without(xs, D, off) == [xs[0]] + Without(xs[1..], D, off + 1);
    } else {
      WithoutAllButLast(xs[1..], D, off + 1);
    }
  }

  /** Deleting position f from the survivors of D gives the survivors of
      D + [f], provided every index of D lies above f. */
  lemma {:induction false} DeleteBelow<T>(xs: seq<T>, D: seq<nat>, f: nat, off: nat)
    requires off <= f < off + |xs|
    requires forall d :: d in D ==> d > f
    ensures f - off < |Without(xs, D, off)|
    ensures Without(xs, D + [f], off)
            == Without(xs, D, off)[..f - off] + Without(xs, D, off)[f - off + 1..]
  {
    if off == f {
      DeleteHead(xs, D, f, off);
    } else {
      var W := Without(xs, D, off);
      var W1 := Without(xs[1..], D, off + 1);
      assert W == [xs[0]] + W1 by {
        assert off !in D;
      }
      assert f - off - 1 < |W1| && Without(xs[1..], D + [f], off + 1) == W1[..f - off - 1] + W1[f - off..] by {
        DeleteBelow(xs[1..], D, f, off + 1);
      }
      assert Without(xs, D + [f], off) == [xs[0]] + Without(xs[1..], D + [f], off + 1) by {
        assert off !in D + [f];
      }
      assert W[..f - off] == [xs[0]] + W1[..f - off - 1];
      assert W[f - off + 1..] == W1[f - off..];
    }
  }

  /** The case of `DeleteBelow` where the deleted position is the first. */
  lemma DeleteHead<T>(xs: seq<T>, D: seq<nat>, f: nat, off: nat)
    requires off == f < off + |xs|
    requires forall d :: d in D ==> d > f
    ensures 0 < |Without(xs, D, off)|
    ensures Without(xs, D + [f], off) == Without(xs, D, off)[1..]
  {
    var W1 := Without(xs[1..], D, off + 1);
    assert Without(xs, D, off) == [xs[0]] + W1 by {
      assert off !in D;
    }
    assert Without(xs, D + [f], off) == W1 by {
      assert off in D + [f];
      assert Without(xs, D + [f], off) == Without(xs[1..], D + [f], off + 1);
      WithoutAgree(xs[1..], D + [f], D, off + 1);
    }
  }

  /** One `del` of the deletion loop: when D is strictly descending, deleting
      position D[p] from the survivors of D[..p] leaves the survivors of
      D[..p+1]. */
  lemma DeleteStep<T>(xs: seq<T>, D: seq<nat>, p: nat)
    requires p < |D| && D[p] < |xs|
    requires forall a, c :: 0 <= a < c < |D| ==> D[a] > D[c]
    ensures D[p] < |Without(xs, D[..p], 0)|
    ensures Without(xs, D[..p + 1], 0)
            == Without(xs, D[..p], 0)[..D[p]] + Without(xs, D[..p], 0)[D[p] + 1..]
  {
    forall d | d in D[..p] ensures d > D[p] {
      var a :| 0 <= a < p && D[..p][a] == d;
    }
    assert D[..p + 1] == D[..p] + [D[p]];
    DeleteBelow(xs, D[..p], D[p], 0);
  }

  lemma CompactStep<T>(xs: seq<T>, L: seq<seq<Instr>>, fpd: nat, b: nat, s: nat, e: nat)
    requires fpd >= 1 && |xs| == |L| && b >= 1 && e <= |L|
    requires s == BlockStart(b - 1, fpd) && e == BlockStart(b, fpd)
    ensures s + fpd == e
    ensures Compact(xs, L, fpd, b)
            == Compact(xs, L, fpd, b - 1) + (if Dead(L, s, fpd) then [xs[e - 1]] else xs[s..e])
  {
  }

  /** One block of `fpd` frames from `s` to `e`: deleting the indices of D
      that fall in it leaves its last element when the block is dead and the
      whole block otherwise. */
  lemma BlockWithout<T>(xs: seq<T>, L: seq<seq<Instr>>, D: seq<nat>, s: nat, e: nat, fpd: nat)
    requires fpd >= 1 && |xs| == |L| && s + fpd == e
    requires BlockMarked(D, L, s, fpd)
    ensures Without(xs[s..e], D, s) == if Dead(L, s, fpd) then [xs[e - 1]] else xs[s..e]
  {
    var block := xs[s..e];
    if Dead(L, s, fpd) {
      WithoutAllButLast(block, D, s);
      assert block[|block| - 1] == xs[e - 1];
    } else {
      WithoutNone(block, D, s);
    }
  }

  /** Deleting, from the first b blocks, indices that mark dead blocks
      compacts them. */
  lemma {:induction false} CompactIsWithout<T>(xs: seq<T>, L: seq<seq<Instr>>, fpd: nat, nb: nat, b: nat,
                                               D: seq<nat>)
    requires fpd >= 1 && |xs| == |L| && BlockStart(nb, fpd) <= |L| && b <= nb
    requires AllMarked(D, L, fpd, b)
    ensures BlockStart(b, fpd) <= |L|
    ensures Without(xs[..BlockStart(b, fpd)], D, 0) == Compact(xs, L, fpd, b)
  {
    BlockStartMono(b, nb, fpd);
    if b > 0 {
      var s := BlockStart(b - 1, fpd);
      var e := BlockStart(b, fpd);
      CompactIsWithout(xs, L, fpd, nb, b - 1, D);
      assert s + fpd == e <= |L| by {
        BlockStartMono(b, nb, fpd);
      }
      var kept := if Dead(L, s, fpd) then [xs[e - 1]] else xs[s..e];
      assert Compact(xs, L, fpd, b) == Compact(xs, L, fpd, b - 1) + kept by {
        CompactStep(xs, L, fpd, b, s, e);
      }
      assert Without(xs[s..e], D, s) == kept by {
        assert BlockMarked(D, L, s, fpd);
        BlockWithout(xs, L, D, s, e, fpd);
      }
      assert Without(xs[..e], D, 0) == Without(xs[..s], D, 0) + Without(xs[s..e], D, s) by {
        WithoutSplit(xs, D, s, e);
      }
    }
  }

  lemma MulSucc(k: nat, n: nat)
    ensures k * (n + 1) == k * n + k
  {
  }

  /** The compacted length: each dead block loses fpd - 1 frames. */
  lemma {:induction false} CompactLength<T>(xs: seq<T>, L: seq<seq<Instr>>, fpd: nat, b: nat)
    requires fpd >= 1 && |xs| == |L| && BlockStart(b, fpd) <= |L|
    ensures |Compact(xs, L, fpd, b)| == BlockStart(b, fpd) - (fpd - 1) * DeadCount(L, fpd, b)
  {
    if b > 0 {
      var s := BlockStart(b - 1, fpd);
      var e := BlockStart(b, fpd);
      CompactLength(xs, L, fpd, b - 1);
      CompactStep(xs, L, fpd, b, s, e);
      MulSucc(fpd - 1, DeadCount(L, fpd, b - 1));
    }
  }

  /** With one frame per day no block loses a frame. */
  lemma {:induction false} CompactOneFramePerDay<T>(xs: seq<T>, L: seq<seq<Instr>>, b: nat)
    requires |xs| == |L| && b <= |L|
    ensures BlockStart(b, 1) == b
    ensures Compact(xs, L, 1, b) == xs[..b]
  {
    if b > 0 {
      CompactOneFramePerDay(xs, L, b - 1);
      assert xs[..b] == xs[..b - 1] + [xs[b - 1]];
    }
  }

  /** Deleting all of `frames_to_remove` from a whole timeline of nb blocks
      compacts it. */
  lemma RemovalCompacts<T>(xs: seq<T>, L: seq<seq<Instr>>, fpd: nat, nb: nat)
    requires fpd >= 1 && |xs| == |L| == BlockStart(nb, fpd)
    ensures Without(xs, RemovalList(L, fpd, nb), 0) == Compact(xs, L, fpd, nb)
    ensures |Compact(xs, L, fpd, nb)| == |L| - (fpd - 1) * DeadCount(L, fpd, nb)
  {
    RemovalMarksBlocks(L, fpd, nb, nb);
    CompactIsWithout(xs, L, fpd, nb, nb, RemovalList(L, fpd, nb));
    assert xs[..|xs|] == xs;
    CompactLength(xs, L, fpd, nb);
  }

  /** The inner loops of `remove_frames`: `diff_plots` stays 0 exactly when
      the block of `fpd` frames from `i` is dead. */
  method ScanBlock(L: seq<seq<Instr>>, i: nat, fpd: nat) returns (diffPlots: int)
    requires i + fpd <= |L|
    ensures diffPlots == 0 || diffPlots == 1
    ensures diffPlots == 0 <==> Dead(L, i, fpd)
  {
    diffPlots := 0;
    for k := 0 to fpd
      invariant diffPlots == 0 || diffPlots == 1
      invariant diffPlots == 0 <==> forall k' :: i <= k' < i + k ==> Quiet(L[k'])
    {
      ghost var before := diffPlots;
      var frames := L[i + k];
      for j := 0 to |frames|
        invariant diffPlots == 0 || diffPlots == 1
        invariant diffPlots == 0 <==>
          before == 0 && forall j' :: 0 <= j' < j ==> IsMuniOrText(frames[j'])
      {
        var frame := frames[j];
        if !IsMuniOrText(frame) && diffPlots == 0 {
          diffPlots := 1;
        }
      }
    }
  }

  /** The insertion loop of `remove_frames` for a dead block from i: each
      of its frames but the last goes to the front of the list. */
  method InsertBlock(framesToRemove: seq<nat>, i: nat, fpd: nat) returns (r: seq<nat>)
    requires fpd >= 1
    ensures r == Desc(i, fpd - 1) + framesToRemove
    ensures forall x: nat :: x in r <==> x in framesToRemove || i <= x < i + fpd - 1
  {
    r := framesToRemove;
    for k := 0 to fpd - 1
      invariant r == Desc(i, k) + framesToRemove
    {
      r := [i + k] + r;
    }
    forall x: nat ensures x in r <==> x in framesToRemove || i <= x < i + fpd - 1 {
      DescMembers(i, fpd - 1, x);
    }
  }

  /** The scan of `remove_frames` (its `while` loop): block by block, decide
      whether the block is dead and, if so, `insert(0, ...)` all of its
      frames but the last.  Called with frames_per_day == 0 and a positive
      limit, Python loops forever (both schedulers pass a limit of 0 then),
      and it raises IndexError when limit is not a multiple of
      frames_per_day, hence the preconditions. */
  method FramesToRemove(L: seq<seq<Instr>>, limit: nat, framesPerDay: nat)
    returns (framesToRemove: seq<nat>)
    requires framesPerDay >= 1 && limit % framesPerDay == 0 && |L| == limit
    ensures BlockStart(limit / framesPerDay, framesPerDay) == limit
    ensures framesToRemove == RemovalList(L, framesPerDay, limit / framesPerDay)
    ensures forall a, c :: 0 <= a < c < |framesToRemove| ==> framesToRemove[a] > framesToRemove[c]
    ensures forall x :: x in framesToRemove ==> x < limit
  {
    var fpd := framesPerDay;
    ghost var nb := limit / fpd;
    BlockStartDiv(limit, fpd);
    var i := 0;
    framesToRemove := [];
    ghost var b := 0;
    while i < limit
      invariant 0 <= b <= nb && i == BlockStart(b, fpd) <= limit
      invariant framesToRemove == RemovalList(L, fpd, b)
      decreases limit - i
    {
      assert b < nb && i + fpd <= limit by {
        BlockStartMono(nb, b, fpd);
        BlockStartMono(b, nb, fpd);
      }
      var diffPlots := ScanBlock(L, i, fpd);
      if diffPlots == 0 {
        framesToRemove := InsertBlock(framesToRemove, i, fpd);
      }
      i := i + fpd;
      b := b + 1;
    }
    assert b == nb by {
      BlockStartMono(b, nb, fpd);
    }
    assert (forall x :: x in framesToRemove ==> x < limit)
           && (forall a, c :: 0 <= a < c < |framesToRemove| ==> framesToRemove[a] > framesToRemove[c]) by {
      RemovalListShape(L, fpd, nb);
    }
  }

  /** `remove_frames`: collapse every dead day-block to its last frame,
      deleting from the frames and the titles together. */
  method RemoveFrames(L: seq<seq<Instr>>, titles: seq<string>, limit: nat, framesPerDay: nat)
    returns (L': seq<seq<Instr>>, titles': seq<string>)
    requires framesPerDay >= 1 && limit % framesPerDay == 0
    requires |L| == limit && |titles| == limit
    ensures BlockStart(limit / framesPerDay, framesPerDay) == limit
    ensures L' == Compact(L, L, framesPerDay, limit / framesPerDay)
    ensures titles' == Compact(titles, L, framesPerDay, limit / framesPerDay)
    ensures |L'| == |titles'| == limit - (framesPerDay - 1) * DeadCount(L, framesPerDay, limit / framesPerDay)
  {
    var fpd := framesPerDay;
    ghost var nb := limit / fpd;
    var framesToRemove := FramesToRemove(L, limit, fpd);
    assert BlockStart(nb, fpd) == limit;
    L', titles' := L, titles;
    WithoutNone(L, [], 0);
    WithoutNone(titles, [], 0);
    assert framesToRemove[..0] == [];
    for p := 0 to |framesToRemove|
      invariant L' == Without(L, framesToRemove[..p], 0)
      invariant titles' == Without(titles, framesToRemove[..p], 0)
    {
      var f := framesToRemove[p];
      assert f in framesToRemove;
      DeleteStep(L, framesToRemove, p);
      DeleteStep(titles, framesToRemove, p);
      L' := L'[..f] + L'[f + 1..];
      titles' := titles'[..f] + titles'[f + 1..];
    }
    assert framesToRemove[..|framesToRemove|] == framesToRemove;
    RemovalCompacts(L, L, fpd, nb);
    RemovalCompacts(titles, L, fpd, nb);
  }
}
