/** The region scheduler of depot/region.py: case points with a decay window
    and a running case count per municipality, transfers between case points,
    and milestones; plus the colour bucket its renderer uses for a count. */
module Region {
  import opened Frames
  import opened AniMapLib
  import opened Transfers

  // ---------------------------------------------------------------------
  // Rendering rules used by fplot
  // ---------------------------------------------------------------------

  /** The five-colour choropleth scale: `floor(count / 5)`, capped at 4.
      (Dafny's `/` by a positive divisor is the floor, as in Python.) */
  function Bucket(count: int): (b: int)
    ensures b <= 4
    ensures b == 4 <==> count >= 20
    ensures count < 20 ==> 5 * b <= count < 5 * b + 5
  {
    var colourIndex := count / 5;
    if colourIndex > 4 then 4 else colourIndex
  }

  /** Higher counts never get a lighter colour. */
  lemma BucketMonotone(c: int, d: int)
    requires c <= d
    ensures Bucket(c) <= Bucket(d)
  {
    if d < 20 {
      assert 5 * Bucket(c) <= c <= d < 5 * Bucket(d) + 5;
    }
  }

  /** The marker colour of a colony category. */
  function ColonyColour(colony: string): (c: Colour)
    ensures c == Purple <==> colony == "Sentinel"
    ensures c == Orange <==> colony == "Natural"
    ensures c == Red <==> colony != "Sentinel" && colony != "Natural"
  {
    if colony == "Sentinel" then Purple
    else if colony == "Natural" then Orange
    else Red
  }

  /** The marker size (or transparency) after `step` decrements of
      `initial / decayFrames`, in exact arithmetic. */
  function Decayed(initial: real, decayFrames: nat, step: nat): real
    requires decayFrames >= 1
  {
    initial - (step as real) * (initial / (decayFrames as real))
  }

  /** Inside the decay window a marker keeps a positive size and opacity. */
  lemma DecayedPositive(initial: real, decayFrames: nat, step: nat)
    requires decayFrames >= 1 && initial > 0.0 && step < decayFrames
    ensures 0.0 < Decayed(initial, decayFrames, step) <= initial
  {
    var d := decayFrames as real;
    var s := step as real;
    assert s * (initial / d) == initial * (s / d);
    assert s / d < 1.0;
    assert initial * (s / d) < initial;
  }

  // ---------------------------------------------------------------------
  // Running municipality counts
  // ---------------------------------------------------------------------

  predicate IsMuniOf(ins: Instr, name: string)
  {
    ins.Muni? && ins.name == name
  }

  /** One step of the scan over a frame: a count entry of `name` goes up by
      one, every other instruction stays. */
  function IncOne(ins: Instr, name: string): Instr
  {
    if IsMuniOf(ins, name) then Muni(name, ins.count + 1) else ins
  }

  /** The frame after the scan, before the possible append. */
  function Inc(frame: seq<Instr>, name: string): (r: seq<Instr>)
    ensures |r| == |frame|
    ensures forall j :: 0 <= j < |frame| ==> r[j] == IncOne(frame[j], name)
  {
    seq(|frame|, j requires 0 <= j < |frame| => IncOne(frame[j], name))
  }

  predicate HasMuni(frame: seq<Instr>, name: string)
  {
    exists j :: 0 <= j < |frame| && IsMuniOf(frame[j], name)
  }

  /** The upsert of one case into one frame: increment the entry of `name`
      if the frame has one, else append a fresh entry with count 1. */
  function Bump(frame: seq<Instr>, name: string): seq<Instr>
  {
    Inc(frame, name) + (if HasMuni(frame, name) then [] else [Muni(name, 1)])
  }

  /** How many count entries of `name` a frame holds. */
  function Entries(frame: seq<Instr>, name: string): nat
  {
    if frame == [] then 0
    else Entries(frame[..|frame| - 1], name) + (if IsMuniOf(frame[|frame| - 1], name) then 1 else 0)
  }

  /** The sum of the counts of those entries. */
  function Total(frame: seq<Instr>, name: string): int
  {
    if frame == [] then 0
    else Total(frame[..|frame| - 1], name)
         + (if IsMuniOf(frame[|frame| - 1], name) then frame[|frame| - 1].count else 0)
  }

  lemma {:induction false} TallyAppend(f: seq<Instr>, g: seq<Instr>, name: string)
    ensures Entries(f + g, name) == Entries(f, name) + Entries(g, name)
    ensures Total(f + g, name) == Total(f, name) + Total(g, name)
  {
    if g == [] {
      assert f + g == f;
    } else {
      var g' := g[..|g| - 1];
      assert (f + g)[..|f + g| - 1] == f + g';
      TallyAppend(f, g', name);
    }
  }

  lemma {:induction false} EntriesHas(frame: seq<Instr>, name: string)
    ensures Entries(frame, name) > 0 <==> HasMuni(frame, name)
  {
    if frame != [] {
      var f' := frame[..|frame| - 1];
      EntriesHas(f', name);
      if HasMuni(frame, name) && !IsMuniOf(frame[|frame| - 1], name) {
        var j :| 0 <= j < |frame| && IsMuniOf(frame[j], name);
        assert IsMuniOf(f'[j], name);
      }
      if HasMuni(f', name) {
        var j :| 0 <= j < |f'| && IsMuniOf(f'[j], name);
        assert IsMuniOf(frame[j], name);
      }
    }
  }

  /** The scan keeps the number of entries of every name, raises the total
      of `name` by its number of entries and leaves other names alone. */
  lemma {:induction false} IncTally(frame: seq<Instr>, name: string, other: string)
    ensures Entries(Inc(frame, name), other) == Entries(frame, other)
    ensures Total(Inc(frame, name), other)
            == Total(frame, other) + (if other == name then Entries(frame, name) else 0)
  {
    if frame != [] {
      var f' := frame[..|frame| - 1];
      assert Inc(frame, name)[..|frame| - 1] == Inc(f', name);
      IncTally(f', name, other);
    }
  }

  /** The municipality invariant: when a frame holds at most one entry of
      every name, the upsert of `name` leaves exactly one entry of `name`,
      raises its count by one, and changes no other name's entry. */
  lemma BumpTally(frame: seq<Instr>, name: string, other: string)
    requires Entries(frame, name) <= 1
    ensures Entries(Bump(frame, name), name) == 1
    ensures Total(Bump(frame, name), name) == Total(frame, name) + 1
    ensures other != name ==> Entries(Bump(frame, name), other) == Entries(frame, other)
    ensures other != name ==> Total(Bump(frame, name), other) == Total(frame, other)
  {
    var tail: seq<Instr> := if HasMuni(frame, name) then [] else [Muni(name, 1)];
    TallyAppend(Inc(frame, name), tail, name);
    TallyAppend(Inc(frame, name), tail, other);
    IncTally(frame, name, name);
    IncTally(frame, name, other);
    EntriesHas(frame, name);
    if tail != [] {
      assert tail[..0] == [];
    }
  }

  /** The municipality loop of one case (depot/region.py, the `for f` loop
      with its inner `while` scan): every frame from `start` to the end gets
      the upsert of `name`; earlier frames are untouched.  A negative start
      would wrap around in Python; the precondition excludes it. */
  method UpsertMunicipality(L: array<seq<Instr>>, start: int, name: string)
    requires 0 <= start
    modifies L
    ensures forall t :: 0 <= t < L.Length ==>
              L[t] == if start <= t then Bump(old(L[t]), name) else old(L[t])
  {
    var limit := L.Length;
    for f := 0 to if limit - start < 0 then 0 else limit - start
      invariant forall t :: 0 <= t < L.Length ==>
                  L[t] == if start <= t < start + f then Bump(old(L[t]), name) else old(L[t])
    {
      UpsertFrame(L, start + f, name);
    }
  }

  /** The `while l_index < len(L[start+f])` loop and the append after it:
      frame t gets the municipality counted once more. */
  method UpsertFrame(L: array<seq<Instr>>, t: nat, name: string)
    requires t < L.Length
    modifies L
    ensures L[t] == Bump(old(L[t]), name)
    ensures forall u :: 0 <= u < L.Length && u != t ==> L[u] == old(L[u])
  {
    ghost var frame := L[t];
    var lIndex := 0;
    var mFound := false;
    while lIndex < |L[t]|
      invariant 0 <= lIndex <= |L[t]| == |frame|
      invariant L[t][..lIndex] == Inc(frame, name)[..lIndex]
      invariant L[t][lIndex..] == frame[lIndex..]
      invariant mFound <==> exists j :: 0 <= j < lIndex && IsMuniOf(frame[j], name)
      invariant forall u :: 0 <= u < L.Length && u != t ==> L[u] == old(L[u])
    {
      if L[t][lIndex].Muni? && L[t][lIndex].name == name {
        L[t] := L[t][lIndex := Muni(name, L[t][lIndex].count + 1)];
        mFound := true;
      }
      lIndex := lIndex + 1;
    }
    assert L[t] == Inc(frame, name);
    if !mFound {
      L[t] := L[t] + [Muni(name, 1)];
    }
  }

  // ---------------------------------------------------------------------
  // Point decay
  // ---------------------------------------------------------------------

  /** The points frame `t` receives from a case whose decay loop runs its
      steps s = start .. hi-1, step s writing to the frames s .. s+fpd-1:
      one point per step that covers t, in step order, each carrying its
      number of decrements s - start. */
  function DecayAt(loc: Loc, colour: Colour, start: int, hi: int, fpd: nat, t: int): (r: seq<Instr>)
    ensures |r| <= fpd
    ensures forall j :: 0 <= j < |r| ==> r[j].Point? && r[j].step < hi - start
  {
    var a := if t - fpd + 1 > start then t - fpd + 1 else start;
    var b := if t + 1 < hi then t + 1 else hi;
    if a >= b then []
    else seq(b - a, j requires 0 <= j < b - a => Point(loc, a + j - start, colour))
  }

  /** One more step of the decay loop adds its point to the frames it covers. */
  lemma DecayAdvance(loc: Loc, colour: Colour, start: int, s: int, fpd: nat, t: int)
    requires start <= s
    ensures DecayAt(loc, colour, start, s + 1, fpd, t)
            == DecayAt(loc, colour, start, s, fpd, t)
               + (if s <= t < s + fpd then [Point(loc, s - start, colour)] else [])
  {
  }

  /** With one frame per day, frame start + k shows exactly the point of
      decay step k for k inside the window and nothing elsewhere. */
  lemma DecayOneFramePerDay(loc: Loc, colour: Colour, start: int, hi: int, t: int)
    ensures DecayAt(loc, colour, start, hi, 1, t)
            == if start <= t < hi then [Point(loc, t - start, colour)] else []
  {
  }

  /** The last step of the decay loop: `point_decay_frames` steps from the
      start, cut at the end of the timeline; none when the case lies before
      the start date. */
  function DecayEnd(start: int, days: int, decayFrames: nat, limit: nat): int
  {
    if days < 0 then start
    else if start + decayFrames < limit then start + decayFrames else limit
  }

  /** Past the window's end, further loop bounds add nothing. */
  lemma DecayStop(loc: Loc, colour: Colour, start: int, s: int, e: int, fpd: nat)
    requires s == e || (s == start && e <= start)
    ensures forall t :: DecayAt(loc, colour, start, s, fpd, t) == DecayAt(loc, colour, start, e, fpd, t)
  {
  }

  /** The inner loop `for f in range(frames_per_day)` of a decay step:
      `ins` goes into the frames s .. s+fpd-1. */
  method AppendToWindow(L: array<seq<Instr>>, ins: Instr, s: int, fpd: nat)
    requires 0 <= s && s + fpd <= L.Length
    modifies L
    ensures forall t :: 0 <= t < L.Length ==>
              L[t] == old(L[t]) + (if s <= t < s + fpd then [ins] else [])
  {
    for f := 0 to fpd
      invariant forall t :: 0 <= t < L.Length ==>
                  L[t] == old(L[t]) + (if s <= t < s + f then [ins] else [])
    {
      L[s + f] := L[s + f] + [ins];
    }
  }

  /** The decay loop of one case (depot/region.py, `while start < end and
      start < limit and delta.days >= 0`).  `start` advances by one frame per
      step even when a day has several frames.  Python raises IndexError when
      a step writes past the last frame; the precondition excludes that. */
  method PlacePoint(L: array<seq<Instr>>, loc: Loc, colour: Colour, start: int, days: int,
                    decayFrames: nat, fpd: nat)
    requires days >= 0 ==> start >= 0
    requires start < DecayEnd(start, days, decayFrames, L.Length) ==>
               DecayEnd(start, days, decayFrames, L.Length) + fpd - 1 <= L.Length
    modifies L
    ensures forall t :: 0 <= t < L.Length ==>
              L[t] == old(L[t]) + DecayAt(loc, colour, start, DecayEnd(start, days, decayFrames, L.Length), fpd, t)
  {
    var limit := L.Length;
    var end := start + decayFrames;
    var s := start;
    while s < end && s < limit && days >= 0
      invariant start <= s
      invariant s > start ==> s <= DecayEnd(start, days, decayFrames, limit)
      invariant forall t :: 0 <= t < L.Length ==>
                  L[t] == old(L[t]) + DecayAt(loc, colour, start, s, fpd, t)
      decreases limit - s
    {
      ghost var mid := L[..];
      AppendToWindow(L, Point(loc, s - start, colour), s, fpd);
      forall t | 0 <= t < L.Length
        ensures L[t] == old(L[t]) + DecayAt(loc, colour, start, s + 1, fpd, t)
      {
        var w := if s <= t < s + fpd then [Point(loc, s - start, colour)] else [];
        DecayAdvance(loc, colour, start, s, fpd, t);
        assert L[t] == mid[t] + w;
        assert (old(L[t]) + DecayAt(loc, colour, start, s, fpd, t)) + w
               == old(L[t]) + (DecayAt(loc, colour, start, s, fpd, t) + w);
      }
      s := s + 1;
    }
    DecayStop(loc, colour, start, s, DecayEnd(start, days, decayFrames, limit), fpd);
  }

  // ---------------------------------------------------------------------
  // Milestones
  // ---------------------------------------------------------------------

  /** The milestone loop (depot/region.py, `while start < limit and
      delta.days >= 0`, advancing a whole day at a time): the text goes into
      every frame from the milestone's day to the END of the timeline, not
      only into that day.  With frames_per_day == 0 the timeline is empty
      and the loop never runs. */
  method PlaceMilestone(L: array<seq<Instr>>, text: string, days: int, fpd: nat, deltaDays: nat)
    requires L.Length == deltaDays * fpd
    modifies L
    ensures forall t :: 0 <= t < L.Length ==>
              L[t] == old(L[t]) + (if 0 <= days && days * fpd <= t then [Text(text)] else [])
  {
    var limit := L.Length;
    var start := days * fpd;
    ghost var d := days;
    while start < limit && days >= 0
      invariant start == d * fpd && (days >= 0 ==> days <= d)
      invariant days >= 0 && start < limit ==> d < deltaDays && fpd >= 1
      invariant forall t :: 0 <= t < L.Length ==>
                  L[t] == old(L[t]) + (if 0 <= days && days * fpd <= t < start then [Text(text)] else [])
      decreases limit - start
    {
      MulPred(d + 1, fpd);
      MulMono(d + 1, deltaDays, fpd);
      AppendToWindow(L, Text(text), start, fpd);
      start := start + fpd;
      d := d + 1;
      MulMono(deltaDays, d, fpd);
    }
  }

  // ---------------------------------------------------------------------
  // Cases
  // ---------------------------------------------------------------------

  /** One row of the cases file: its ID, coordinates, colony category, its
      date as a day offset from the start date, and its municipality. */
  datatype CaseRow = CaseRow(id: string, loc: Loc, colony: string, days: int, municipality: string)

  /** What the `points` table keeps of a case: its location and first frame. */
  datatype PointInfo = PointInfo(loc: Loc, start: int)

  /** The names of the municipality list that match a case's municipality,
      in list order (a name listed twice matches twice).  `fold` stands for
      `unidecode(s.lower())`. */
  function Matched(munis: seq<string>, fold: string -> string, m: string): (r: seq<string>)
    ensures r != [] <==> exists j :: 0 <= j < |munis| && fold(munis[j]) == fold(m)
  {
    if munis == [] then []
    else
      var prev := munis[..|munis| - 1];
      var n := munis[|munis| - 1];
      var r := Matched(prev, fold, m) + (if fold(n) == fold(m) then [n] else []);
      assert r != [] ==> exists j :: 0 <= j < |munis| && fold(munis[j]) == fold(m) by {
        if Matched(prev, fold, m) != [] {
          var j :| 0 <= j < |prev| && fold(prev[j]) == fold(m);
          assert munis[j] == prev[j];
        }
      }
      assert (exists j :: 0 <= j < |munis| && fold(munis[j]) == fold(m)) ==> r != [] by {
        if fold(n) != fold(m) && exists j :: 0 <= j < |munis| && fold(munis[j]) == fold(m) {
          var j :| 0 <= j < |munis| && fold(munis[j]) == fold(m);
          assert prev[j] == munis[j];
        }
      }
      r
  }

  /** A name is matched as often as it is listed if it folds to the case's
      municipality, and never otherwise. */
  lemma {:induction false} MatchedCounts(munis: seq<string>, fold: string -> string, m: string, n: string)
    ensures multiset(Matched(munis, fold, m))[n] == if fold(n) == fold(m) then multiset(munis)[n] else 0
  {
    if munis != [] {
      var prev := munis[..|munis| - 1];
      var x := munis[|munis| - 1];
      assert munis == prev + [x];
      MatchedCounts(prev, fold, m, n);
    }
  }

  /** The upserts of a list of names, one after the other. */
  function BumpAll(frame: seq<Instr>, names: seq<string>): seq<Instr>
    decreases |names|
  {
    if names == [] then frame
    else Bump(BumpAll(frame, names[..|names| - 1]), names[|names| - 1])
  }

  /** Upserting several names keeps at most one entry per name, and the
      count of a name goes up by the number of times it was upserted. */
  lemma {:induction false} BumpAllTally(frame: seq<Instr>, names: seq<string>, n: string)
    requires forall m :: Entries(frame, m) <= 1
    ensures forall m :: Entries(BumpAll(frame, names), m) <= 1
    ensures Total(BumpAll(frame, names), n) == Total(frame, n) + multiset(names)[n]
    decreases |names|
  {
    if names != [] {
      var prev := names[..|names| - 1];
      var x := names[|names| - 1];
      assert names == prev + [x];
      BumpAllTally(frame, prev, n);
      var F := BumpAll(frame, prev);
      forall m ensures Entries(Bump(F, x), m) <= 1 {
        BumpTally(F, x, m);
      }
      BumpTally(F, x, n);
    }
  }

  /** A frame of points, lines and texts holds no count entry. */
  lemma {:induction false} NoMuniTally(frame: seq<Instr>, n: string)
    requires forall j :: 0 <= j < |frame| ==> !frame[j].Muni?
    ensures Entries(frame, n) == 0 && Total(frame, n) == 0
  {
    if frame != [] {
      NoMuniTally(frame[..|frame| - 1], n);
    }
  }

  function CaseStart(r: CaseRow, fpd: nat): int
  {
    r.days * fpd
  }

  function CaseColour(r: CaseRow): Colour
  {
    ColonyColour(r.colony)
  }

  /** What Python needs of a case row: no municipality upsert from a
      negative start (the frame index would wrap around) and no decay step
      past the last frame (IndexError). */
  predicate CaseRowOk(r: CaseRow, munis: seq<string>, fold: string -> string,
                      fpd: nat, decayFrames: nat, limit: nat)
  {
    (Matched(munis, fold, r.municipality) != [] ==> r.days >= 0)
    && (CaseStart(r, fpd) < DecayEnd(CaseStart(r, fpd), r.days, decayFrames, limit) ==>
          DecayEnd(CaseStart(r, fpd), r.days, decayFrames, limit) + fpd - 1 <= limit)
  }

  /** The contents of frame `t` after the cases `rows`, in file order. */
  function CasesAt(rows: seq<CaseRow>, munis: seq<string>, fold: string -> string,
                   fpd: nat, decayFrames: nat, limit: nat, t: int): seq<Instr>
    decreases |rows|
  {
    if rows == [] then []
    else
      var r := rows[|rows| - 1];
      var f := CasesAt(rows[..|rows| - 1], munis, fold, fpd, decayFrames, limit, t);
      var s := CaseStart(r, fpd);
      (if s <= t then BumpAll(f, Matched(munis, fold, r.municipality)) else f)
      + DecayAt(r.loc, CaseColour(r), s, DecayEnd(s, r.days, decayFrames, limit), fpd, t)
  }

  /** How many matches of `n` come from the cases that have started by frame `t`. */
  function CaseCount(rows: seq<CaseRow>, munis: seq<string>, fold: string -> string,
                     fpd: nat, n: string, t: int): nat
    decreases |rows|
  {
    if rows == [] then 0
    else
      var r := rows[|rows| - 1];
      CaseCount(rows[..|rows| - 1], munis, fold, fpd, n, t)
      + (if CaseStart(r, fpd) <= t then multiset(Matched(munis, fold, r.municipality))[n] else 0)
  }

  /** How many matches of `n` come from all the cases (`municipalities_cases`). */
  function MatchCount(rows: seq<CaseRow>, munis: seq<string>, fold: string -> string, n: string): nat
    decreases |rows|
  {
    if rows == [] then 0
    else
      MatchCount(rows[..|rows| - 1], munis, fold, n)
      + multiset(Matched(munis, fold, rows[|rows| - 1].municipality))[n]
  }

  /** The running count shown in every frame: frame t holds at most one
      entry per municipality, and its count is the number of matching cases
      dated on or before the day of t. */
  lemma {:induction false} CasesTally(rows: seq<CaseRow>, munis: seq<string>, fold: string -> string,
                                      fpd: nat, decayFrames: nat, limit: nat, t: int, n: string)
    ensures forall m :: Entries(CasesAt(rows, munis, fold, fpd, decayFrames, limit, t), m) <= 1
    ensures Total(CasesAt(rows, munis, fold, fpd, decayFrames, limit, t), n)
            == CaseCount(rows, munis, fold, fpd, n, t)
    decreases |rows|
  {
    if rows != [] {
      var r := rows[|rows| - 1];
      var prev := rows[..|rows| - 1];
      CasesTally(prev, munis, fold, fpd, decayFrames, limit, t, n);
      var f := CasesAt(prev, munis, fold, fpd, decayFrames, limit, t);
      var s := CaseStart(r, fpd);
      var g := if s <= t then BumpAll(f, Matched(munis, fold, r.municipality)) else f;
      var d := DecayAt(r.loc, CaseColour(r), s, DecayEnd(s, r.days, decayFrames, limit), fpd, t);
      if s <= t {
        BumpAllTally(f, Matched(munis, fold, r.municipality), n);
      }
      forall m ensures Entries(g + d, m) <= 1 {
        TallyAppend(g, d, m);
        NoMuniTally(d, m);
      }
      TallyAppend(g, d, n);
      NoMuniTally(d, n);
    }
  }

  /** Once every case has started, a frame's count agrees with the total in
      `municipalities_cases`. */
  lemma {:induction false} CountsAgreeAtEnd(rows: seq<CaseRow>, munis: seq<string>, fold: string -> string,
                                            fpd: nat, n: string, t: int)
    requires forall i :: 0 <= i < |rows| ==> CaseStart(rows[i], fpd) <= t
    ensures CaseCount(rows, munis, fold, fpd, n, t) == MatchCount(rows, munis, fold, n)
    decreases |rows|
  {
    if rows != [] {
      var prev := rows[..|rows| - 1];
      assert forall i :: 0 <= i < |prev| ==> prev[i] == rows[i];
      CountsAgreeAtEnd(prev, munis, fold, fpd, n, t);
    }
  }

  /** The `points` table after the rows: a later row with the same ID
      replaces an earlier one. */
  function PointTable(rows: seq<CaseRow>, fpd: nat): map<string, PointInfo>
    decreases |rows|
  {
    if rows == [] then map[]
    else
      var r := rows[|rows| - 1];
      PointTable(rows[..|rows| - 1], fpd)[r.id := PointInfo(r.loc, CaseStart(r, fpd))]
  }

  /** An ID is in the table iff some row has it. */
  lemma {:induction false} PointTableKeys(rows: seq<CaseRow>, fpd: nat, id: string)
    ensures id in PointTable(rows, fpd) <==> exists i :: 0 <= i < |rows| && rows[i].id == id
    decreases |rows|
  {
    if rows != [] {
      var prev := rows[..|rows| - 1];
      PointTableKeys(prev, fpd, id);
      if exists i :: 0 <= i < |prev| && prev[i].id == id {
        var i :| 0 <= i < |prev| && prev[i].id == id;
        assert rows[i].id == id;
      }
      if exists i :: 0 <= i < |rows| - 1 && rows[i].id == id {
        var i :| 0 <= i < |rows| - 1 && rows[i].id == id;
        assert prev[i].id == id;
      }
    }
  }

  /** An ID maps to the last row that has it. */
  lemma {:induction false} PointTableLast(rows: seq<CaseRow>, fpd: nat, i: nat)
    requires i < |rows|
    requires forall k :: i < k < |rows| ==> rows[k].id != rows[i].id
    ensures rows[i].id in PointTable(rows, fpd)
    ensures PointTable(rows, fpd)[rows[i].id] == PointInfo(rows[i].loc, CaseStart(rows[i], fpd))
    decreases |rows|
  {
    if i < |rows| - 1 {
      var prev := rows[..|rows| - 1];
      assert prev[i] == rows[i];
      assert forall k :: i < k < |prev| ==> prev[k] == rows[k];
      PointTableLast(prev, fpd, i);
    }
  }

  /** The municipalities printed as unmatched, in file order. */
  function Unmatched(rows: seq<CaseRow>, munis: seq<string>, fold: string -> string): (u: seq<string>)
    ensures |u| <= |rows|
    decreases |rows|
  {
    if rows == [] then []
    else
      var r := rows[|rows| - 1];
      Unmatched(rows[..|rows| - 1], munis, fold)
      + (if Matched(munis, fold, r.municipality) == [] then [r.municipality] else [])
  }

  /** The municipality loop one name further. */
  lemma MatchedStep(munis: seq<string>, fold: string -> string, m: string, j: nat)
    requires j < |munis|
    ensures Matched(munis[..j + 1], fold, m)
            == Matched(munis[..j], fold, m) + (if fold(munis[j]) == fold(m) then [munis[j]] else [])
  {
    assert munis[..j + 1][..j] == munis[..j];
  }

  lemma BumpAllSnoc(frame: seq<Instr>, names: seq<string>, x: string)
    ensures BumpAll(frame, names + [x]) == Bump(BumpAll(frame, names), x)
  {
    assert (names + [x])[..|names|] == names;
  }

  /** `after` is `before` with every name of `names` counted once more per occurrence. */
  predicate Counted(after: map<string, int>, before: map<string, int>, names: seq<string>)
  {
    after.Keys == before.Keys
    && forall n :: n in before ==> after[n] == before[n] + multiset(names)[n]
  }

  lemma CountedStep(after: map<string, int>, before: map<string, int>, names: seq<string>, x: string)
    requires Counted(after, before, names) && x in after
    ensures Counted(after[x := after[x] + 1], before, names + [x])
  {
    assert forall n :: multiset(names + [x])[n] == multiset(names)[n] + (if n == x then 1 else 0);
  }

  /** The municipality loop of one case (depot/region.py, `for name in
      municipalities`): each matching name is counted in
      `municipalities_cases` and upserted into every frame from `start`. */
  method UpsertMatches(L: array<seq<Instr>>, munis: seq<string>, fold: string -> string,
                       m: string, start: int, cases: map<string, int>)
    returns (cases': map<string, int>, found: bool)
    requires Matched(munis, fold, m) != [] ==> start >= 0
    requires forall n :: n in munis ==> n in cases
    modifies L
    ensures found <==> Matched(munis, fold, m) != []
    ensures Counted(cases', cases, Matched(munis, fold, m))
    ensures forall t :: 0 <= t < L.Length ==>
              L[t] == if start <= t then BumpAll(old(L[t]), Matched(munis, fold, m)) else old(L[t])
  {
    cases' := cases;
    found := false;
    ghost var done: seq<string> := [];
    for j := 0 to |munis|
      invariant done == Matched(munis[..j], fold, m)
      invariant found <==> done != []
      invariant Counted(cases', cases, done)
      invariant forall t :: 0 <= t < L.Length ==>
                  L[t] == if start <= t then BumpAll(old(L[t]), done) else old(L[t])
    {
      var name := munis[j];
      MatchedStep(munis, fold, m, j);
      if fold(name) == fold(m) {
        assert start >= 0 by {
          assert fold(munis[j]) == fold(m);
        }
        ghost var mid := L[..];
        UpsertMunicipality(L, start, name);
        forall t | 0 <= t < L.Length
          ensures L[t] == if start <= t then BumpAll(old(L[t]), done + [name]) else old(L[t])
        {
          BumpAllSnoc(old(L[t]), done, name);
          assert mid[t] == if start <= t then BumpAll(old(L[t]), done) else old(L[t]);
        }
        CountedStep(cases', cases, done, name);
        cases' := cases'[name := cases'[name] + 1];
        found := true;
        done := done + [name];
      }
    }
    assert munis[..|munis|] == munis;
  }

  /** One row of the cases loop (depot/region.py): the municipality loop,
      then the entry in `points` (kept by the caller), then the decay loop.
      Row i takes the frames and `municipalities_cases` from their state
      after rows[..i] to their state after rows[..i + 1]. */
  method ProcessCase(L: array<seq<Instr>>, rows: seq<CaseRow>, i: nat, munis: seq<string>,
                     fold: string -> string, cases: map<string, int>, fpd: nat, decayFrames: nat)
    returns (cases': map<string, int>, found: bool)
    requires i < |rows| && CaseRowOk(rows[i], munis, fold, fpd, decayFrames, L.Length)
    requires forall n :: n in munis ==> n in cases
    requires forall n :: n in cases ==> cases[n] == MatchCount(rows[..i], munis, fold, n)
    requires forall t :: 0 <= t < L.Length ==>
               L[t] == CasesAt(rows[..i], munis, fold, fpd, decayFrames, L.Length, t)
    modifies L
    ensures found <==> Matched(munis, fold, rows[i].municipality) != []
    ensures cases'.Keys == cases.Keys
    ensures forall n :: n in cases' ==> cases'[n] == MatchCount(rows[..i + 1], munis, fold, n)
    ensures forall t :: 0 <= t < L.Length ==>
              L[t] == CasesAt(rows[..i + 1], munis, fold, fpd, decayFrames, L.Length, t)
  {
    var r := rows[i];
    var start := r.days * fpd;
    if r.days >= 0 { MulMono(0, r.days, fpd); }
    cases', found := UpsertMatches(L, munis, fold, r.municipality, start, cases);
    PlacePoint(L, r.loc, CaseColour(r), start, r.days, decayFrames, fpd);
    CasesPrefixStep(rows, i, munis, fold, fpd, decayFrames, L.Length);
  }

  /** The frames and the counts one case row further. */
  lemma CasesPrefixStep(rows: seq<CaseRow>, i: nat, munis: seq<string>, fold: string -> string,
                        fpd: nat, decayFrames: nat, limit: nat)
    requires i < |rows|
    ensures forall t :: CasesAt(rows[..i + 1], munis, fold, fpd, decayFrames, limit, t)
              == (if CaseStart(rows[i], fpd) <= t
                  then BumpAll(CasesAt(rows[..i], munis, fold, fpd, decayFrames, limit, t),
                               Matched(munis, fold, rows[i].municipality))
                  else CasesAt(rows[..i], munis, fold, fpd, decayFrames, limit, t))
                 + DecayAt(rows[i].loc, CaseColour(rows[i]), CaseStart(rows[i], fpd),
                           DecayEnd(CaseStart(rows[i], fpd), rows[i].days, decayFrames, limit), fpd, t)
    ensures forall n :: MatchCount(rows[..i + 1], munis, fold, n)
              == MatchCount(rows[..i], munis, fold, n) + multiset(Matched(munis, fold, rows[i].municipality))[n]
  {
    assert rows[..i + 1][..i] == rows[..i];
  }

  /** `points` and the unmatched names one case row further. */
  lemma TablesStep(rows: seq<CaseRow>, i: nat, munis: seq<string>, fold: string -> string, fpd: nat)
    requires i < |rows|
    ensures PointTable(rows[..i + 1], fpd)
            == PointTable(rows[..i], fpd)[rows[i].id := PointInfo(rows[i].loc, CaseStart(rows[i], fpd))]
    ensures Unmatched(rows[..i + 1], munis, fold)
            == Unmatched(rows[..i], munis, fold)
               + (if Matched(munis, fold, rows[i].municipality) == [] then [rows[i].municipality] else [])
  {
    assert rows[..i + 1][..i] == rows[..i];
  }

  /** The whole cases loop (depot/region.py) over frames that start empty:
      every frame ends up as `CasesAt`, `municipalities_cases` (starting at
      0 for every listed name) as `MatchCount`, `points` as `PointTable`,
      and the printed municipalities as `Unmatched`. */
  method ScheduleCases(L: array<seq<Instr>>, rows: seq<CaseRow>, munis: seq<string>,
                       fold: string -> string, fpd: nat, decayFrames: nat)
    returns (cases: map<string, int>, points: map<string, PointInfo>, unmatched: seq<string>)
    requires forall t :: 0 <= t < L.Length ==> L[t] == []
    requires forall i :: 0 <= i < |rows| ==> CaseRowOk(rows[i], munis, fold, fpd, decayFrames, L.Length)
    modifies L
    ensures forall t :: 0 <= t < L.Length ==>
              L[t] == CasesAt(rows, munis, fold, fpd, decayFrames, L.Length, t)
    ensures forall n :: n in cases <==> n in munis
    ensures forall n :: n in cases ==> cases[n] == MatchCount(rows, munis, fold, n)
    ensures points == PointTable(rows, fpd)
    ensures unmatched == Unmatched(rows, munis, fold)
  {
    cases := map n | n in munis :: 0;
    points := map[];
    unmatched := [];
    for i := 0 to |rows|
      invariant forall t :: 0 <= t < L.Length ==>
                  L[t] == CasesAt(rows[..i], munis, fold, fpd, decayFrames, L.Length, t)
      invariant forall n :: n in cases <==> n in munis
      invariant forall n :: n in cases ==> cases[n] == MatchCount(rows[..i], munis, fold, n)
      invariant points == PointTable(rows[..i], fpd)
      invariant unmatched == Unmatched(rows[..i], munis, fold)
    {
      var r := rows[i];
      points := points[r.id := PointInfo(r.loc, r.days * fpd)];
      assert points == PointTable(rows[..i + 1], fpd) by {
        TablesStep(rows, i, munis, fold, fpd);
      }
      var found;
      cases, found := ProcessCase(L, rows, i, munis, fold, cases, fpd, decayFrames);
      if !found {
        unmatched := unmatched + [r.municipality];
      }
      assert unmatched == Unmatched(rows[..i + 1], munis, fold) by {
        TablesStep(rows, i, munis, fold, fpd);
      }
    }
    assert rows[..|rows|] == rows;
  }

  // Transfers
  // ---------------------------------------------------------------------

  /** One row of the transfers file: the IDs of the two cases it links. */
  datatype TransferRow = TransferRow(from: string, to: string)

  /** The ID a transfer row fails on: the arrival is looked up first; the
      origin only when the arrival lies before the end of the timeline. */
  function TransferLookup(r: TransferRow, points: map<string, PointInfo>, limit: int): (o: Outcome)
    ensures o.KeyError? <==> r.to !in points || (points[r.to].start < limit && r.from !in points)
    ensures o.KeyError? ==> o.id == r.to || o.id == r.from
  {
    if r.to !in points then KeyError(r.to)
    else if points[r.to].start < limit && r.from !in points then KeyError(r.from)
    else Done
  }

  /** A row Python can place without a wrapped or out-of-range frame index. */
  predicate TransferFits(r: TransferRow, points: map<string, PointInfo>, k: nat, limit: int)
  {
    r.to in points && points[r.to].start < limit ==>
      k - 1 <= points[r.to].start && points[r.to].start + k - 1 < limit
  }

  /** Every row the transfers loop reaches and places fits: a row after
      the first KeyError is never read, and the row that raises is not
      placed. */
  predicate ReachedTransfersFit(rows: seq<TransferRow>, points: map<string, PointInfo>, k: nat, limit: int)
  {
    forall i :: 0 <= i < |rows| && (forall j :: 0 <= j <= i ==> TransferLookup(rows[j], points, limit).Done?) ==>
      TransferFits(rows[i], points, k, limit)
  }

  /** The instructions frame `t` receives from the transfer rows, in file
      order, each drawn along `curve` between its two case locations. */
  function TransfersAt(rows: seq<TransferRow>, points: map<string, PointInfo>,
                       curve: (Loc, Loc) -> seq<Sample>, k: nat, limit: int, t: int): seq<Instr>
    requires k >= 1
    decreases |rows|
  {
    if rows == [] then []
    else
      var r := rows[|rows| - 1];
      TransfersAt(rows[..|rows| - 1], points, curve, k, limit, t)
      + (if r.to in points && r.from in points && points[r.to].start < limit
         then FanOutAt(curve(points[r.from].loc, points[r.to].loc), k, points[r.to].start, t)
         else [])
  }

  /** Transfers only draw lines. */
  lemma {:induction false} TransfersAreLines(rows: seq<TransferRow>, points: map<string, PointInfo>,
                                             curve: (Loc, Loc) -> seq<Sample>, k: nat, limit: int, t: int)
    requires k >= 1
    ensures forall j :: 0 <= j < |TransfersAt(rows, points, curve, k, limit, t)| ==>
              TransfersAt(rows, points, curve, k, limit, t)[j].Line?
    decreases |rows|
  {
    if rows != [] {
      TransfersAreLines(rows[..|rows| - 1], points, curve, k, limit, t);
    }
  }

  /** A transfer within reach of frame `t` puts at most one line there, and
      a frame more than k-1 frames from every arrival gets none. */
  lemma {:induction false} TransfersCount(rows: seq<TransferRow>, points: map<string, PointInfo>,
                                          curve: (Loc, Loc) -> seq<Sample>, k: nat, limit: int, t: int)
    requires k >= 1
    ensures |TransfersAt(rows, points, curve, k, limit, t)| <= |rows|
    ensures (forall i :: 0 <= i < |rows| && rows[i].to in points ==>
               !(points[rows[i].to].start - (k - 1) <= t <= points[rows[i].to].start + (k - 1)))
            ==> TransfersAt(rows, points, curve, k, limit, t) == []
    decreases |rows|
  {
    if rows != [] {
      var prev := rows[..|rows| - 1];
      assert forall i :: 0 <= i < |prev| ==> prev[i] == rows[i];
      TransfersCount(prev, points, curve, k, limit, t);
    }
  }

  /** The transfers loop (depot/region.py).  A KeyError ends the program;
      the outcome names the first row that raises it.  When every row is
      placed, each frame gets `TransfersAt`. */
  method ScheduleTransfers(L: array<seq<Instr>>, rows: seq<TransferRow>, points: map<string, PointInfo>,
                           curve: (Loc, Loc) -> seq<Sample>, framesForLine: nat)
    returns (outcome: Outcome)
    requires framesForLine >= 1
    requires ReachedTransfersFit(rows, points, framesForLine, L.Length)
    modifies L
    ensures outcome.Done? <==> forall i :: 0 <= i < |rows| ==> TransferLookup(rows[i], points, L.Length).Done?
    ensures outcome.KeyError? ==>
              exists i :: 0 <= i < |rows| && TransferLookup(rows[i], points, L.Length) == outcome
                          && forall j :: 0 <= j < i ==> TransferLookup(rows[j], points, L.Length).Done?
    ensures outcome.Done? ==> forall t :: 0 <= t < L.Length ==>
              L[t] == old(L[t]) + TransfersAt(rows, points, curve, framesForLine, L.Length, t)
  {
    var limit := L.Length;
    outcome := Done;
    for i := 0 to |rows|
      invariant forall j :: 0 <= j < i ==> TransferLookup(rows[j], points, limit).Done?
      invariant forall t :: 0 <= t < L.Length ==>
                  L[t] == old(L[t]) + TransfersAt(rows[..i], points, curve, framesForLine, limit, t)
    {
      var r := rows[i];
      assert rows[..i + 1][..i] == rows[..i];
      if r.to !in points {
        outcome := KeyError(r.to);
        return;
      }
      var start := points[r.to].start;
      if start < limit {
        if r.from !in points {
          outcome := KeyError(r.from);
          return;
        }
        assert TransferFits(r, points, framesForLine, limit) by {
          assert forall j :: 0 <= j <= i ==> TransferLookup(rows[j], points, limit).Done?;
        }
        var path := curve(points[r.from].loc, points[r.to].loc);
        FanOut(L, path, framesForLine, start);
      }
    }
    assert rows[..|rows|] == rows;
  }

  // ---------------------------------------------------------------------
  // Milestones file
  // ---------------------------------------------------------------------

  /** One row of the milestones file: its date as a day offset, and its text. */
  datatype MilestoneRow = MilestoneRow(days: int, text: string)

  /** The texts frame `t` shows: every milestone dated on or before its day. */
  function MilestonesAt(rows: seq<MilestoneRow>, fpd: nat, t: int): seq<Instr>
    decreases |rows|
  {
    if rows == [] then []
    else
      var r := rows[|rows| - 1];
      MilestonesAt(rows[..|rows| - 1], fpd, t)
      + (if 0 <= r.days && r.days * fpd <= t then [Text(r.text)] else [])
  }

  /** A milestone stays on screen from its day to the end: it is in every
      later frame, and a later frame shows at least the texts of an earlier one. */
  lemma {:induction false} MilestonePersists(rows: seq<MilestoneRow>, fpd: nat, i: nat, t: int)
    requires i < |rows| && 0 <= rows[i].days && rows[i].days * fpd <= t
    ensures Text(rows[i].text) in MilestonesAt(rows, fpd, t)
    decreases |rows|
  {
    var prev := rows[..|rows| - 1];
    if i < |rows| - 1 {
      assert prev[i] == rows[i];
      MilestonePersists(prev, fpd, i, t);
    }
  }

  lemma {:induction false} MilestonesGrow(rows: seq<MilestoneRow>, fpd: nat, t: int, u: int)
    requires t <= u
    ensures |MilestonesAt(rows, fpd, t)| <= |MilestonesAt(rows, fpd, u)|
    ensures forall j :: 0 <= j < |MilestonesAt(rows, fpd, t)| ==> MilestonesAt(rows, fpd, t)[j].Text?
    decreases |rows|
  {
    if rows != [] {
      MilestonesGrow(rows[..|rows| - 1], fpd, t, u);
    }
  }

  /** The milestones loop (depot/region.py). */
  method ScheduleMilestones(L: array<seq<Instr>>, rows: seq<MilestoneRow>, fpd: nat, deltaDays: nat)
    requires L.Length == deltaDays * fpd
    modifies L
    ensures forall t :: 0 <= t < L.Length ==> L[t] == old(L[t]) + MilestonesAt(rows, fpd, t)
  {
    for i := 0 to |rows|
      invariant forall t :: 0 <= t < L.Length ==> L[t] == old(L[t]) + MilestonesAt(rows[..i], fpd, t)
    {
      assert rows[..i + 1][..i] == rows[..i];
      PlaceMilestone(L, rows[i].text, rows[i].days, fpd, deltaDays);
    }
    assert rows[..|rows|] == rows;
  }

  // ---------------------------------------------------------------------
  // The whole region schedule
  // ---------------------------------------------------------------------

  /** The settings the region scheduler reads from its configuration. */
  datatype RegionConfig = RegionConfig(
    framesPerDay: nat, framesForLine: nat, pointDecayDays: nat,
    startDay: int, deltaDays: nat, titleFormat: string)

  /** Frames, titles and `municipalities_cases`, or the ID of the KeyError
      that ends the program in the transfers loop. */
  datatype RegionResult =
    | Scheduled(frames: seq<seq<Instr>>, titles: seq<string>, counts: map<string, int>)
    | Failed(id: string)

  function Limit(cfg: RegionConfig): (l: nat)
    ensures l == BlockStart(cfg.deltaDays, cfg.framesPerDay)
  {
    BlockStartProduct(cfg.deltaDays, cfg.framesPerDay);
    cfg.deltaDays * cfg.framesPerDay
  }

  /** The frames split into whole days. */
  lemma LimitBlocks(cfg: RegionConfig)
    requires cfg.framesPerDay >= 1
    ensures Limit(cfg) == cfg.deltaDays * cfg.framesPerDay
    ensures Limit(cfg) % cfg.framesPerDay == 0 && Limit(cfg) / cfg.framesPerDay == cfg.deltaDays
  {
    DayOfFrame(cfg.deltaDays, cfg.framesPerDay, 0);
  }

  function DecayFrames(cfg: RegionConfig): nat
  {
    cfg.pointDecayDays * cfg.framesPerDay
  }

  /** Every frame before compaction: the cases, then the transfers, then the milestones. */
  function Timeline(cfg: RegionConfig, munis: seq<string>, fold: string -> string, cases: seq<CaseRow>,
                    transfers: seq<TransferRow>, curve: (Loc, Loc) -> seq<Sample>,
                    milestones: seq<MilestoneRow>): (tl: seq<seq<Instr>>)
    requires cfg.framesForLine >= 1
    ensures |tl| == Limit(cfg)
  {
    var fpd := cfg.framesPerDay;
    seq(Limit(cfg), t requires 0 <= t < Limit(cfg) =>
      CasesAt(cases, munis, fold, fpd, DecayFrames(cfg), Limit(cfg), t)
      + TransfersAt(transfers, PointTable(cases, fpd), curve, cfg.framesForLine, Limit(cfg), t)
      + MilestonesAt(milestones, fpd, t))
  }

  /** The three scheduling loops of `main` in depot/region.py over frames
      allocated empty: the cases, the transfers (which stop at a KeyError)
      and the milestones. */
  method RegionFrames(cfg: RegionConfig, fold: string -> string, curve: (Loc, Loc) -> seq<Sample>,
                      munis: seq<string>, cases: seq<CaseRow>, transfers: seq<TransferRow>,
                      milestones: seq<MilestoneRow>)
    returns (outcome: Outcome, frames: seq<seq<Instr>>, counts: map<string, int>, unmatched: seq<string>)
    requires cfg.framesPerDay >= 1 && cfg.framesForLine >= 1
    requires forall i :: 0 <= i < |cases| ==>
               CaseRowOk(cases[i], munis, fold, cfg.framesPerDay, DecayFrames(cfg), Limit(cfg))
    requires ReachedTransfersFit(transfers, PointTable(cases, cfg.framesPerDay), cfg.framesForLine, Limit(cfg))
    ensures outcome.KeyError? <==>
              exists i :: 0 <= i < |transfers| &&
                TransferLookup(transfers[i], PointTable(cases, cfg.framesPerDay), Limit(cfg)).KeyError?
    ensures outcome.Done? ==> frames == Timeline(cfg, munis, fold, cases, transfers, curve, milestones)
    ensures forall n :: n in counts <==> n in munis
    ensures forall n :: n in counts ==> counts[n] == MatchCount(cases, munis, fold, n)
    ensures unmatched == Unmatched(cases, munis, fold)
  {
    var fpd := cfg.framesPerDay;
    var limit := Limit(cfg);
    var L := new seq<Instr>[limit](_ => []);
    var points;
    counts, points, unmatched := ScheduleCases(L, cases, munis, fold, fpd, cfg.pointDecayDays * fpd);
    frames := [];
    outcome := ScheduleTransfers(L, transfers, points, curve, cfg.framesForLine);
    if outcome.KeyError? {
      return;
    }
    ScheduleMilestones(L, milestones, fpd, cfg.deltaDays);
    frames := L[..];
    assert frames == Timeline(cfg, munis, fold, cases, transfers, curve, milestones);
  }

  /** `main` of depot/region.py from the titles to `remove_frames`: the
      frames are scheduled and then compacted together with their titles.
      Python divides the marker size by the number of decay frames first,
      so that number must not be zero. */
  method ScheduleRegion(cfg: RegionConfig, strftime: (string, int) -> string, fold: string -> string,
                        curve: (Loc, Loc) -> seq<Sample>, munis: seq<string>, cases: seq<CaseRow>,
                        transfers: seq<TransferRow>, milestones: seq<MilestoneRow>)
    returns (res: RegionResult, unmatched: seq<string>)
    requires cfg.framesPerDay >= 1 && cfg.framesForLine >= 1 && cfg.pointDecayDays >= 1
    requires forall i :: 0 <= i < |cases| ==>
               CaseRowOk(cases[i], munis, fold, cfg.framesPerDay, DecayFrames(cfg), Limit(cfg))
    requires ReachedTransfersFit(transfers, PointTable(cases, cfg.framesPerDay), cfg.framesForLine, Limit(cfg))
    ensures res.Failed? <==>
              exists i :: 0 <= i < |transfers| &&
                TransferLookup(transfers[i], PointTable(cases, cfg.framesPerDay), Limit(cfg)).KeyError?
    ensures res.Scheduled? ==>
              var tl := Timeline(cfg, munis, fold, cases, transfers, curve, milestones);
              res.frames == Compact(tl, tl, cfg.framesPerDay, cfg.deltaDays)
              && res.titles == Compact(FrameTitles(strftime, cfg.titleFormat, cfg.startDay, cfg.deltaDays, cfg.framesPerDay),
                                       tl, cfg.framesPerDay, cfg.deltaDays)
    ensures res.Scheduled? ==> forall n :: n in res.counts <==> n in munis
    ensures res.Scheduled? ==> forall n :: n in res.counts ==> res.counts[n] == MatchCount(cases, munis, fold, n)
    ensures unmatched == Unmatched(cases, munis, fold)
  {
    var fpd := cfg.framesPerDay;
    var limit := Limit(cfg);
    var titles := Title(strftime, cfg.titleFormat, cfg.startDay, cfg.deltaDays, fpd);
    var outcome, L, counts;
    outcome, L, counts, unmatched := RegionFrames(cfg, fold, curve, munis, cases, transfers, milestones);
    if outcome.KeyError? {
      return Failed(outcome.id), unmatched;
    }
    assert |titles| == limit && limit % fpd == 0 && limit / fpd == cfg.deltaDays by {
      LimitBlocks(cfg);
    }
    var frames, titles' := RemoveFrames(L, titles, limit, fpd);
    res := Scheduled(frames, titles', counts);
  }
}
