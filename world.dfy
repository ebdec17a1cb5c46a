/** The world scheduler of depot/world.py: country and region states that
    turn from red to blue, transfers between region centroids, and the
    grouping of equal consecutive frames so that each is drawn once and
    copied. */
module World {
  import opened Frames
  import opened AniMapLib
  import opened Transfers

  // ---------------------------------------------------------------------
  // Name matching
  // ---------------------------------------------------------------------

  /** The name a matching loop settles on: the LAST listed name whose folded
      form equals the folded query, or the query itself when none does.
      `fold` stands for `unidecode(s.lower())`. */
  function Resolve(names: seq<string>, query: string, fold: string -> string): (r: string)
    ensures fold(r) == fold(query)
    ensures r == query || r in names
    decreases |names|
  {
    if names == [] then query
    else if fold(names[|names| - 1]) == fold(query) then names[|names| - 1]
    else Resolve(names[..|names| - 1], query, fold)
  }

  predicate Listed(names: seq<string>, query: string, fold: string -> string)
  {
    exists j :: 0 <= j < |names| && fold(names[j]) == fold(query)
  }

  /** The resolved name is the last match, and the query when nothing matches. */
  lemma {:induction false} ResolveLast(names: seq<string>, query: string, fold: string -> string, j: nat)
    requires j < |names| && fold(names[j]) == fold(query)
    requires forall k :: j < k < |names| ==> fold(names[k]) != fold(query)
    ensures Resolve(names, query, fold) == names[j]
    decreases |names|
  {
    if j < |names| - 1 {
      var prev := names[..|names| - 1];
      assert prev[j] == names[j];
      assert forall k :: j < k < |prev| ==> prev[k] == names[k];
      ResolveLast(prev, query, fold, j);
    }
  }

  lemma {:induction false} ResolveUnlisted(names: seq<string>, query: string, fold: string -> string)
    requires !Listed(names, query, fold)
    ensures Resolve(names, query, fold) == query
    decreases |names|
  {
    if names != [] {
      var prev := names[..|names| - 1];
      assert forall j :: 0 <= j < |prev| ==> prev[j] == names[j];
      ResolveUnlisted(prev, query, fold);
    }
  }

  lemma ResolveStep(names: seq<string>, query: string, fold: string -> string, j: nat)
    requires j < |names|
    ensures Resolve(names[..j + 1], query, fold)
            == if fold(names[j]) == fold(query) then names[j] else Resolve(names[..j], query, fold)
  {
    assert names[..j + 1][..j] == names[..j];
  }

  /** The country loop of a world case (depot/world.py, `for name in
      countries`): every match replaces the country by the listed name.
      Later comparisons use the replaced name, whose folded form is the
      same, so the last match wins. */
  method MatchCountry(countries: seq<string>, country: string, fold: string -> string)
    returns (resolved: string, cFound: bool)
    ensures resolved == Resolve(countries, country, fold)
    ensures cFound <==> Listed(countries, country, fold)
  {
    resolved := country;
    cFound := false;
    for j := 0 to |countries|
      invariant resolved == Resolve(countries[..j], country, fold)
      invariant cFound <==> Listed(countries[..j], country, fold)
    {
      var name := countries[j];
      ResolveStep(countries, country, fold, j);
      assert forall k :: 0 <= k < j ==> countries[..j + 1][k] == countries[..j][k];
      assert countries[..j + 1][j] == name;
      if fold(name) == fold(resolved) {
        resolved := name;
        cFound := true;
      }
    }
    assert countries[..|countries|] == countries;
  }

  /** The region loop of a world case: as for countries, except that an
      empty region counts as found as soon as some region is listed. */
  method MatchRegion(regions: seq<string>, region: string, fold: string -> string)
    returns (resolved: string, rFound: bool)
    ensures resolved == Resolve(regions, region, fold)
    ensures rFound <==> (region == "" && regions != []) || Listed(regions, region, fold)
  {
    resolved := region;
    rFound := false;
    for j := 0 to |regions|
      invariant resolved == Resolve(regions[..j], region, fold)
      invariant resolved == region || Listed(regions[..j], region, fold)
      invariant rFound <==> (region == "" && j > 0) || Listed(regions[..j], region, fold)
    {
      var name := regions[j];
      ResolveStep(regions, region, fold, j);
      assert forall k :: 0 <= k < j ==> regions[..j + 1][k] == regions[..j][k];
      assert regions[..j + 1][j] == name;
      if resolved == "" {
        rFound := true;
      }
      if fold(name) == fold(resolved) {
        resolved := name;
        rFound := true;
      }
    }
    assert regions[..|regions|] == regions;
  }

  // ---------------------------------------------------------------------
  // Cases
  // ---------------------------------------------------------------------

  /** The End column: empty, or a number of frames. */
  datatype End = Open | After(frames: int)

  /** One row of the world cases file; `days` is its date as a day offset
      from the start date. */
  datatype WorldCase = WorldCase(id: string, country: string, region: string, days: int, end: End)

  /** How many frames from its start a case is drawn red: all of them for
      an empty End, else the End value, counted in frames. */
  function EndValue(e: End, limit: nat): int
  {
    match e
    case Open => limit
    case After(n) => n
  }

  /** The state frame `t` receives from a case starting at `start`:
      red for the first `endValue` frames, blue from then on to the end. */
  function CountryAt(country: string, region: string, start: int, endValue: int, t: int): (r: seq<Instr>)
    ensures |r| == 1 <==> start <= t
    ensures start <= t ==> r[0].Country? && r[0].country == country && r[0].region == region
    ensures start <= t ==> (r[0].colour == Red <==> t - start < endValue)
    ensures start <= t ==> (r[0].colour == Blue <==> t - start >= endValue)
  {
    if start <= t then [Country(country, region, if t - start < endValue then Red else Blue)] else []
  }

  /** The placement loop of a case (`for f in range(limit - start)`).  A
      negative start would wrap around in Python; the precondition excludes it. */
  method PlaceCountry(L: array<seq<Instr>>, country: string, region: string, start: int, endValue: int)
    requires 0 <= start
    modifies L
    ensures forall t :: 0 <= t < L.Length ==>
              L[t] == old(L[t]) + CountryAt(country, region, start, endValue, t)
  {
    var limit := L.Length;
    var e := 0;
    for f := 0 to if limit - start < 0 then 0 else limit - start
      invariant e == f
      invariant forall t :: 0 <= t < L.Length ==>
                  L[t] == old(L[t]) + (if t < start + f then CountryAt(country, region, start, endValue, t) else [])
    {
      if e < endValue {
        L[start + f] := L[start + f] + [Country(country, region, Red)];
      } else {
        L[start + f] := L[start + f] + [Country(country, region, Blue)];
      }
      e := e + 1;
    }
  }

  function WorldStart(r: WorldCase, fpd: nat): int
  {
    r.days * fpd
  }

  /** The states frame `t` shows after the cases `rows`, in file order. */
  function WorldCasesAt(rows: seq<WorldCase>, countries: seq<string>, regions: seq<string>,
                        fold: string -> string, fpd: nat, limit: nat, t: int): seq<Instr>
    decreases |rows|
  {
    if rows == [] then []
    else
      var r := rows[|rows| - 1];
      WorldCasesAt(rows[..|rows| - 1], countries, regions, fold, fpd, limit, t)
      + CountryAt(Resolve(countries, r.country, fold), Resolve(regions, r.region, fold),
                  WorldStart(r, fpd), EndValue(r.end, limit), t)
  }

  /** Frame `t` holds one state per case that has started by then. */
  lemma {:induction false} WorldCasesCount(rows: seq<WorldCase>, countries: seq<string>, regions: seq<string>,
                                           fold: string -> string, fpd: nat, limit: nat, t: int)
    ensures |WorldCasesAt(rows, countries, regions, fold, fpd, limit, t)|
            == |set i | 0 <= i < |rows| && WorldStart(rows[i], fpd) <= t|
    decreases |rows|
  {
    if rows != [] {
      var prev := rows[..|rows| - 1];
      WorldCasesCount(prev, countries, regions, fold, fpd, limit, t);
      var k := |rows| - 1;
      var A := set i | 0 <= i < |prev| && WorldStart(prev[i], fpd) <= t;
      var B := set i | 0 <= i < |rows| && WorldStart(rows[i], fpd) <= t;
      var C: set<int> := if WorldStart(rows[k], fpd) <= t then {k} else {};
      forall i ensures i in B <==> i in A || i in C {
        if 0 <= i < |prev| {
          assert prev[i] == rows[i];
        }
      }
      assert B == A + C;
      assert k !in A;
      assert |WorldCasesAt(rows, countries, regions, fold, fpd, limit, t)|
             == |WorldCasesAt(prev, countries, regions, fold, fpd, limit, t)|
                + (if WorldStart(rows[k], fpd) <= t then 1 else 0);
    }
  }

  /** The rows whose region is printed as not found, in file order. */
  function UnknownRegions(rows: seq<WorldCase>, regions: seq<string>, fold: string -> string): (u: seq<string>)
    ensures |u| <= |rows|
    decreases |rows|
  {
    if rows == [] then []
    else
      var r := rows[|rows| - 1];
      UnknownRegions(rows[..|rows| - 1], regions, fold)
      + (if (r.region == "" && regions != []) || Listed(regions, r.region, fold) then [] else [r.region])
  }

  /** What Python needs of a case row: no placement from a negative start,
      whose frame indices would wrap around or raise IndexError. */
  predicate WorldCaseFits(r: WorldCase, fpd: nat)
  {
    0 <= WorldStart(r, fpd)
  }

  /** Every row the cases loop reaches fits: the loop stops after the first
      row with an unlisted country, which is still placed. */
  predicate ReachedCasesFit(rows: seq<WorldCase>, countries: seq<string>, fold: string -> string, fpd: nat)
  {
    forall i :: 0 <= i < |rows| && (forall j :: 0 <= j < i ==> Listed(countries, rows[j].country, fold)) ==>
      WorldCaseFits(rows[i], fpd)
  }

  /** The end of the cases loop: normal, or `sys.exit` at an unlisted country. */
  datatype CasesEnd = AllPlaced | UnknownCountry(country: string)

  /** One row of the world cases loop: match the country and the region,
      place the case, and report whether the country is listed (else the
      program stops) and the region to print when it is not found. */
  method ProcessWorldCase(L: array<seq<Instr>>, r: WorldCase, countries: seq<string>,
                          regions: seq<string>, fold: string -> string, fpd: nat)
    returns (cFound: bool, printed: seq<string>)
    requires WorldCaseFits(r, fpd)
    modifies L
    ensures cFound <==> Listed(countries, r.country, fold)
    ensures printed == UnknownRegions([r], regions, fold)
    ensures forall t :: 0 <= t < L.Length ==>
              L[t] == old(L[t]) + CountryAt(Resolve(countries, r.country, fold), Resolve(regions, r.region, fold),
                                            WorldStart(r, fpd), EndValue(r.end, L.Length), t)
  {
    var limit := L.Length;
    var country;
    country, cFound := MatchCountry(countries, r.country, fold);
    var region, rFound := MatchRegion(regions, r.region, fold);
    var start := r.days * fpd;
    var endValue := match r.end case Open => limit case After(n) => n;
    PlaceCountry(L, country, region, start, endValue);
    printed := [];
    if !rFound {
      ResolveUnlisted(regions, r.region, fold);
      printed := [region];
    }
    assert [r][..0] == [];
  }

  /** The case states and the printed regions one row further. */
  lemma WorldCasesStep(rows: seq<WorldCase>, i: nat, countries: seq<string>, regions: seq<string>,
                       fold: string -> string, fpd: nat, limit: nat, t: int)
    requires i < |rows|
    ensures WorldCasesAt(rows[..i + 1], countries, regions, fold, fpd, limit, t)
            == WorldCasesAt(rows[..i], countries, regions, fold, fpd, limit, t)
               + CountryAt(Resolve(countries, rows[i].country, fold), Resolve(regions, rows[i].region, fold),
                           WorldStart(rows[i], fpd), EndValue(rows[i].end, limit), t)
    ensures UnknownRegions(rows[..i + 1], regions, fold)
            == UnknownRegions(rows[..i], regions, fold) + UnknownRegions([rows[i]], regions, fold)
  {
    assert rows[..i + 1][..i] == rows[..i];
    assert [rows[i]][..0] == [];
  }

  /** The world cases loop (depot/world.py).  Each row is matched, placed,
      and then, if its country is not listed, the program stops; a row with
      an unlisted region is only reported. */
  method ScheduleWorldCases(L: array<seq<Instr>>, rows: seq<WorldCase>, countries: seq<string>,
                            regions: seq<string>, fold: string -> string, fpd: nat)
    returns (outcome: CasesEnd, printed: seq<string>)
    requires ReachedCasesFit(rows, countries, fold, fpd)
    modifies L
    ensures outcome.AllPlaced? <==> forall i :: 0 <= i < |rows| ==> Listed(countries, rows[i].country, fold)
    ensures outcome.UnknownCountry? ==>
              exists i :: 0 <= i < |rows| && !Listed(countries, rows[i].country, fold)
                          && outcome.country == rows[i].country
                          && printed == UnknownRegions(rows[..i], regions, fold)
                          && forall j :: 0 <= j < i ==> Listed(countries, rows[j].country, fold)
    ensures outcome.AllPlaced? ==>
              printed == UnknownRegions(rows, regions, fold)
              && forall t :: 0 <= t < L.Length ==>
                   L[t] == old(L[t]) + WorldCasesAt(rows, countries, regions, fold, fpd, L.Length, t)
  {
    var limit := L.Length;
    outcome := AllPlaced;
    printed := [];
    for i := 0 to |rows|
      invariant forall j :: 0 <= j < i ==> Listed(countries, rows[j].country, fold)
      invariant printed == UnknownRegions(rows[..i], regions, fold)
      invariant forall t :: 0 <= t < L.Length ==>
                  L[t] == old(L[t]) + WorldCasesAt(rows[..i], countries, regions, fold, fpd, limit, t)
    {
      var r := rows[i];
      var cFound, line := ProcessWorldCase(L, r, countries, regions, fold, fpd);
      if !cFound {
        ResolveUnlisted(countries, r.country, fold);
        outcome := UnknownCountry(Resolve(countries, r.country, fold));
        return;
      }
      printed := printed + line;
      assert printed == UnknownRegions(rows[..i + 1], regions, fold) by {
        WorldCasesStep(rows, i, countries, regions, fold, fpd, limit, 0);
      }
      forall t | 0 <= t < L.Length
        ensures L[t] == old(L[t]) + WorldCasesAt(rows[..i + 1], countries, regions, fold, fpd, limit, t)
      {
        WorldCasesStep(rows, i, countries, regions, fold, fpd, limit, t);
      }
    }
    assert rows[..|rows|] == rows;
  }

  // ---------------------------------------------------------------------
  // Transfers
  // ---------------------------------------------------------------------

  /** One row of the world transfers file: the two region names it links
      and its date as a day offset. */
  datatype WorldTransfer = WorldTransfer(from: string, to: string, days: int)

  /** The ID a row fails on: rows at or after the end are skipped; for the
      others the origin's centroid is looked up first, then the arrival's. */
  function CentroidLookup(r: WorldTransfer, centroids: map<string, Loc>, fpd: nat, limit: int): (o: Outcome)
    ensures o.KeyError? <==> r.days * fpd < limit && (r.from !in centroids || r.to !in centroids)
    ensures o.KeyError? ==> o.id == r.from || o.id == r.to
  {
    if r.days * fpd >= limit then Done
    else if r.from !in centroids then KeyError(r.from)
    else if r.to !in centroids then KeyError(r.to)
    else Done
  }

  /** A row Python can place without a wrapped or out-of-range frame index. */
  predicate WorldTransferFits(r: WorldTransfer, fpd: nat, k: nat, limit: int)
  {
    r.days * fpd < limit ==> k - 1 <= r.days * fpd && r.days * fpd + k - 1 < limit
  }

  /** Every row the transfers loop reaches and places fits: a row after the
      first KeyError is never read, and the row that raises is not placed. */
  predicate ReachedWorldTransfersFit(rows: seq<WorldTransfer>, centroids: map<string, Loc>, fpd: nat, k: nat,
                                     limit: int)
  {
    forall i :: 0 <= i < |rows| && (forall j :: 0 <= j <= i ==> CentroidLookup(rows[j], centroids, fpd, limit).Done?) ==>
      WorldTransferFits(rows[i], fpd, k, limit)
  }

  /** The lines frame `t` receives from the transfer rows, in file order. */
  function WorldTransfersAt(rows: seq<WorldTransfer>, centroids: map<string, Loc>,
                            curve: (Loc, Loc) -> seq<Sample>, k: nat, fpd: nat, limit: int, t: int): seq<Instr>
    requires k >= 1
    decreases |rows|
  {
    if rows == [] then []
    else
      var r := rows[|rows| - 1];
      WorldTransfersAt(rows[..|rows| - 1], centroids, curve, k, fpd, limit, t)
      + (if r.days * fpd < limit && r.from in centroids && r.to in centroids
         then FanOutAt(curve(centroids[r.from], centroids[r.to]), k, r.days * fpd, t)
         else [])
  }

  /** Transfers only add lines, and a frame gets at most one per row. */
  lemma {:induction false} WorldTransfersAreLines(rows: seq<WorldTransfer>, centroids: map<string, Loc>,
                                                  curve: (Loc, Loc) -> seq<Sample>, k: nat, fpd: nat,
                                                  limit: int, t: int)
    requires k >= 1
    ensures |WorldTransfersAt(rows, centroids, curve, k, fpd, limit, t)| <= |rows|
    ensures forall j :: 0 <= j < |WorldTransfersAt(rows, centroids, curve, k, fpd, limit, t)| ==>
              WorldTransfersAt(rows, centroids, curve, k, fpd, limit, t)[j].Line?
    decreases |rows|
  {
    if rows != [] {
      WorldTransfersAreLines(rows[..|rows| - 1], centroids, curve, k, fpd, limit, t);
    }
  }

  /** The world transfers loop (depot/world.py).  A KeyError ends the
      program; the outcome names the first row that raises it. */
  method ScheduleWorldTransfers(L: array<seq<Instr>>, rows: seq<WorldTransfer>, centroids: map<string, Loc>,
                                curve: (Loc, Loc) -> seq<Sample>, framesForLine: nat, fpd: nat)
    returns (outcome: Outcome)
    requires framesForLine >= 1
    requires ReachedWorldTransfersFit(rows, centroids, fpd, framesForLine, L.Length)
    modifies L
    ensures outcome.Done? <==>
              forall i :: 0 <= i < |rows| ==> CentroidLookup(rows[i], centroids, fpd, L.Length).Done?
    ensures outcome.KeyError? ==>
              exists i :: 0 <= i < |rows| && CentroidLookup(rows[i], centroids, fpd, L.Length) == outcome
                          && forall j :: 0 <= j < i ==> CentroidLookup(rows[j], centroids, fpd, L.Length).Done?
    ensures outcome.Done? ==> forall t :: 0 <= t < L.Length ==>
              L[t] == old(L[t]) + WorldTransfersAt(rows, centroids, curve, framesForLine, fpd, L.Length, t)
  {
    var limit := L.Length;
    outcome := Done;
    for i := 0 to |rows|
      invariant forall j :: 0 <= j < i ==> CentroidLookup(rows[j], centroids, fpd, limit).Done?
      invariant forall t :: 0 <= t < L.Length ==>
                  L[t] == old(L[t]) + WorldTransfersAt(rows[..i], centroids, curve, framesForLine, fpd, limit, t)
    {
      var r := rows[i];
      assert rows[..i + 1][..i] == rows[..i];
      var start := r.days * fpd;
      if start < limit {
        if r.from !in centroids {
          outcome := KeyError(r.from);
          return;
        }
        if r.to !in centroids {
          outcome := KeyError(r.to);
          return;
        }
        assert WorldTransferFits(r, fpd, framesForLine, limit) by {
          assert forall j :: 0 <= j <= i ==> CentroidLookup(rows[j], centroids, fpd, limit).Done?;
        }
        var path := curve(centroids[r.from], centroids[r.to]);
        FanOut(L, path, framesForLine, start);
      }
    }
    assert rows[..|rows|] == rows;
  }

  // ---------------------------------------------------------------------
  // Grouping equal consecutive frames
  // ---------------------------------------------------------------------

  /** An entry of the list handed to the renderer: the index of the frame
      it draws and how many frames (itself and its copies) it stands for. */
  datatype Group = Group(first: nat, count: nat)

  /** The test that lets frame j join the run starting at frame i: neither
      ends with a line, and both their instructions and their titles are
      equal.  (Python raises on an empty frame; the grouping's precondition
      excludes empty frames.) */
  predicate Joinable(L: seq<seq<Instr>>, T: seq<string>, i: nat, j: nat)
    requires i < |L| && j < |L| && |T| == |L|
  {
    L[i] != [] && L[j] != []
    && !EndsWithLine(L[i]) && !EndsWithLine(L[j]) && L[i] == L[j] && T[i] == T[j]
  }

  /** The groups cover the frames from .. upto-1 in order, without gaps. */
  predicate Tiles(groups: seq<Group>, from: nat, upto: nat)
    decreases |groups|
  {
    if groups == [] then from == upto
    else groups[0].first == from && groups[0].count >= 1
         && Tiles(groups[1..], from + groups[0].count, upto)
  }

  /** Every frame of the group can join its first frame. */
  predicate IsRun(L: seq<seq<Instr>>, T: seq<string>, g: Group)
    requires |T| == |L|
  {
    g.first + g.count <= |L|
    && forall m :: g.first < m < g.first + g.count ==> Joinable(L, T, g.first, m)
  }

  /** The frame right after the group cannot join it. */
  predicate Maximal(L: seq<seq<Instr>>, T: seq<string>, g: Group)
    requires |T| == |L|
  {
    g.first + g.count < |L| ==> !Joinable(L, T, g.first, g.first + g.count)
  }

  lemma {:induction false} TilesSnoc(groups: seq<Group>, from: nat, upto: nat, g: Group)
    requires Tiles(groups, from, upto) && g.first == upto && g.count >= 1
    ensures Tiles(groups + [g], from, upto + g.count)
    decreases |groups|
  {
    if groups == [] {
      assert ([] + [g])[1..] == [];
    } else {
      assert (groups + [g])[1..] == groups[1..] + [g];
      TilesSnoc(groups[1..], from + groups[0].count, upto, g);
    }
  }

  /** The copy-same-frames loop of depot/world.py (main): runs of frames
      that do not end with a line and equal their run's first frame in
      instructions and title become one entry with a count.  The check for
      the last frame sits inside the loop, so a timeline of a single frame
      yields no entry at all. */
  method GroupFrames(L: seq<seq<Instr>>, T: seq<string>) returns (groups: seq<Group>)
    requires |T| == |L|
    requires |L| >= 2 ==> forall i :: 0 <= i < |L| ==> L[i] != []
    ensures |L| <= 1 ==> groups == []
    ensures |L| >= 2 ==> Tiles(groups, 0, |L|)
    ensures forall g :: 0 <= g < |groups| ==> IsRun(L, T, groups[g]) && Maximal(L, T, groups[g])
  {
    var n := |T|;
    groups := [];
    var k := 1;
    var i := 0;
    while i + k < n
      invariant 1 <= k && (n >= 1 ==> i + k <= n)
      invariant i + k < n ==> Tiles(groups, 0, i)
      invariant n >= 2 && i + k == n ==> Tiles(groups, 0, n)
      invariant n <= 1 ==> groups == []
      invariant i + k <= n ==> forall m :: i < m < i + k ==> Joinable(L, T, i, m)
      invariant forall g :: 0 <= g < |groups| ==> IsRun(L, T, groups[g]) && Maximal(L, T, groups[g])
      decreases n - i - k
    {
      if !EndsWithLine(L[i]) && !EndsWithLine(L[i + k]) && L[i] == L[i + k] && T[i] == T[i + k] {
        k := k + 1;
      } else {
        TilesSnoc(groups, 0, i, Group(i, k));
        groups := groups + [Group(i, k)];
        i := i + k;
        k := 1;
      }
      if i + k == n {
        TilesSnoc(groups, 0, i, Group(i, k));
        groups := groups + [Group(i, k)];
      }
    }
  }

  /** The indices lo, lo+1, .., hi-1. */
  function Range(lo: nat, hi: nat): (r: seq<nat>)
    ensures |r| == if lo <= hi then hi - lo else 0
    ensures forall j :: 0 <= j < |r| ==> r[j] == lo + j
    decreases hi - lo
  {
    if lo >= hi then [] else [lo] + Range(lo + 1, hi)
  }

  /** The copy loop of `fplot` (depot/world.py): the frame files that
      receive a copy of the drawn frame `i` of a group of `k`; with the
      drawn frame itself they are the k indices from i. */
  method CopyTargets(i: nat, k: nat) returns (copies: seq<nat>)
    ensures |copies| == if k >= 1 then k - 1 else 0
    ensures forall j :: 0 <= j < |copies| ==> copies[j] == i + 1 + j
    ensures k >= 1 ==> [i] + copies == Range(i, i + k)
  {
    copies := [];
    var f := 1;
    while f < k
      invariant 1 <= f && (k >= 1 ==> f <= k) && (k == 0 ==> f == 1)
      invariant |copies| == f - 1
      invariant forall j :: 0 <= j < |copies| ==> copies[j] == i + 1 + j
    {
      copies := copies + [i + f];
      f := f + 1;
    }
  }

  /** The frame indices the renderer writes for the groups, in order: each
      group's drawn frame followed by its copies. */
  function Written(groups: seq<Group>): seq<nat>
    decreases |groups|
  {
    if groups == [] then [] else Range(groups[0].first, groups[0].first + groups[0].count) + Written(groups[1..])
  }

  /** The sum of the groups' counts. */
  function CountSum(groups: seq<Group>): nat
    decreases |groups|
  {
    if groups == [] then 0 else groups[0].count + CountSum(groups[1..])
  }

  lemma {:induction false} RangeSplit(lo: nat, mid: nat, hi: nat)
    requires lo <= mid <= hi
    ensures Range(lo, mid) + Range(mid, hi) == Range(lo, hi)
  {
    var a, b, c := Range(lo, mid), Range(mid, hi), Range(lo, hi);
    assert |a + b| == |c|;
    forall j | 0 <= j < |c| ensures (a + b)[j] == c[j] {
      if j < |a| { assert (a + b)[j] == a[j]; } else { assert (a + b)[j] == b[j - |a|]; }
    }
  }

  /** A tiling of from .. upto-1 writes exactly those indices, each once
      and in increasing order, and its counts add up to the range's size. */
  lemma {:induction false} TilesWritten(groups: seq<Group>, from: nat, upto: nat)
    requires Tiles(groups, from, upto)
    ensures from <= upto
    ensures Written(groups) == Range(from, upto)
    ensures CountSum(groups) == upto - from
    decreases |groups|
  {
    if groups != [] {
      var next := from + groups[0].count;
      TilesWritten(groups[1..], next, upto);
      RangeSplit(from, next, upto);
    }
  }

  predicate Covers(g: Group, m: nat)
  {
    g.first <= m < g.first + g.count
  }

  /** Groups that tile a range are disjoint, and every frame of the range
      lies in one of them. */
  lemma {:induction false} TilesCover(groups: seq<Group>, from: nat, upto: nat, m: nat)
    requires Tiles(groups, from, upto) && from <= m < upto
    ensures exists g :: 0 <= g < |groups| && Covers(groups[g], m)
    ensures forall g, h :: 0 <= g < |groups| && 0 <= h < |groups| && Covers(groups[g], m) && Covers(groups[h], m)
              ==> g == h
    decreases |groups|
  {
    var rest := groups[1..];
    var next := from + groups[0].count;
    if m >= next {
      TilesCover(rest, next, upto, m);
      var g :| 0 <= g < |rest| && Covers(rest[g], m);
      assert groups[g + 1] == rest[g];
    }
    TilesFloor(rest, next, upto);
    forall g, h | 0 <= g < |groups| && 0 <= h < |groups| && Covers(groups[g], m) && Covers(groups[h], m)
      ensures g == h
    {
      if g > 0 && h > 0 {
        assert groups[g] == rest[g - 1] && groups[h] == rest[h - 1];
        if m >= next {
          TilesCover(rest, next, upto, m);
        }
      }
    }
  }

  /** Every group of a tiling starts at or after its lower end. */
  lemma {:induction false} TilesFloor(groups: seq<Group>, from: nat, upto: nat)
    requires Tiles(groups, from, upto)
    ensures forall g :: 0 <= g < |groups| ==> from <= groups[g].first
    decreases |groups|
  {
    if groups != [] {
      TilesFloor(groups[1..], from + groups[0].count, upto);
      assert forall g :: 1 <= g < |groups| ==> groups[g] == groups[1..][g - 1];
    }
  }

  /** What the renderer writes: each frame index of the timeline is written
      by exactly one entry (as its drawn frame or one of its copies), and
      that entry's frame and title are those of the frame at that index. */
  lemma FramesWrittenOnce(L: seq<seq<Instr>>, T: seq<string>, groups: seq<Group>, m: nat)
    requires |T| == |L| && m < |L|
    requires Tiles(groups, 0, |L|)
    requires forall g :: 0 <= g < |groups| ==> IsRun(L, T, groups[g])
    ensures exists g :: 0 <= g < |groups| && Covers(groups[g], m)
              && L[groups[g].first] == L[m] && T[groups[g].first] == T[m]
    ensures forall g, h :: 0 <= g < |groups| && 0 <= h < |groups| && Covers(groups[g], m) && Covers(groups[h], m)
              ==> g == h
  {
    TilesCover(groups, 0, |L|, m);
    var g :| 0 <= g < |groups| && Covers(groups[g], m);
    assert IsRun(L, T, groups[g]);
    if m > groups[g].first {
      assert Joinable(L, T, groups[g].first, m);
    }
  }

  // ---------------------------------------------------------------------
  // The whole world schedule
  // ---------------------------------------------------------------------

  /** The settings the world scheduler reads from its configuration. */
  datatype WorldConfig = WorldConfig(
    framesPerDay: nat, framesForLine: nat, startDay: int, deltaDays: nat, titleFormat: string)

  /** The renderer's entries with the frames and titles they index, or the
      reason the program stops: an unlisted country (`sys.exit`) or a
      missing centroid (KeyError). */
  datatype WorldResult =
    | Rendered(entries: seq<Group>, frames: seq<seq<Instr>>, titles: seq<string>)
    | Stopped(country: string)
    | Crashed(id: string)

  function WorldLimit(cfg: WorldConfig): nat
  {
    cfg.deltaDays * cfg.framesPerDay
  }

  /** Every frame of the timeline: the case states, then the transfer lines. */
  function WorldTimeline(cfg: WorldConfig, countries: seq<string>, regions: seq<string>, fold: string -> string,
                         cases: seq<WorldCase>, centroids: map<string, Loc>, curve: (Loc, Loc) -> seq<Sample>,
                         transfers: seq<WorldTransfer>): (tl: seq<seq<Instr>>)
    requires cfg.framesForLine >= 1
    ensures |tl| == WorldLimit(cfg)
  {
    var fpd, limit := cfg.framesPerDay, WorldLimit(cfg);
    seq(limit, t requires 0 <= t < limit =>
      WorldCasesAt(cases, countries, regions, fold, fpd, limit, t)
      + WorldTransfersAt(transfers, centroids, curve, cfg.framesForLine, fpd, limit, t))
  }

  /** The frames of depot/world.py (main): allocated empty, then filled by
      the cases loop and the transfers loop, unless one of them stops. */
  method WorldFrames(cfg: WorldConfig, fold: string -> string, curve: (Loc, Loc) -> seq<Sample>,
                     countries: seq<string>, regions: seq<string>, cases: seq<WorldCase>,
                     centroids: map<string, Loc>, transfers: seq<WorldTransfer>)
    returns (casesEnd: CasesEnd, outcome: Outcome, frames: seq<seq<Instr>>, printed: seq<string>)
    requires cfg.framesForLine >= 1
    requires ReachedCasesFit(cases, countries, fold, cfg.framesPerDay)
    requires (forall i :: 0 <= i < |cases| ==> Listed(countries, cases[i].country, fold)) ==>
               ReachedWorldTransfersFit(transfers, centroids, cfg.framesPerDay, cfg.framesForLine, WorldLimit(cfg))
    ensures casesEnd.UnknownCountry? <==> exists i :: 0 <= i < |cases| && !Listed(countries, cases[i].country, fold)
    ensures casesEnd.AllPlaced? ==>
              (outcome.KeyError? <==>
                 exists i :: 0 <= i < |transfers| &&
                   CentroidLookup(transfers[i], centroids, cfg.framesPerDay, WorldLimit(cfg)).KeyError?)
    ensures casesEnd.AllPlaced? && outcome.Done? ==>
              frames == WorldTimeline(cfg, countries, regions, fold, cases, centroids, curve, transfers)
    ensures casesEnd.AllPlaced? ==> printed == UnknownRegions(cases, regions, fold)
    ensures casesEnd.UnknownCountry? ==>
              exists i :: 0 <= i < |cases| && !Listed(countries, cases[i].country, fold)
                          && (forall j :: 0 <= j < i ==> Listed(countries, cases[j].country, fold))
                          && printed == UnknownRegions(cases[..i], regions, fold)
  {
    var fpd := cfg.framesPerDay;
    var limit := WorldLimit(cfg);
    var L := new seq<Instr>[limit](_ => []);
    outcome := Done;
    frames := [];
    casesEnd, printed := ScheduleWorldCases(L, cases, countries, regions, fold, fpd);
    if casesEnd.UnknownCountry? {
      return;
    }
    ghost var placed := L[..];
    assert forall t :: 0 <= t < limit ==> placed[t] == WorldCasesAt(cases, countries, regions, fold, fpd, limit, t);
    outcome := ScheduleWorldTransfers(L, transfers, centroids, curve, cfg.framesForLine, fpd);
    if outcome.KeyError? {
      return;
    }
    frames := L[..];
    assert forall t :: 0 <= t < limit ==>
             frames[t] == placed[t] + WorldTransfersAt(transfers, centroids, curve, cfg.framesForLine, fpd, limit, t);
  }

  /** The run reaches the grouping: every case's country is listed and no
      transfer row raises KeyError. */
  predicate Renders(cfg: WorldConfig, countries: seq<string>, fold: string -> string, cases: seq<WorldCase>,
                    centroids: map<string, Loc>, transfers: seq<WorldTransfer>)
  {
    (forall i :: 0 <= i < |cases| ==> Listed(countries, cases[i].country, fold))
    && (forall i :: 0 <= i < |transfers| ==>
          CentroidLookup(transfers[i], centroids, cfg.framesPerDay, WorldLimit(cfg)).Done?)
  }

  /** `main` of depot/world.py up to the renderer: the titles, the frames
      and the grouping of equal frames. */
  method ScheduleWorld(cfg: WorldConfig, strftime: (string, int) -> string, fold: string -> string,
                       curve: (Loc, Loc) -> seq<Sample>, countries: seq<string>, regions: seq<string>,
                       cases: seq<WorldCase>, centroids: map<string, Loc>, transfers: seq<WorldTransfer>)
    returns (res: WorldResult, printed: seq<string>)
    requires cfg.framesForLine >= 1
    requires ReachedCasesFit(cases, countries, fold, cfg.framesPerDay)
    requires (forall i :: 0 <= i < |cases| ==> Listed(countries, cases[i].country, fold)) ==>
               ReachedWorldTransfersFit(transfers, centroids, cfg.framesPerDay, cfg.framesForLine, WorldLimit(cfg))
    requires Renders(cfg, countries, fold, cases, centroids, transfers) && WorldLimit(cfg) >= 2 ==>
               forall t :: 0 <= t < WorldLimit(cfg) ==>
               WorldTimeline(cfg, countries, regions, fold, cases, centroids, curve, transfers)[t] != []
    ensures res.Stopped? <==> exists i :: 0 <= i < |cases| && !Listed(countries, cases[i].country, fold)
    ensures !res.Stopped? ==>
              (res.Crashed? <==>
                 exists i :: 0 <= i < |transfers| &&
                   CentroidLookup(transfers[i], centroids, cfg.framesPerDay, WorldLimit(cfg)).KeyError?)
    ensures res.Rendered? ==>
              res.frames == WorldTimeline(cfg, countries, regions, fold, cases, centroids, curve, transfers)
              && res.titles == FrameTitles(strftime, cfg.titleFormat, cfg.startDay, cfg.deltaDays, cfg.framesPerDay)
    ensures res.Rendered? && WorldLimit(cfg) >= 2 ==> Tiles(res.entries, 0, WorldLimit(cfg))
    ensures res.Rendered? && WorldLimit(cfg) <= 1 ==> res.entries == []
    ensures res.Rendered? ==> forall g :: 0 <= g < |res.entries| ==>
              IsRun(res.frames, res.titles, res.entries[g]) && Maximal(res.frames, res.titles, res.entries[g])
    ensures !res.Stopped? ==> printed == UnknownRegions(cases, regions, fold)
    ensures res.Stopped? ==>
              exists i :: 0 <= i < |cases| && !Listed(countries, cases[i].country, fold)
                          && (forall j :: 0 <= j < i ==> Listed(countries, cases[j].country, fold))
                          && printed == UnknownRegions(cases[..i], regions, fold)
  {
    var titles := Title(strftime, cfg.titleFormat, cfg.startDay, cfg.deltaDays, cfg.framesPerDay);
    var casesEnd, outcome, frames;
    casesEnd, outcome, frames, printed := WorldFrames(cfg, fold, curve, countries, regions, cases, centroids, transfers);
    if casesEnd.UnknownCountry? {
      return Stopped(casesEnd.country), printed;
    }
    if outcome.KeyError? {
      return Crashed(outcome.id), printed;
    }
    assert Renders(cfg, countries, fold, cases, centroids, transfers);
    var entries := GroupFrames(frames, titles);
    res := Rendered(entries, frames, titles);
  }
}
