/** The search and replace over a video BIOS image in memory (BiosVideoThunkDxe/915resolution.c). */
module SearchReplace {
  import opened LittleEndian
  import opened Raster

  predicate Matches(m: seq<Byte>, at: nat, search: seq<Byte>) { at + |search| <= |m| && m[at..at + |search|] == search }

  // The places where a pattern is replaced, from left to right, none inside the one before; `max` replacements at
  // most, without limit if it is negative.
  function Greedy(m: seq<Byte>, at: nat, end: nat, search: seq<Byte>, max: int): seq<nat>
    requires search != []
    decreases end - at
  {
    if at >= end || max == 0 then []
    else if Matches(m, at, search) then [at] + Greedy(m, at + |search|, end, search, max - 1)
    else Greedy(m, at + 1, end, search, max)
  }

  // The places are where the pattern is, between `at` and `end`, and do not overlap.
  ghost predicate Separate(places: seq<nat>, m: seq<Byte>, at: nat, end: nat, search: seq<Byte>) {
    && (forall k :: 0 <= k < |places| ==> at <= places[k] < end && Matches(m, places[k], search))
    && forall k, l :: 0 <= k < l < |places| ==> places[k] + |search| <= places[l]
  }

  // One of them reaches over p.
  ghost predicate Taken(places: seq<nat>, p: nat, length: nat) {
    exists k :: 0 <= k < |places| && places[k] <= p < places[k] + length
  }

  lemma TakenLater(first: nat, places: seq<nat>, p: nat, length: nat)
    requires Taken(places, p, length)
    ensures Taken([first] + places, p, length)
  {
    var k :| 0 <= k < |places| && places[k] <= p < places[k] + length;
    assert ([first] + places)[k + 1] == places[k];
  }

  /** The places are separate occurrences, at most `max` of them. */
  lemma {:induction false} GreedySeparate(m: seq<Byte>, at: nat, end: nat, search: seq<Byte>, max: int)
    requires search != []
    ensures Separate(Greedy(m, at, end, search, max), m, at, end, search)
    ensures max >= 0 ==> |Greedy(m, at, end, search, max)| <= max
    decreases end - at
  {
    if at < end && max != 0 {
      if Matches(m, at, search) {
        GreedySeparate(m, at + |search|, end, search, max - 1);
      } else {
        GreedySeparate(m, at + 1, end, search, max);
      }
    }
  }

  /** No occurrence is passed over except inside one that is replaced, or behind the last of those allowed. */
  lemma {:induction false} GreedyLeftmost(m: seq<Byte>, at: nat, end: nat, search: seq<Byte>, max: int, p: nat)
    requires search != [] && at <= p < end && Matches(m, p, search)
    requires var places := Greedy(m, at, end, search, max);
      max < 0 || |places| < max || (places != [] && p <= places[|places| - 1])
    ensures Taken(Greedy(m, at, end, search, max), p, |search|)
    decreases end - at
  {
    var places := Greedy(m, at, end, search, max);
    if Matches(m, at, search) {
      if p < at + |search| {
        assert places[0] == at;
      } else {
        GreedyLeftmost(m, at + |search|, end, search, max - 1, p);
        TakenLater(at, Greedy(m, at + |search|, end, search, max - 1), p, |search|);
      }
    } else {
      GreedyLeftmost(m, at + 1, end, search, max, p);
    }
  }

  ghost predicate Fit(places: seq<nat>, length: nat, size: nat)
  {
    forall k :: 0 <= k < |places| ==> places[k] + length <= size
  }

  function Replaced(m: seq<Byte>, places: seq<nat>, replace: seq<Byte>): (r: seq<Byte>)
    requires Fit(places, |replace|, |m|)
    ensures |r| == |m|
  {
    if places == [] then m
    else Splice(Replaced(m, places[..|places| - 1], replace), places[|places| - 1], replace)
  }

  /** A byte outside the places is as it was. */
  lemma {:induction false} OutsideKept(m: seq<Byte>, places: seq<nat>, replace: seq<Byte>, j: nat)
    requires Fit(places, |replace|, |m|) && j < |m| && !Taken(places, j, |replace|)
    ensures Replaced(m, places, replace)[j] == m[j]
  {
    if places != [] {
      var rest, last := places[..|places| - 1], places[|places| - 1];
      forall k | 0 <= k < |rest| ensures !(rest[k] <= j < rest[k] + |replace|) {
        assert rest[k] == places[k];
      }
      assert !(last <= j < last + |replace|);
      OutsideKept(m, rest, replace, j);
      SpliceIndex(Replaced(m, rest, replace), last, replace, j);
    }
  }

  /** Byte p inside place k is byte i of the replacement. */
  lemma {:induction false} InsideReplaced(m: seq<Byte>, places: seq<nat>, replace: seq<Byte>, k: nat, i: nat, p: nat)
    requires Fit(places, |replace|, |m|) && k < |places| && i < |replace| && p == places[k] + i
    requires forall a, b :: 0 <= a < b < |places| ==> places[a] + |replace| <= places[b]
    ensures p < |m| && Replaced(m, places, replace)[p] == replace[i]
    decreases |places|
  {
    var rest, last := places[..|places| - 1], places[|places| - 1];
    SpliceIndex(Replaced(m, rest, replace), last, replace, p);
    if k < |places| - 1 {
      InsideReplaced(m, rest, replace, k, i, p);
    }
  }

  // Where a replaced occurrence crosses the end, the replacement has the same bytes as the pattern.
  ghost predicate Harmless(places: seq<nat>, end: nat, search: seq<Byte>, replace: seq<Byte>)
    requires |replace| == |search|
  {
    forall k, i :: 0 <= k < |places| && 0 <= i < |search| && places[k] + i >= end ==> replace[i] == search[i]
  }

  /**
   * Bytes from `end` on stay as they were if and only if no occurrence that is replaced crosses the end with bytes
   * that the replacement has differently.
   */
  lemma BeyondKeptIff(m: seq<Byte>, at: nat, end: nat, search: seq<Byte>, replace: seq<Byte>, max: int)
    requires search != [] && |replace| == |search|
    requires Fit(Greedy(m, at, end, search, max), |replace|, |m|)
    ensures var places := Greedy(m, at, end, search, max);
      (forall j :: end <= j < |m| ==> Replaced(m, places, replace)[j] == m[j]) <==>
        Harmless(places, end, search, replace)
  {
    var places := Greedy(m, at, end, search, max);
    var r := Replaced(m, places, replace);
    GreedySeparate(m, at, end, search, max);
    if Harmless(places, end, search, replace) {
      forall j | end <= j < |m| ensures r[j] == m[j] {
        HarmlessByte(m, places, replace, search, at, end, j);
      }
    } else {
      var k, i :| 0 <= k < |places| && 0 <= i < |search| && places[k] + i >= end && replace[i] != search[i];
      Occurrence(m, places, replace, search, k, i, places[k] + i);
    }
  }

  /** If no occurrence starts in the last |search| - 1 places of the region, nothing beyond it changes. */
  lemma BeyondKept(m: seq<Byte>, at: nat, end: nat, search: seq<Byte>, replace: seq<Byte>, max: int)
    requires search != [] && |replace| == |search|
    requires Fit(Greedy(m, at, end, search, max), |replace|, |m|)
    requires forall p: nat :: at <= p < end < p + |search| ==> !Matches(m, p, search)
    ensures forall j :: end <= j < |m| ==> Replaced(m, Greedy(m, at, end, search, max), replace)[j] == m[j]
  {
    GreedySeparate(m, at, end, search, max);
    BeyondKeptIff(m, at, end, search, replace, max);
  }

  lemma HarmlessByte(m: seq<Byte>, places: seq<nat>, replace: seq<Byte>, search: seq<Byte>, at: nat, end: nat, j: nat)
    requires |replace| == |search| && Fit(places, |replace|, |m|) && Separate(places, m, at, end, search)
    requires Harmless(places, end, search, replace) && end <= j < |m|
    ensures Replaced(m, places, replace)[j] == m[j]
  {
    if Taken(places, j, |replace|) {
      var k :| 0 <= k < |places| && places[k] <= j < places[k] + |replace|;
      var i := j - places[k];
      SameInPattern(places, end, search, replace, k, i);
      Occurrence(m, places, replace, search, k, i, j);
    } else {
      OutsideKept(m, places, replace, j);
    }
  }

  lemma SameInPattern(places: seq<nat>, end: nat, search: seq<Byte>, replace: seq<Byte>, k: nat, i: nat)
    requires |replace| == |search| && Harmless(places, end, search, replace)
    requires k < |places| && i < |search| && end <= places[k] + i
    ensures replace[i] == search[i]
  {
  }

  // Byte p, the i-th of place k
  lemma Occurrence(m: seq<Byte>, places: seq<nat>, replace: seq<Byte>, search: seq<Byte>, k: nat, i: nat, p: nat)
    requires |replace| == |search| && Fit(places, |replace|, |m|) && k < |places| && i < |replace|
    requires forall a, b :: 0 <= a < b < |places| ==> places[a] + |replace| <= places[b]
    requires Matches(m, places[k], search) && p == places[k] + i
    ensures p < |m| && m[p] == search[i] && Replaced(m, places, replace)[p] == replace[i]
  {
    InsideReplaced(m, places, replace, k, i, p);
    PatternAt(m, places[k], search, i, p);
  }

  lemma PatternAt(m: seq<Byte>, at: nat, search: seq<Byte>, i: nat, p: nat)
    requires Matches(m, at, search) && i < |search| && p == at + i
    ensures p < |m| && m[p] == search[i]
  {
    assert m[at..at + |search|][i] == m[p];
  }

  // Every occurrence reaches into a place, unless as many as allowed come before it.
  ghost predicate LeavesNone(m: seq<Byte>, places: seq<nat>, from: nat, to: nat, search: seq<Byte>, maxReplaces: int) {
    forall p: nat :: from <= p < to && Matches(m, p, search) ==>
      || Taken(places, p, |search|)
      || (0 < maxReplaces <= |places| && places[|places| - 1] < p)
  }

  lemma GreedyLeavesNone(m: seq<Byte>, from: nat, to: nat, search: seq<Byte>, maxReplaces: int)
    requires search != []
    ensures LeavesNone(m, Greedy(m, from, to, search, Allowed(maxReplaces)), from, to, search, maxReplaces)
  {
    var places := Greedy(m, from, to, search, Allowed(maxReplaces));
    forall p: nat | from <= p < to && Matches(m, p, search)
      ensures Taken(places, p, |search|) || (0 < maxReplaces <= |places| && places[|places| - 1] < p)
    {
      OccurrenceTaken(m, from, to, search, maxReplaces, places, p);
    }
  }

  lemma OccurrenceTaken(m: seq<Byte>, from: nat, to: nat, search: seq<Byte>, maxReplaces: int, places: seq<nat>, p: nat)
    requires search != [] && places == Greedy(m, from, to, search, Allowed(maxReplaces))
    requires from <= p < to && Matches(m, p, search)
    ensures Taken(places, p, |search|) || (0 < maxReplaces <= |places| && places[|places| - 1] < p)
  {
    if !(0 < maxReplaces <= |places| && places[|places| - 1] < p) {
      GreedyLeftmost(m, from, to, search, Allowed(maxReplaces), p);
    }
  }

  /**
   * VideoBiosPatchSearchAndReplace on `size` bytes from `start` on: what is replaced is decided by the contents before
   * the first replacement.  The comparison may read past the region.
   */
  method SearchAndReplace(a: array<Byte>, start: nat, size: nat, search: seq<Byte>, replace: seq<Byte>,
                          maxReplaces: int)
    returns (numReplaces: nat)
    requires 0 < |search| == |replace| && start + size + |search| - 1 <= a.Length
    modifies a
    ensures var places := Greedy(old(a[..]), start, start + size, search, Allowed(maxReplaces));
      && numReplaces == |places|
      && Fit(places, |replace|, a.Length)
      && a[..] == Replaced(old(a[..]), places, replace)
      && Separate(places, old(a[..]), start, start + size, search)
      && (maxReplaces > 0 ==> numReplaces <= maxReplaces)
      && LeavesNone(old(a[..]), places, start, start + size, search, maxReplaces)
  {
    ghost var m := a[..];
    ghost var all := Greedy(m, start, start + size, search, Allowed(maxReplaces));
    StartPlace(all, m, start, start + size, search, Allowed(maxReplaces));
    ghost var reached;
    numReplaces, reached := Scan(a, start, start + size, search, replace, maxReplaces, m, all);
    GreedySeparate(m, start, start + size, search, Allowed(maxReplaces));
    GreedyLeavesNone(m, start, start + size, search, maxReplaces);
  }

  // The loop
  method Scan(a: array<Byte>, start: nat, end: nat, search: seq<Byte>, replace: seq<Byte>, maxReplaces: int,
              ghost m: seq<Byte>, ghost all: seq<nat>)
    returns (numReplaces: nat, ghost reached: nat)
    requires 0 < |search| == |replace| && start <= end && end + |search| - 1 <= a.Length && m == a[..]
    requires OnTrack(all, m, [], start, end, search, Allowed(maxReplaces))
    modifies a
    ensures numReplaces == |all| && SoFar(m, a[..], all, replace, reached)
  {
    var source, noRestriction, max := start, maxReplaces <= 0, maxReplaces;
    ghost var places: seq<nat> := [];
    ghost var left := Allowed(maxReplaces);
    numReplaces := 0;
    while source < end && (noRestriction || max > 0)
      invariant start <= source && numReplaces == |places|
      invariant if noRestriction then left < 0 else 0 <= left == max
      invariant OnTrack(all, m, places, source, end, search, left) && SoFar(m, a[..], places, replace, source)
      decreases end - source
    {
      var found, next;
      found, next, places, left := ScanOne(a, source, end, search, replace, m, all, places, left);
      if found {
        numReplaces, max := numReplaces + 1, max - 1;
      }
      source := next;
    }
    LastPlace(all, m, places, source, end, search, left);
    reached := source;
  }

  function Allowed(maxReplaces: int): int { if maxReplaces <= 0 then -1 else maxReplaces }

  lemma StartPlace(all: seq<nat>, m: seq<Byte>, source: nat, end: nat, search: seq<Byte>, left: int)
    requires search != [] && all == Greedy(m, source, end, search, left)
    ensures OnTrack(all, m, [], source, end, search, left)
  {
  }

  // The places so far are the first of all.
  ghost predicate OnTrack(all: seq<nat>, m: seq<Byte>, places: seq<nat>, source: nat, end: nat, search: seq<Byte>,
                          left: int)
    requires search != []
  {
    places + Greedy(m, source, end, search, left) == all
  }

  lemma NextPlace(all: seq<nat>, m: seq<Byte>, places: seq<nat>, source: nat, end: nat, search: seq<Byte>, left: int,
                  found: bool)
    requires search != [] && OnTrack(all, m, places, source, end, search, left) && source < end && left != 0
    requires found == Matches(m, source, search)
    ensures if found then OnTrack(all, m, places + [source], source + |search|, end, search, left - 1)
            else OnTrack(all, m, places, source + 1, end, search, left)
  {
    if found {
      var rest := Greedy(m, source + |search|, end, search, left - 1);
      assert places + ([source] + rest) == (places + [source]) + rest;
    }
  }

  lemma LastPlace(all: seq<nat>, m: seq<Byte>, places: seq<nat>, source: nat, end: nat, search: seq<Byte>, left: int)
    requires search != [] && OnTrack(all, m, places, source, end, search, left) && (source >= end || left == 0)
    ensures places == all
  {
    assert places + [] == places;
  }

  // Some places before `source` are replaced, and nothing from there on is changed.
  ghost predicate SoFar(m: seq<Byte>, now: seq<Byte>, places: seq<nat>, replace: seq<Byte>, source: nat) {
    && Fit(places, |replace|, |m|) && now == Replaced(m, places, replace)
    && forall j :: source <= j < |m| ==> now[j] == m[j]
  }

  // One pass of the loop
  method ScanOne(a: array<Byte>, source: nat, ghost end: nat, search: seq<Byte>, replace: seq<Byte>,
                 ghost m: seq<Byte>, ghost all: seq<nat>, ghost places: seq<nat>, ghost left: int)
    returns (found: bool, next: nat, ghost places': seq<nat>, ghost left': int)
    requires 0 < |search| == |replace| && source < end && end + |search| - 1 <= a.Length && left != 0
    requires OnTrack(all, m, places, source, end, search, left) && SoFar(m, a[..], places, replace, source)
    modifies a
    ensures OnTrack(all, m, places', next, end, search, left') && SoFar(m, a[..], places', replace, next)
    ensures next > source && left' == (if found then left - 1 else left)
    ensures |places'| == if found then |places| + 1 else |places|
  {
    found := ReplaceHere(a, source, search, replace, m, places);
    NextPlace(all, m, places, source, end, search, left, found);
    if found {
      next, places', left' := source + |search|, places + [source], left - 1;
    } else {
      next, places', left' := source + 1, places, left;
    }
  }

  // One comparison, and the replacement if there is a match
  method ReplaceHere(a: array<Byte>, source: nat, search: seq<Byte>, replace: seq<Byte>, ghost m: seq<Byte>,
                     ghost places: seq<nat>)
    returns (found: bool)
    requires 0 < |search| == |replace| && source + |search| <= a.Length
    requires SoFar(m, a[..], places, replace, source)
    modifies a
    ensures found <==> Matches(m, source, search)
    ensures if found then SoFar(m, a[..], places + [source], replace, source + |search|)
            else SoFar(m, a[..], places, replace, source + 1)
  {
    assert a[source..source + |search|] == m[source..source + |search|];
    found := a[source..source + |search|] == search;
    if found {
      ghost var before := a[..];
      forall i | 0 <= i < |replace| {
        a[source + i] := replace[i];
      }
      SpliceAt(before, a[..], source, replace);
      assert (places + [source])[..|places|] == places;
    }
  }
}
