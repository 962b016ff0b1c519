/** Physical byte ranges of `nt-acpi`: rounded to whole pages, sorted and merged, and subtracted from one another. */
module PhysicalRanges {
  import opened Words
  import opened Sizes

  datatype AcpiError = InvalidLength | Allocation | PhysicalRead

  datatype Outcome<T> = Done(value: T) | Failed(error: AcpiError)

  datatype Range = Range(start: nat, length: nat) {
    function End(): nat {
      start + length
    }

    predicate Holds(a: nat) {
      start <= a < End()
    }
  }

  /** Some range of the list holds `a`. */
  ghost predicate Covered(rs: seq<Range>, a: nat) {
    exists k :: 0 <= k < |rs| && rs[k].Holds(a)
  }

  /** The page of `a` holds an address of the range. */
  ghost predicate SharesPage(r: Range, a: nat) {
    exists b: nat :: r.Holds(b) && b / PAGE == a / PAGE
  }

  ghost predicate Touched(rs: seq<Range>, a: nat) {
    exists k :: 0 <= k < |rs| && SharesPage(rs[k], a)
  }

  /** Empty, or not roundable to whole pages in 64 bits. */
  predicate Malformed(r: Range) {
    r.length == 0 || r.End() >= USIZE_LIMIT || AlignUp(r.End(), PAGE).None?
  }

  /** Nonempty whole pages. */
  predicate WholePages(r: Range) {
    r.length > 0 && r.start % PAGE == 0 && r.length % PAGE == 0 && r.End() < USIZE_LIMIT
  }

  /** Nonempty whole pages in ascending order, no two of them overlapping or adjacent. */
  ghost predicate Tidy(rs: seq<Range>) {
    && (forall k :: 0 <= k < |rs| ==> WholePages(rs[k]))
    && (forall j, k :: 0 <= j < k < |rs| ==> rs[j].End() < rs[k].start)
  }

  function Rounded(r: Range): (p: Range)
    requires !Malformed(r)
  {
    var start := AlignDown(r.start, PAGE);
    Range(start, AlignUp(r.End(), PAGE).value - start)
  }

  /** Between the rounded ends lie exactly the pages from the first to the last. */
  lemma PageBounds(start: nat, end: nat, a: nat)
    requires start < end && AlignUp(end, PAGE).Some?
    ensures AlignDown(start, PAGE) <= a <==> start / PAGE <= a / PAGE
    ensures a < AlignUp(end, PAGE).value <==> a / PAGE <= (end - 1) / PAGE
  {
    assert AlignDown(start, PAGE) == start / PAGE * PAGE;
    assert AlignUp(end, PAGE).value == (end - 1) / PAGE * PAGE + PAGE;
  }

  /** A page from the first to the last of a range holds an address of it. */
  lemma PageMeets(start: nat, end: nat, a: nat) returns (b: nat)
    requires start < end && start / PAGE <= a / PAGE <= (end - 1) / PAGE
    ensures start <= b < end && b / PAGE == a / PAGE
  {
    b := if start / PAGE == a / PAGE then start else a / PAGE * PAGE;
  }

  lemma RoundedWhole(r: Range)
    requires !Malformed(r)
    ensures WholePages(Rounded(r)) && Rounded(r).End() == AlignUp(r.End(), PAGE).value
  {
  }

  lemma RoundedCovers(r: Range, a: nat)
    requires !Malformed(r)
    ensures Rounded(r).Holds(a) <==> SharesPage(r, a)
  {
    RoundedWhole(r);
    PageBounds(r.start, r.End(), a);
    if Rounded(r).Holds(a) {
      var b := PageMeets(r.start, r.End(), a);
      assert r.Holds(b);
    }
    if SharesPage(r, a) {
      var b: nat :| r.Holds(b) && b / PAGE == a / PAGE;
      PageBounds(r.start, r.End(), b);
    }
  }

  // ----- coverage of lists -----

  lemma CoveredMore(rs: seq<Range>, r: Range, a: nat)
    ensures Covered(rs + [r], a) <==> Covered(rs, a) || r.Holds(a)
  {
    if Covered(rs, a) {
      var k :| 0 <= k < |rs| && rs[k].Holds(a);
      assert (rs + [r])[k].Holds(a);
    }
    if r.Holds(a) {
      assert (rs + [r])[|rs|].Holds(a);
    }
  }

  lemma CoveredBoth(rs: seq<Range>, ts: seq<Range>, a: nat)
    ensures Covered(rs + ts, a) <==> Covered(rs, a) || Covered(ts, a)
  {
    if Covered(rs, a) {
      var k :| 0 <= k < |rs| && rs[k].Holds(a);
      assert (rs + ts)[k].Holds(a);
    }
    if Covered(ts, a) {
      var k :| 0 <= k < |ts| && ts[k].Holds(a);
      assert (rs + ts)[|rs| + k].Holds(a);
    }
  }

  lemma CoveredSame(rs: seq<Range>, ts: seq<Range>, a: nat)
    requires multiset(rs) == multiset(ts) && Covered(rs, a)
    ensures Covered(ts, a)
  {
    var k :| 0 <= k < |rs| && rs[k].Holds(a);
    assert rs[k] in multiset(ts);
    var j :| 0 <= j < |ts| && ts[j] == rs[k];
  }

  lemma TouchedMore(rs: seq<Range>, r: Range, a: nat)
    ensures Touched(rs + [r], a) <==> Touched(rs, a) || SharesPage(r, a)
  {
    if Touched(rs, a) {
      var k :| 0 <= k < |rs| && SharesPage(rs[k], a);
      assert SharesPage((rs + [r])[k], a);
    }
    if SharesPage(r, a) {
      assert SharesPage((rs + [r])[|rs|], a);
    }
  }

  // ----- rounding -----

  /** Each range rounded outwards to whole pages, in the order given. */
  method RoundAll(ranges: seq<Range>) returns (r: Outcome<seq<Range>>)
    ensures r.Failed? ==> r.error == InvalidLength
    ensures r.Failed? <==> exists k :: 0 <= k < |ranges| && Malformed(ranges[k])
    ensures r.Done? ==> |r.value| == |ranges| && forall k :: 0 <= k < |r.value| ==> WholePages(r.value[k])
    ensures r.Done? ==> forall a: nat :: Covered(r.value, a) <==> Touched(ranges, a)
  {
    var pages: seq<Range> := [];
    var i := 0;
    while i < |ranges|
      invariant 0 <= i == |pages| <= |ranges|
      invariant forall k :: 0 <= k < i ==> !Malformed(ranges[k]) && WholePages(pages[k])
      invariant forall a: nat :: Covered(pages, a) <==> Touched(ranges[..i], a)
    {
      var r := ranges[i];
      if r.End() >= USIZE_LIMIT || r.length == 0 {
        return Failed(InvalidLength);
      }
      var end := AlignUp(r.End(), PAGE);
      if end.None? {
        return Failed(InvalidLength);
      }
      var start := AlignDown(r.start, PAGE);
      RoundedStep(ranges, i, pages);
      pages := pages + [Range(start, end.value - start)];
      i := i + 1;
    }
    assert ranges[..i] == ranges;
    return Done(pages);
  }

  lemma RoundedStep(ranges: seq<Range>, i: nat, pages: seq<Range>)
    requires i < |ranges| && !Malformed(ranges[i])
    requires forall a: nat :: Covered(pages, a) <==> Touched(ranges[..i], a)
    ensures WholePages(Rounded(ranges[i]))
    ensures forall a: nat :: Covered(pages + [Rounded(ranges[i])], a) <==> Touched(ranges[..i + 1], a)
  {
    assert ranges[..i + 1] == ranges[..i] + [ranges[i]];
    RoundedWhole(ranges[i]);
    forall a: nat ensures Covered(pages + [Rounded(ranges[i])], a) <==> Touched(ranges[..i + 1], a) {
      RoundedCovers(ranges[i], a);
      CoveredMore(pages, Rounded(ranges[i]), a);
      TouchedMore(ranges[..i], ranges[i], a);
    }
  }

  // ----- sorting -----

  ghost predicate Ascending(rs: seq<Range>) {
    forall j, k :: 0 <= j < k < |rs| ==> rs[j].start <= rs[k].start
  }

  /** `r` put in its place, after those that start where it does. */
  function Insert(rs: seq<Range>, r: Range): (ts: seq<Range>)
    requires Ascending(rs)
    ensures Ascending(ts) && multiset(ts) == multiset(rs) + multiset{r}
    ensures |ts| == |rs| + 1 && ts[|rs|].start == if rs == [] then r.start else Max(rs[|rs| - 1].start, r.start)
  {
    if rs == [] || rs[|rs| - 1].start <= r.start then rs + [r]
    else
      var init, last := rs[..|rs| - 1], rs[|rs| - 1];
      assert rs == init + [last];
      Insert(init, r) + [last]
  }

  /** The same ranges in ascending order of start. */
  method SortByStart(rs: seq<Range>) returns (sorted: seq<Range>)
    ensures Ascending(sorted) && multiset(sorted) == multiset(rs)
  {
    sorted := [];
    var i := 0;
    while i < |rs|
      invariant 0 <= i <= |rs| && Ascending(sorted) && multiset(sorted) == multiset(rs[..i])
    {
      assert rs[..i + 1] == rs[..i] + [rs[i]];
      sorted := Insert(sorted, rs[i]);
      i := i + 1;
    }
    assert rs[..i] == rs;
  }

  // ----- merging -----

  /** `merged` is the first `i` ranges merged, and the rest start no earlier than its last. */
  ghost predicate Merging(pages: seq<Range>, i: nat, merged: seq<Range>) {
    && i <= |pages| && |merged| <= i && (i > 0 ==> merged != []) && Tidy(merged)
    && (merged != [] ==> forall k :: i <= k < |pages| ==> merged[|merged| - 1].start <= pages[k].start)
    && forall a: nat :: Covered(merged, a) <==> Covered(pages[..i], a)
  }

  /** Ranges in ascending order merged where they overlap or touch. */
  method Merge(pages: seq<Range>) returns (merged: seq<Range>)
    requires Ascending(pages) && forall k :: 0 <= k < |pages| ==> WholePages(pages[k])
    ensures Tidy(merged) && |merged| <= |pages| && (pages != [] ==> merged != [])
    ensures forall a: nat :: Covered(merged, a) <==> Covered(pages, a)
  {
    merged := [];
    var i := 0;
    while i < |pages|
      invariant 0 <= i <= |pages| && Merging(pages, i, merged)
    {
      var r := pages[i];
      if merged != [] && r.start <= merged[|merged| - 1].End() {
        var last := merged[|merged| - 1];
        var joined := Range(last.start, Max(last.End(), r.End()) - last.start);
        MergeJoins(pages, i, merged, joined);
        merged := merged[..|merged| - 1] + [joined];
      } else {
        MergeAppends(pages, i, merged);
        merged := merged + [r];
      }
      i := i + 1;
    }
    assert pages[..i] == pages;
  }

  lemma MergeAppends(pages: seq<Range>, i: nat, merged: seq<Range>)
    requires i < |pages| && Merging(pages, i, merged) && Ascending(pages) && WholePages(pages[i])
    requires merged != [] ==> merged[|merged| - 1].End() < pages[i].start
    ensures Merging(pages, i + 1, merged + [pages[i]])
  {
    assert pages[..i + 1] == pages[..i] + [pages[i]];
    forall a: nat ensures Covered(merged + [pages[i]], a) <==> Covered(pages[..i + 1], a) {
      CoveredMore(pages[..i], pages[i], a);
      CoveredMore(merged, pages[i], a);
    }
  }

  lemma MergeJoins(pages: seq<Range>, i: nat, merged: seq<Range>, joined: Range)
    requires i < |pages| && Merging(pages, i, merged) && WholePages(pages[i])
    requires merged != [] && JoinOf(merged[|merged| - 1], pages[i], joined)
    ensures Merging(pages, i + 1, merged[..|merged| - 1] + [joined])
  {
    assert pages[..i + 1] == pages[..i] + [pages[i]];
    Joined(merged, pages[i], joined);
    var merged' := merged[..|merged| - 1] + [joined];
    forall a: nat ensures Covered(merged', a) <==> Covered(pages[..i + 1], a) {
      CoveredMore(pages[..i], pages[i], a);
    }
  }

  /** `joined` is two overlapping or touching ranges as one. */
  predicate JoinOf(last: Range, r: Range, joined: Range) {
    last.start <= r.start <= last.End() && joined.start == last.start && joined.End() == Max(last.End(), r.End())
  }

  lemma JoinedWhole(last: Range, r: Range, joined: Range)
    requires WholePages(last) && WholePages(r) && JoinOf(last, r, joined)
    ensures WholePages(joined)
  {
    assert joined.length == last.length || joined.length == r.start - last.start + r.length;
  }

  lemma JoinedCovers(init: seq<Range>, last: Range, r: Range, joined: Range, a: nat)
    requires JoinOf(last, r, joined)
    ensures Covered(init + [joined], a) <==> Covered(init + [last], a) || r.Holds(a)
  {
    CoveredMore(init, joined, a);
    CoveredMore(init, last, a);
  }

  lemma Joined(merged: seq<Range>, r: Range, joined: Range)
    requires merged != [] && Tidy(merged) && WholePages(r) && JoinOf(merged[|merged| - 1], r, joined)
    ensures Tidy(merged[..|merged| - 1] + [joined])
    ensures forall a: nat :: Covered(merged[..|merged| - 1] + [joined], a) <==> Covered(merged, a) || r.Holds(a)
  {
    var init, last := merged[..|merged| - 1], merged[|merged| - 1];
    assert merged == init + [last];
    JoinedWhole(last, r, joined);
    forall a: nat ensures Covered(init + [joined], a) <==> Covered(merged, a) || r.Holds(a) {
      JoinedCovers(init, last, r, joined, a);
    }
  }

  /** The pages the ranges touch, as the fewest ranges in ascending order. */
  method Normalize(ranges: seq<Range>) returns (r: Outcome<seq<Range>>)
    ensures r.Failed? ==> r.error in {InvalidLength, Allocation}
    ensures r == Failed(InvalidLength) ==> exists k :: 0 <= k < |ranges| && Malformed(ranges[k])
    ensures r.Done? ==> forall k :: 0 <= k < |ranges| ==> !Malformed(ranges[k])
    ensures r.Done? ==> Tidy(r.value) && |r.value| <= |ranges| && (ranges != [] ==> r.value != [])
    ensures r.Done? ==> forall a: nat :: Covered(r.value, a) <==> Touched(ranges, a)
  {
    var reserved: bool := *;
    if !reserved {
      return Failed(Allocation);
    }
    var rounded := RoundAll(ranges);
    if rounded.Failed? {
      return rounded;
    }
    var pages := SortByStart(rounded.value);
    reserved := *;
    if !reserved {
      return Failed(Allocation);
    }
    Reordered(rounded.value, pages);
    var merged := Merge(pages);
    return Done(merged);
  }

  lemma Reordered(rs: seq<Range>, ts: seq<Range>)
    requires multiset(rs) == multiset(ts) && forall k :: 0 <= k < |rs| ==> WholePages(rs[k])
    ensures |rs| == |ts| && forall k :: 0 <= k < |ts| ==> WholePages(ts[k])
    ensures forall a: nat :: Covered(rs, a) <==> Covered(ts, a)
  {
    assert |rs| == |multiset(rs)| == |multiset(ts)| == |ts|;
    forall k | 0 <= k < |ts| ensures WholePages(ts[k]) {
      assert ts[k] in multiset(rs);
    }
    forall a: nat ensures Covered(rs, a) <==> Covered(ts, a) {
      if Covered(rs, a) {
        CoveredSame(rs, ts, a);
      }
      if Covered(ts, a) {
        CoveredSame(ts, rs, a);
      }
    }
  }

  // ----- one list for each set of pages -----

  lemma FirstIs(rs: seq<Range>, ts: seq<Range>)
    requires Tidy(rs) && Tidy(ts) && rs != [] && forall a: nat :: Covered(rs, a) <==> Covered(ts, a)
    ensures ts != [] && ts[0].start <= rs[0].start
  {
    assert rs[0].Holds(rs[0].start) && Covered(rs, rs[0].start);
    var k :| 0 <= k < |ts| && ts[k].Holds(rs[0].start);
    assert k > 0 ==> ts[0].End() < ts[k].start;
  }

  lemma FirstEnds(rs: seq<Range>)
    requires Tidy(rs) && rs != []
    ensures !Covered(rs, rs[0].End())
  {
    forall k | 0 <= k < |rs| ensures !rs[k].Holds(rs[0].End()) {
      assert k > 0 ==> rs[0].End() < rs[k].start;
    }
  }

  lemma FirstReaches(rs: seq<Range>, ts: seq<Range>)
    requires Tidy(rs) && Tidy(ts) && rs != [] && ts != [] && rs[0].start == ts[0].start
    requires forall a: nat :: Covered(rs, a) <==> Covered(ts, a)
    ensures ts[0].End() <= rs[0].End()
  {
    FirstEnds(rs);
    var end := rs[0].End();
    assert Covered(ts, end) <==> Covered(rs, end);
    assert end < ts[0].End() ==> ts[0].Holds(end);
  }

  lemma RestCovers(rs: seq<Range>, a: nat)
    requires Tidy(rs) && rs != []
    ensures Covered(rs[1..], a) <==> Covered(rs, a) && rs[0].End() <= a
  {
    if Covered(rs[1..], a) {
      var k :| 0 <= k < |rs[1..]| && rs[1..][k].Holds(a);
      assert rs[k + 1].Holds(a) && rs[0].End() < rs[k + 1].start;
    }
    if Covered(rs, a) && rs[0].End() <= a {
      var k :| 0 <= k < |rs| && rs[k].Holds(a);
      assert rs[1..][k - 1].Holds(a);
    }
  }

  lemma RestsAgree(rs: seq<Range>, ts: seq<Range>)
    requires Tidy(rs) && Tidy(ts) && rs != [] && ts != [] && rs[0] == ts[0]
    requires forall a: nat :: Covered(rs, a) <==> Covered(ts, a)
    ensures Tidy(rs[1..]) && Tidy(ts[1..]) && forall a: nat :: Covered(rs[1..], a) <==> Covered(ts[1..], a)
  {
    forall a: nat ensures Covered(rs[1..], a) <==> Covered(ts[1..], a) {
      RestCovers(rs, a);
      RestCovers(ts, a);
    }
  }

  /** A set of pages has one tidy list: normalizing does not depend on how its ranges were given. */
  lemma {:induction false} TidyUnique(rs: seq<Range>, ts: seq<Range>)
    requires Tidy(rs) && Tidy(ts) && forall a: nat :: Covered(rs, a) <==> Covered(ts, a)
    ensures rs == ts
  {
    if rs == [] {
      if ts != [] {
        FirstIs(ts, rs);
      }
    } else {
      FirstIs(rs, ts);
      FirstIs(ts, rs);
      FirstReaches(rs, ts);
      FirstReaches(ts, rs);
      RestsAgree(rs, ts);
      TidyUnique(rs[1..], ts[1..]);
      assert rs == [rs[0]] + rs[1..] && ts == [ts[0]] + ts[1..];
    }
  }

  // ----- subtracting -----

  predicate Inside(p: Range, r: Range) {
    r.start <= p.start && p.End() <= r.End()
  }

  /** `pieces` is what the exclusions leave of `r` below `end`. */
  ghost predicate Left(r: Range, ex: seq<Range>, end: nat, pieces: seq<Range>) {
    && Tidy(pieces) && (forall k :: 0 <= k < |pieces| ==> Inside(pieces[k], r) && pieces[k].End() <= end)
    && forall a: nat :: Covered(pieces, a) <==> r.Holds(a) && a < end && !Covered(ex, a)
  }

  /** The first `i` exclusions are over at `cursor`. */
  ghost predicate Past(ex: seq<Range>, i: nat, cursor: nat) {
    i <= |ex| && forall k :: 0 <= k < i ==> ex[k].End() <= cursor
  }

  lemma BetweenExclusions(ex: seq<Range>, i: nat, cursor: nat, a: nat)
    requires Tidy(ex) && Past(ex, i, cursor) && cursor <= a && (i < |ex| ==> a < ex[i].start)
    ensures !Covered(ex, a)
  {
    forall k | 0 <= k < |ex| ensures !ex[k].Holds(a) {
      assert k > i ==> ex[i].End() < ex[k].start;
    }
  }

  lemma PieceLeft(r: Range, ex: seq<Range>, i: nat, cursor: nat, end: nat, pieces: seq<Range>)
    requires WholePages(r) && Tidy(ex) && Past(ex, i, cursor) && Left(r, ex, cursor, pieces)
    requires forall k :: 0 <= k < |pieces| ==> pieces[k].End() < cursor
    requires r.start <= cursor < end <= r.End() && cursor % PAGE == 0 && end % PAGE == 0
    requires i < |ex| ==> end <= ex[i].start
    ensures Left(r, ex, end, pieces + [Range(cursor, end - cursor)])
  {
    var piece := Range(cursor, end - cursor);
    forall a: nat ensures Covered(pieces + [piece], a) <==> r.Holds(a) && a < end && !Covered(ex, a) {
      CoveredMore(pieces, piece, a);
      if piece.Holds(a) {
        BetweenExclusions(ex, i, cursor, a);
      }
    }
  }

  lemma ExclusionPassed(r: Range, ex: seq<Range>, i: nat, end: nat, pieces: seq<Range>)
    requires i < |ex| && ex[i].start <= end < ex[i].End() && Left(r, ex, end, pieces)
    ensures Left(r, ex, ex[i].End(), pieces)
  {
    forall a: nat ensures Covered(pieces, a) <==> r.Holds(a) && a < ex[i].End() && !Covered(ex, a) {
      assert end <= a < ex[i].End() ==> ex[i].Holds(a);
    }
  }

  /** `r` is cut up to `cursor`, where its first `i` exclusions are over. */
  ghost predicate Cutting(r: Range, ex: seq<Range>, i: nat, cursor: nat, pieces: seq<Range>) {
    && Past(ex, i, cursor) && r.start <= cursor && cursor % PAGE == 0 && Left(r, ex, cursor, pieces)
    && forall k :: 0 <= k < |pieces| ==> pieces[k].End() < cursor
  }

  lemma CutMore(r: Range, ex: seq<Range>, i: nat, cursor: nat, pieces: seq<Range>, pieces': seq<Range>)
    requires WholePages(r) && Tidy(ex) && Cutting(r, ex, i, cursor, pieces) && i < |ex|
    requires cursor < ex[i].End() && ex[i].start < r.End()
    requires pieces' == if ex[i].start > cursor then pieces + [Range(cursor, ex[i].start - cursor)] else pieces
    ensures Cutting(r, ex, i + 1, ex[i].End(), pieces')
  {
    var end := Max(cursor, ex[i].start);
    if ex[i].start > cursor {
      PieceLeft(r, ex, i, cursor, ex[i].start, pieces);
    }
    assert Left(r, ex, end, pieces');
    ExclusionPassed(r, ex, i, end, pieces');
    WholeEnd(ex[i]);
  }

  lemma WholeEnd(r: Range)
    requires WholePages(r)
    ensures r.End() % PAGE == 0
  {
  }

  lemma CutStarts(r: Range, ex: seq<Range>)
    requires r.start % PAGE == 0
    ensures Cutting(r, ex, 0, r.start, [])
  {
  }

  lemma CutEnds(r: Range, ex: seq<Range>, i: nat, cursor: nat, pieces: seq<Range>)
    requires Cutting(r, ex, i, cursor, pieces) && r.End() <= cursor
    ensures Left(r, ex, r.End(), pieces)
  {
  }

  /** What the exclusions leave of one range. */
  method Cut(r: Range, ex: seq<Range>) returns (left: Outcome<seq<Range>>)
    requires WholePages(r) && Tidy(ex)
    ensures left.Failed? ==> left.error == Allocation
    ensures left.Done? ==> Left(r, ex, r.End(), left.value)
  {
    var pieces: seq<Range>, cursor: nat, i: nat := [], r.start, 0;
    CutStarts(r, ex);
    while i < |ex|
      invariant i <= |ex| && cursor < r.End() && Cutting(r, ex, i, cursor, pieces)
    {
      if ex[i].End() > cursor {
        if ex[i].start >= r.End() {
          break;
        }
        ghost var before := pieces;
        if ex[i].start > cursor {
          var reserved: bool := *;
          if !reserved {
            return Failed(Allocation);
          }
          pieces := pieces + [Range(cursor, Min(ex[i].start, r.End()) - cursor)];
        }
        CutMore(r, ex, i, cursor, before, pieces);
        cursor := Max(cursor, ex[i].End());
        if cursor >= r.End() {
          CutEnds(r, ex, i + 1, cursor, pieces);
          return Done(pieces);
        }
      }
      i := i + 1;
    }
    var reserved: bool := *;
    if !reserved {
      return Failed(Allocation);
    }
    PieceLeft(r, ex, i, cursor, r.End(), pieces);
    return Done(pieces + [Range(cursor, r.End() - cursor)]);
  }

  /** Pages of `ranges` that share no page with an exclusion, as one tidy list. */
  method Subtract(ranges: seq<Range>, exclusions: seq<Range>) returns (r: Outcome<seq<Range>>)
    ensures r.Failed? ==> r.error in {InvalidLength, Allocation}
    ensures r == Failed(InvalidLength) ==>
              exists k :: 0 <= k < |ranges + exclusions| && Malformed((ranges + exclusions)[k])
    ensures r.Done? ==> forall k :: 0 <= k < |ranges + exclusions| ==> !Malformed((ranges + exclusions)[k])
    ensures r.Done? ==> Tidy(r.value)
    ensures r.Done? ==> forall a: nat :: Covered(r.value, a) <==> Touched(ranges, a) && !Touched(exclusions, a)
  {
    var kept := Normalize(ranges);
    if kept.Failed? {
      if kept.error == InvalidLength {
        var k :| 0 <= k < |ranges| && Malformed(ranges[k]);
        assert Malformed((ranges + exclusions)[k]);
      }
      return kept;
    }
    var out := Normalize(exclusions);
    if out.Failed? {
      if out.error == InvalidLength {
        var k :| 0 <= k < |exclusions| && Malformed(exclusions[k]);
        assert Malformed((ranges + exclusions)[|ranges| + k]);
      }
      return out;
    }
    r := CutAll(kept.value, out.value);
  }

  method CutAll(rs: seq<Range>, ex: seq<Range>) returns (r: Outcome<seq<Range>>)
    requires Tidy(rs) && Tidy(ex)
    ensures r.Failed? ==> r.error == Allocation
    ensures r.Done? ==> Tidy(r.value) && forall a: nat :: Covered(r.value, a) <==> Covered(rs, a) && !Covered(ex, a)
  {
    var result, i := [], 0;
    while i < |rs|
      invariant 0 <= i <= |rs| && Tidy(result)
      invariant forall k, j :: 0 <= k < |result| && i <= j < |rs| ==> result[k].End() < rs[j].start
      invariant forall a: nat :: Covered(result, a) <==> Covered(rs[..i], a) && !Covered(ex, a)
    {
      var left := Cut(rs[i], ex);
      if left.Failed? {
        return left;
      }
      LeftAdded(rs, ex, i, result, left.value);
      result := result + left.value;
      i := i + 1;
    }
    assert rs[..i] == rs;
    return Done(result);
  }

  lemma LeftAdded(rs: seq<Range>, ex: seq<Range>, i: nat, result: seq<Range>, left: seq<Range>)
    requires Tidy(rs) && i < |rs| && Tidy(result) && Left(rs[i], ex, rs[i].End(), left)
    requires forall k, j :: 0 <= k < |result| && i <= j < |rs| ==> result[k].End() < rs[j].start
    requires forall a: nat :: Covered(result, a) <==> Covered(rs[..i], a) && !Covered(ex, a)
    ensures Tidy(result + left)
    ensures forall k, j :: 0 <= k < |result + left| && i + 1 <= j < |rs| ==> (result + left)[k].End() < rs[j].start
    ensures forall a: nat :: Covered(result + left, a) <==> Covered(rs[..i + 1], a) && !Covered(ex, a)
  {
    assert rs[..i + 1] == rs[..i] + [rs[i]];
    forall a: nat ensures Covered(result + left, a) <==> Covered(rs[..i + 1], a) && !Covered(ex, a) {
      CoveredBoth(result, left, a);
      CoveredMore(rs[..i], rs[i], a);
    }
  }
}
