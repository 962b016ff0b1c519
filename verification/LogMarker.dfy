/** The incremental marker search of `scripts/run_with_timeout.py`: a growing log is read in chunks, and
    only a short tail of what was read before is kept between polls. */
module LogMarker {
  import opened Words

  /** What one poll finds at the path: nothing yet, or a file with these bytes. */
  type File = Option<Bytes>

  predicate OccursAt(hay: Bytes, needle: Bytes, i: int) {
    0 <= i <= |hay| - |needle| && hay[i..i + |needle|] == needle
  }

  ghost predicate Contains(hay: Bytes, needle: Bytes) {
    exists i :: OccursAt(hay, needle, i)
  }

  /** The last `|marker| - 1` bytes, or all of them when there are fewer. */
  function Retained(candidate: Bytes, marker: Bytes): (r: Bytes) {
    if |marker| > 1 then candidate[Max(|candidate| - (|marker| - 1), 0)..] else []
  }

  // ----- one poll -----

  /** Where the next poll resumes reading, and the bytes kept from before that. */
  datatype Watch = Watch(offset: nat, tail: Bytes)

  /** Byte-string search, as the `in` operator performs it. */
  method Find(hay: Bytes, needle: Bytes) returns (found: bool)
    ensures found <==> Contains(hay, needle)
  {
    var i := 0;
    while i <= |hay| - |needle|
      invariant 0 <= i
      invariant forall j :: 0 <= j < i ==> !OccursAt(hay, needle, j)
    {
      if OccursAt(hay, needle, i) {
        return true;
      }
      i := i + 1;
    }
    return false;
  }

  /** One poll that finds `size` bytes by `stat` and then reads `content`. */
  method Poll(size: nat, content: Bytes, marker: Bytes, w: Watch) returns (found: bool, w': Watch)
    requires size <= |content|
    ensures found ==> size != ResumeAt(size, w).offset
    ensures size == ResumeAt(size, w).offset ==> !found && w' == ResumeAt(size, w)
    ensures size != ResumeAt(size, w).offset ==>
              && (found <==> Contains(Candidate(size, content, w), marker))
              && w' == Watch(size, Retained(Candidate(size, content, w), marker))
  {
    var v := w;
    if size < v.offset {
      v := Watch(0, []);
    }
    if size == v.offset {
      return false, v;
    }
    var candidate := v.tail + content[v.offset..];
    found := Find(candidate, marker);
    w' := Watch(size, Retained(candidate, marker));
  }

  /** A file that shrank is read again from its start. */
  function ResumeAt(size: nat, w: Watch): (v: Watch)
    ensures v.offset <= size
  {
    if size < w.offset then Watch(0, []) else w
  }

  function Candidate(size: nat, content: Bytes, w: Watch): Bytes
    requires size <= |content|
  {
    ResumeAt(size, w).tail + content[ResumeAt(size, w).offset..]
  }

  // ----- chunking -----

  lemma OccursBefore(seen: Bytes, more: Bytes, marker: Bytes, i: int)
    requires OccursAt(seen + more, marker, i) && i + |marker| <= |seen|
    ensures OccursAt(seen, marker, i)
  {
    assert seen[i..i + |marker|] == (seen + more)[i..i + |marker|];
  }

  lemma OccursShift(whole: Bytes, cut: nat, marker: Bytes, i: nat)
    requires cut <= |whole|
    ensures OccursAt(whole[cut..], marker, i) <==> OccursAt(whole, marker, cut + i)
  {
    if cut + i + |marker| <= |whole| {
      assert whole[cut + i..cut + i + |marker|] == whole[cut..][i..i + |marker|];
    }
  }

  /** A marker that is not in `seen` occurs in `seen + more` exactly when it occurs after the retained tail. */
  lemma TailSuffices(seen: Bytes, more: Bytes, marker: Bytes)
    requires marker != [] && !Contains(seen, marker)
    ensures Contains(seen + more, marker) <==> Contains(Retained(seen, marker) + more, marker)
  {
    var cut := |seen| - |Retained(seen, marker)|;
    var whole, late := seen + more, Retained(seen, marker) + more;
    assert late == whole[cut..];
    if Contains(late, marker) {
      var i :| OccursAt(late, marker, i);
      OccursShift(whole, cut, marker, i);
    }
    if Contains(whole, marker) {
      var i :| OccursAt(whole, marker, i);
      if i + |marker| <= |seen| {
        OccursBefore(seen, more, marker, i);
      }
      OccursShift(whole, cut, marker, i - cut);
    }
  }

  lemma OneByteSuffices(seen: Bytes, more: Bytes, marker: Bytes)
    requires |marker| == 1 && !Contains(seen, marker)
    ensures Contains(seen + more, marker) <==> Contains(more, marker)
  {
    TailSuffices(seen, more, marker);
    assert Retained(seen, marker) + more == more;
  }

  lemma PrefixLacks(seen: Bytes, n: nat, marker: Bytes)
    requires n <= |seen| && !Contains(seen, marker)
    ensures !Contains(seen[..n], marker)
  {
    if Contains(seen[..n], marker) {
      ContainsGrows(seen[..n], seen, marker);
    }
  }

  /** What was found stays found as the log grows. */
  lemma ContainsGrows(hay: Bytes, longer: Bytes, needle: Bytes)
    requires hay <= longer && Contains(hay, needle)
    ensures Contains(longer, needle)
  {
    var i :| OccursAt(hay, needle, i);
    assert longer[i..i + |needle|] == hay[i..i + |needle|];
    assert OccursAt(longer, needle, i);
  }

  lemma OccursIndex(hay: Bytes, needle: Bytes, i: int, k: nat)
    requires OccursAt(hay, needle, i) && k < |needle|
    ensures hay[i + k] == needle[k]
  {
    assert hay[i + k] == hay[i..i + |needle|][k];
  }

  /** Retaining in two steps keeps the same tail. */
  lemma TailComposes(seen: Bytes, more: Bytes, marker: Bytes)
    ensures Retained(Retained(seen, marker) + more, marker) == Retained(seen + more, marker)
  {
    var cut := |seen| - |Retained(seen, marker)|;
    var whole, late := seen + more, Retained(seen, marker) + more;
    assert late == whole[cut..];
    var d := |late| - |Retained(late, marker)|;
    assert late[d..] == whole[cut + d..];
  }

  // ----- an append-only log -----

  function Content(f: File): Bytes {
    if f.Some? then f.value else []
  }

  /** The file only appears and grows. */
  ghost predicate Appends(f: File, g: File) {
    (f.Some? ==> g.Some?) && Content(f) <= Content(g)
  }

  /** The marker is in the part of the log written after the first `start` bytes. */
  ghost predicate Seen(f: File, marker: Bytes, start: nat) {
    start <= |Content(f)| && Contains(Content(f)[start..], marker)
  }

  /** The watch has read all of `f` past `start` without meeting the marker. It resumes at the end, or for a
      one-byte marker anywhere before it. */
  ghost predicate Tracks(w: Watch, f: File, marker: Bytes, start: nat) {
    && start <= w.offset <= |Content(f)| && (w.offset == |Content(f)| || |marker| == 1)
    && !Contains(Content(f)[start..], marker)
    && w.tail == Retained(Content(f)[start..], marker)
  }

  /** Watching starts at the end of whatever is already there. */
  lemma StartTracks(f: File, marker: Bytes)
    requires marker != []
    ensures Tracks(Watch(|Content(f)|, []), f, marker, |Content(f)|)
  {
    assert Content(f)[|Content(f)|..] == [];
    forall i ensures !OccursAt([], marker, i) {
    }
  }

  /** Tail and fresh bytes together decide, and retain, what the whole log past `start` would. */
  lemma ReadExact(w: Watch, g: File, content: Bytes, marker: Bytes, start: nat)
    requires marker != [] && Tracks(w, g, marker, start) && Content(g) <= content
    ensures Contains(w.tail + content[w.offset..], marker) <==> Contains(content[start..], marker)
    ensures Retained(w.tail + content[w.offset..], marker) == Retained(content[start..], marker)
  {
    var seen, more := Content(g)[start..], content[w.offset..];
    if w.offset == |Content(g)| {
      assert seen + more == content[start..];
      TailSuffices(seen, more, marker);
      TailComposes(seen, more, marker);
    } else {
      var before := content[start..w.offset];
      assert before == seen[..w.offset - start];
      PrefixLacks(seen, w.offset - start, marker);
      OneByteSuffices(before, more, marker);
      assert before + more == content[start..] && w.tail + more == more;
    }
  }

  /** One poll of an append-only log that finds `size` bytes by `stat` and then reads `f`, which may have grown
      in between. Its own verdict is right whenever it reads at all; what it keeps for the next poll is right
      if the two sizes agree or the marker is a single byte, and otherwise it resumes before bytes it has read. */
  method ReadyMarkerObserved(size: nat, f: File, marker: Bytes, w: Watch, ghost g: File, ghost start: nat)
    returns (found: bool, w': Watch)
    requires marker != [] && Tracks(w, g, marker, start) && Appends(g, f)
    requires |Content(g)| <= size <= |Content(f)|
    ensures size == w.offset ==> !found && Tracks(w', g, marker, start)
    ensures size != w.offset ==> (found <==> Seen(f, marker, start))
    ensures size != w.offset ==> w' == Watch(size, Retained(Content(f)[start..], marker))
    ensures size == |Content(f)| ==> (found <==> Seen(f, marker, start))
    ensures !found && (size == |Content(f)| || (|marker| == 1 && size != w.offset)) ==> Tracks(w', f, marker, start)
  {
    if f.None? {
      return false, Watch(0, []);
    }
    ReadExact(w, g, f.value, marker, start);
    found, w' := Poll(size, f.value, marker, w);
  }

  function Prior(before: File, snapshots: seq<File>, i: nat): File
    requires i <= |snapshots|
  {
    if i == 0 then before else snapshots[i - 1]
  }

  ghost predicate GrowsAt(before: File, snapshots: seq<File>, i: nat)
    requires i < |snapshots|
  {
    Appends(Prior(before, snapshots, i), snapshots[i])
  }

  /** Polling the snapshots of an append-only log reports the marker at exactly the first snapshot that
      contains it past the starting offset, however the log was cut into chunks. */
  method FirstReport(before: File, snapshots: seq<File>, marker: Bytes) returns (k: nat)
    requires marker != []
    requires forall i :: 0 <= i < |snapshots| ==> GrowsAt(before, snapshots, i)
    ensures k <= |snapshots|
    ensures forall i :: 0 <= i < k ==> !Seen(snapshots[i], marker, |Content(before)|)
    ensures k < |snapshots| ==> Seen(snapshots[k], marker, |Content(before)|)
  {
    var w := Watch(|Content(before)|, []);
    StartTracks(before, marker);
    ghost var start := |Content(before)|;
    k := 0;
    while k < |snapshots|
      invariant 0 <= k <= |snapshots|
      invariant Tracks(w, Prior(before, snapshots, k), marker, start)
      invariant forall i :: 0 <= i < k ==> !Seen(snapshots[i], marker, start)
    {
      var found;
      assert GrowsAt(before, snapshots, k);
      found, w := ReadyMarkerObserved(|Content(snapshots[k])|, snapshots[k], marker, w, Prior(before, snapshots, k),
                                      start);
      if found {
        return;
      }
      k := k + 1;
    }
  }

  // ----- polls that race with the writer -----

  /** What the polls after a torn one search: the tail kept by it, and everything from its `stat` size on,
      so that the bytes read early come twice. */
  function Reread(tail: Bytes, log: Bytes, from: nat): Bytes
    requires from <= |log|
  {
    tail + log[from..]
  }

  /** After a poll that found the size before `extra` was appended but read `extra` as well, the next poll
      looks at the retained tail, `extra` again, and what followed. */
  lemma TornCandidate(head: Bytes, seen: Bytes, extra: Bytes, more: Bytes, marker: Bytes)
    requires extra + more != []
    ensures var w := Watch(|head + seen|, Retained(seen + extra, marker));
            var log := head + seen + extra + more;
            && Candidate(|log|, log, w) == Reread(w.tail, log, w.offset)
            && Reread(w.tail, log, w.offset) == Retained(seen + extra, marker) + extra + more
  {
    var log := head + seen + extra + more;
    assert log[|head + seen|..] == extra + more;
    assert Retained(seen + extra, marker) + (extra + more) == Retained(seen + extra, marker) + extra + more;
  }

  /** Each snapshot extends the one before and the log as the torn poll read it. */
  ghost predicate Extends(log: Bytes, snapshots: seq<Bytes>) {
    && (forall i :: 0 <= i < |snapshots| ==> log <= snapshots[i])
    && (forall i, j :: 0 <= i < j < |snapshots| ==> snapshots[i] <= snapshots[j])
  }

  /** Every poll after a torn one: the marker is reported at the first snapshot whose reread bytes hold it. A
      harmless tear makes that the first snapshot of the log that holds it past `head`. */
  method ReportsAfterTear(head: Bytes, seen: Bytes, extra: Bytes, snapshots: seq<Bytes>, marker: Bytes) returns (k: nat)
    requires marker != [] && !Contains(seen + extra, marker) && Extends(head + seen + extra, snapshots)
    ensures k <= |snapshots|
    ensures var tail, from := Retained(seen + extra, marker), |head + seen|;
            && (forall i :: 0 <= i < k ==> !Contains(Reread(tail, snapshots[i], from), marker))
            && (k < |snapshots| ==> Contains(Reread(tail, snapshots[k], from), marker))
    ensures TearHarmless(|extra|, |marker|) ==>
              && (forall i :: 0 <= i < k ==> !Contains(snapshots[i][|head|..], marker))
              && (k < |snapshots| ==> Contains(snapshots[k][|head|..], marker))
  {
    ghost var tail, from := Retained(seen + extra, marker), |head + seen|;
    TailLacks(seen + extra, marker);
    assert head + seen <= head + seen + extra;
    k := ReportsReread(Retained(seen + extra, marker), head + seen, snapshots, marker);
    if TearHarmless(|extra|, |marker|) {
      forall i | 0 <= i < |snapshots|
        ensures Contains(snapshots[i][|head|..], marker) <==> Contains(Reread(tail, snapshots[i], from), marker)
      {
        HarmlessSnapshot(head, seen, extra, snapshots[i], marker);
      }
    }
  }

  /** Polling on from the end of `log` with `tail` kept reports the marker at the first snapshot whose reread
      bytes hold it. */
  method ReportsReread(tail: Bytes, log: Bytes, snapshots: seq<Bytes>, marker: Bytes) returns (k: nat)
    requires marker != [] && Extends(log, snapshots) && !Contains(tail, marker) && Retained(tail, marker) == tail
    ensures k <= |snapshots|
    ensures forall i :: 0 <= i < k ==> !Contains(Reread(tail, snapshots[i], |log|), marker)
    ensures k < |snapshots| ==> Contains(Reread(tail, snapshots[k], |log|), marker)
  {
    var w := Watch(|log|, tail);
    ghost var last := log;
    assert Reread(tail, log, |log|) == tail;
    k := 0;
    while k < |snapshots|
      invariant 0 <= k <= |snapshots| && log <= last && (k > 0 ==> last == snapshots[k - 1]) && (k == 0 ==> last == log)
      invariant w == Watch(|last|, Retained(Reread(tail, last, |log|), marker))
      invariant !Contains(Reread(tail, last, |log|), marker)
      invariant forall i :: 0 <= i < k ==> !Contains(Reread(tail, snapshots[i], |log|), marker)
    {
      assert last <= snapshots[k];
      RereadGrows(tail, last, snapshots[k], |log|, marker);
      var found;
      found, w := Poll(|snapshots[k]|, snapshots[k], marker, w);
      if found {
        return;
      }
      last := snapshots[k];
      k := k + 1;
    }
  }

  /** A tail is too short to hold the marker, and retaining it again keeps all of it. */
  lemma TailLacks(seen: Bytes, marker: Bytes)
    requires marker != []
    ensures !Contains(Retained(seen, marker), marker)
    ensures Retained(Retained(seen, marker), marker) == Retained(seen, marker)
  {
  }

  /** The next poll searches the tail of what was reread before and the fresh bytes, which decides and retains
      what all the reread bytes would. */
  lemma RereadGrows(tail: Bytes, last: Bytes, log: Bytes, from: nat, marker: Bytes)
    requires marker != [] && from <= |last| && last <= log && !Contains(Reread(tail, last, from), marker)
    ensures var w := Watch(|last|, Retained(Reread(tail, last, from), marker));
            && (Contains(Candidate(|log|, log, w), marker) <==> Contains(Reread(tail, log, from), marker))
            && Retained(Candidate(|log|, log, w), marker) == Retained(Reread(tail, log, from), marker)
    ensures |log| == |last| ==> log == last
  {
    var before, news := Reread(tail, last, from), log[|last|..];
    assert before + news == Reread(tail, log, from);
    TailSuffices(before, news, marker);
    TailComposes(before, news, marker);
  }

  lemma HarmlessSnapshot(head: Bytes, seen: Bytes, extra: Bytes, log: Bytes, marker: Bytes)
    requires marker != [] && !Contains(seen + extra, marker) && head + seen + extra <= log
    requires TearHarmless(|extra|, |marker|)
    ensures Contains(log[|head|..], marker)
            <==> Contains(Reread(Retained(seen + extra, marker), log, |head + seen|), marker)
  {
    var more := log[|head + seen + extra|..];
    assert log == head + (seen + extra + more);
    assert log[|head|..] == seen + extra + more && log[|head + seen|..] == extra + more;
    assert Reread(Retained(seen + extra, marker), log, |head + seen|) == Retained(seen + extra, marker) + extra + more;
    assert TornRight(seen, extra, more, marker);
  }

  /** After a poll that read `extra` too early the marker is not missed, and not invented, once `more` has been
      appended. */
  ghost predicate TornFinds(seen: Bytes, extra: Bytes, more: Bytes, marker: Bytes) {
    Contains(seen + extra + more, marker) ==> Contains(Retained(seen + extra, marker) + extra + more, marker)
  }

  ghost predicate TornHonest(seen: Bytes, extra: Bytes, more: Bytes, marker: Bytes) {
    Contains(Retained(seen + extra, marker) + extra + more, marker) ==> Contains(seen + extra + more, marker)
  }

  ghost predicate TornRight(seen: Bytes, extra: Bytes, more: Bytes, marker: Bytes) {
    TornFinds(seen, extra, more, marker) && TornHonest(seen, extra, more, marker)
  }

  /** However the log looked and whatever is looked for, reading `e` bytes too many never makes a marker of `m`
      bytes that has not occurred yet be missed, be invented, or either. */
  ghost predicate NeverMissed(e: nat, m: nat) {
    forall seen: Bytes, extra: Bytes, more: Bytes, marker: Bytes ::
      |extra| == e && |marker| == m && !Contains(seen + extra, marker) ==> TornFinds(seen, extra, more, marker)
  }

  ghost predicate NeverInvented(e: nat, m: nat) {
    forall seen: Bytes, extra: Bytes, more: Bytes, marker: Bytes ::
      |extra| == e && |marker| == m && !Contains(seen + extra, marker) ==> TornHonest(seen, extra, more, marker)
  }

  ghost predicate TearHarmless(e: nat, m: nat) {
    forall seen: Bytes, extra: Bytes, more: Bytes, marker: Bytes ::
      |extra| == e && |marker| == m && !Contains(seen + extra, marker) ==> TornRight(seen, extra, more, marker)
  }

  lemma UntornRight(seen: Bytes, extra: Bytes, more: Bytes, marker: Bytes)
    requires marker != [] && !Contains(seen + extra, marker) && (extra == [] || |marker| == 1)
    ensures TornRight(seen, extra, more, marker)
  {
    if extra == [] {
      assert seen + extra == seen;
      TailSuffices(seen, more, marker);
      assert Retained(seen, marker) + extra + more == Retained(seen, marker) + more;
    } else {
      assert seen + extra + more == seen + (extra + more);
      assert (seen + extra)[..|seen|] == seen;
      PrefixLacks(seen + extra, |seen|, marker);
      OneByteSuffices(seen, extra + more, marker);
      assert Retained(seen + extra, marker) + extra + more == extra + more;
    }
  }

  /** A new occurrence ends in `more`, so it lies wholly in a tear at least as long as the rest of the marker,
      which is read again. */
  lemma LongTearFinds(seen: Bytes, extra: Bytes, more: Bytes, marker: Bytes)
    requires marker != [] && !Contains(seen + extra, marker) && |extra| >= |marker| - 1
    ensures TornFinds(seen, extra, more, marker)
  {
    var tail := Retained(seen + extra, marker);
    if Contains(seen + extra + more, marker) {
      assert (seen + extra + more)[|seen|..] == extra + more;
      NewOccursLate(seen + extra, more, |seen|, marker);
      assert (tail + extra + more)[|tail|..] == extra + more;
      SuffixHolds(tail + extra + more, |tail|, marker);
    }
  }

  lemma NewOccursLate(seen: Bytes, more: Bytes, cut: nat, marker: Bytes)
    requires !Contains(seen, marker) && Contains(seen + more, marker) && cut <= |seen| - |marker| + 1 && cut <= |seen|
    ensures Contains((seen + more)[cut..], marker)
  {
    var i :| OccursAt(seen + more, marker, i);
    if i + |marker| <= |seen| {
      OccursBefore(seen, more, marker, i);
    }
    OccursShift(seen + more, cut, marker, i - cut);
  }

  lemma SuffixHolds(whole: Bytes, cut: nat, marker: Bytes)
    requires cut <= |whole| && Contains(whole[cut..], marker)
    ensures Contains(whole, marker)
  {
    var i :| OccursAt(whole[cut..], marker, i);
    OccursShift(whole, cut, marker, i);
  }

  function Repeat(v: byte, n: nat): Bytes {
    seq(n, i => v)
  }

  /** Zeros and a one read early, then twos: the tail's one meets the re-read start of the log. */
  function Tear(e: nat): Bytes
    requires e > 0
  {
    Repeat(0, e - 1) + [1]
  }

  function Phantom(e: nat, m: nat): Bytes
    requires e > 0 && m > 1
  {
    [1] + (Tear(e) + Repeat(2, m))[..m - 1]
  }

  lemma PhantomAbsent(e: nat, m: nat, n: nat)
    requires e > 0 && m > 1 && n <= m
    ensures !Contains(Tear(e) + Repeat(2, n), Phantom(e, m))
  {
    var log, marker := Tear(e) + Repeat(2, n), Phantom(e, m);
    forall i ensures !OccursAt(log, marker, i) {
      if OccursAt(log, marker, i) {
        OccursIndex(log, marker, i, 0);
        OccursIndex(log, marker, i, 1);
      }
    }
  }

  lemma PhantomInvented(e: nat, m: nat)
    requires e > 0 && m > 1
    ensures Contains(Retained(Tear(e), Phantom(e, m)) + Tear(e) + Repeat(2, m), Phantom(e, m))
  {
    var marker := Phantom(e, m);
    var tail := Retained(Tear(e), marker);
    var candidate := tail + Tear(e) + Repeat(2, m);
    assert tail[|tail| - 1] == 1;
    assert candidate[|tail| - 1..|tail| - 1 + m] == marker;
    assert OccursAt(candidate, marker, |tail| - 1);
  }

  /** A marker that opens and closes with bytes of its own. */
  function Split(m: nat): Bytes
    requires m > 1
  {
    [1] + Repeat(0, m - 2) + [2]
  }

  /** For every shorter tear of a longer marker there is a log in which the marker is missed by every later poll,
      whatever is appended: only what is appended can still be reported. */
  lemma TornPollMisses(e: nat, m: nat) returns (seen: Bytes, extra: Bytes, more: Bytes, marker: Bytes)
    requires 0 < e && e + 2 <= m
    ensures |extra| == e && |marker| == m && !Contains(seen + extra, marker) && Contains(seen + extra + more, marker)
    ensures forall rest: Bytes ::
              Contains(Retained(seen + extra, marker) + extra + more + rest, marker) <==> Contains(rest, marker)
  {
    seen, extra, more, marker := [1] + Repeat(0, m - 2 - e), Repeat(0, e), [2], Split(m);
    var tail := seen + extra;
    assert tail == [1] + Repeat(0, m - 2) && tail + more == marker;
    assert OccursAt(tail + more, marker, 0);
    assert Retained(tail, marker) == tail;
    forall rest: Bytes ensures Contains(tail + extra + more + rest, marker) <==> Contains(rest, marker) {
      OnlyInRest(e, m, tail + extra + more, rest);
    }
  }

  /** Behind a one and too many zeros the marker can start only in what follows. */
  lemma OnlyInRest(e: nat, m: nat, front: Bytes, rest: Bytes)
    requires 0 < e && m > 1 && front == [1] + Repeat(0, m - 2) + Repeat(0, e) + [2]
    ensures Contains(front + rest, Split(m)) <==> Contains(rest, Split(m))
  {
    var whole, marker := front + rest, Split(m);
    assert whole[|front|..] == rest && whole[m - 1] == 0;
    if Contains(whole, marker) {
      var i :| OccursAt(whole, marker, i);
      OccursIndex(whole, marker, i, 0);
      OccursIndex(whole, marker, i, m - 1);
      OccursShift(whole, |front|, marker, i - |front|);
    }
    if Contains(rest, marker) {
      SuffixHolds(whole, |front|, marker);
    }
  }

  /** A marker can be missed exactly by a tear that is shorter than the rest of the marker. */
  lemma MissesExactly(e: nat, m: nat)
    requires m > 0
    ensures NeverMissed(e, m) <==> e == 0 || e >= m - 1
  {
    if e == 0 || e >= m - 1 {
      forall seen: Bytes, extra: Bytes, more: Bytes, marker: Bytes
        | |extra| == e && |marker| == m && !Contains(seen + extra, marker)
        ensures TornFinds(seen, extra, more, marker)
      {
        if e == 0 {
          UntornRight(seen, extra, more, marker);
        } else {
          LongTearFinds(seen, extra, more, marker);
        }
      }
    } else {
      var seen, extra, more, marker := TornPollMisses(e, m);
      var reread := Retained(seen + extra, marker) + extra + more;
      assert reread + [] == reread;
      TailLacks([], marker);
      assert !TornFinds(seen, extra, more, marker);
    }
  }

  /** A marker can be invented exactly by any tear of a marker longer than a byte. */
  lemma InventsExactly(e: nat, m: nat)
    requires m > 0
    ensures NeverInvented(e, m) <==> e == 0 || m == 1
  {
    if e == 0 || m == 1 {
      forall seen: Bytes, extra: Bytes, more: Bytes, marker: Bytes
        | |extra| == e && |marker| == m && !Contains(seen + extra, marker)
        ensures TornHonest(seen, extra, more, marker)
      {
        UntornRight(seen, extra, more, marker);
      }
    } else {
      var seen: Bytes, extra, more, marker := [], Tear(e), Repeat(2, m), Phantom(e, m);
      PhantomAbsent(e, m, 0);
      PhantomAbsent(e, m, m);
      PhantomInvented(e, m);
      assert seen + extra == extra == extra + Repeat(2, 0);
      assert !TornHonest(seen, extra, more, marker);
    }
  }

  /** So a poll that reads more than it was told is there does no harm to any log and marker exactly when that
      does not happen or the marker is a single byte. */
  lemma TornPollExactly(e: nat, m: nat)
    requires m > 0
    ensures TearHarmless(e, m) <==> e == 0 || m == 1
  {
    MissesExactly(e, m);
    InventsExactly(e, m);
    if e == 0 || m == 1 {
      forall seen: Bytes, extra: Bytes, more: Bytes, marker: Bytes
        | |extra| == e && |marker| == m && !Contains(seen + extra, marker)
        ensures TornRight(seen, extra, more, marker)
      {
        UntornRight(seen, extra, more, marker);
      }
    } else if TearHarmless(e, m) {
      forall seen: Bytes, extra: Bytes, more: Bytes, marker: Bytes
        | |extra| == e && |marker| == m && !Contains(seen + extra, marker)
        ensures TornHonest(seen, extra, more, marker)
      {
        assert TornRight(seen, extra, more, marker);
      }
    }
  }

  /** A log of two bytes shows it: [7, 7] is reported of [1, 7]. */
  lemma TornPollInvents()
    ensures var marker: Bytes := [7, 7];
            !Contains([1, 7], marker) && Contains(Retained([1, 7], marker) + [7], marker)
  {
    var marker: Bytes := [7, 7];
    assert [1, 7][0..2] == [1, 7] && [1, 7][0] != marker[0];
    assert Retained([1, 7], marker) + [7] == marker;
    assert OccursAt(marker, marker, 0);
  }
}
