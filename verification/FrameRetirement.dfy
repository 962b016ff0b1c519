/** The client frame registry and the loops that retire every row of a process: removal swaps the last row
    into the freed place, and any kernel call on the way may fail. */
module FrameRetirement {
  import opened Words
  import opened FrameReclaim

  datatype Status = InvalidHandle | InsufficientResources | InvalidParameter | Other(code: nat)

  datatype Result<+T> = Ok(value: T) | Err(status: Status)

  const U64_MAX := USIZE_LIMIT - 1

  // ----- rows as a collection -----

  /** Removal by moving the last row into the freed place. */
  function SwapRemove(s: seq<Row>, i: nat): seq<Row>
    requires i < |s|
  {
    s[i := s[|s| - 1]][..|s| - 1]
  }

  lemma SwapRemoveMultiset(s: seq<Row>, i: nat)
    requires i < |s|
    ensures multiset(s) == multiset(SwapRemove(s, i)) + multiset{s[i]}
  {
    var n := |s| - 1;
    assert s == s[..n] + [s[n]];
    if i < n {
      var t := s[..n];
      assert SwapRemove(s, i) == t[i := s[n]];
      assert t == t[..i] + [t[i]] + t[i + 1..];
      assert t[i := s[n]] == t[..i] + [s[n]] + t[i + 1..];
    } else {
      assert SwapRemove(s, i) == s[..n];
    }
  }

  /** What can be counted over the registry. */
  datatype Kind = OfProcess(pi: nat) | Reclaiming

  function Belongs(row: Row, kind: Kind): nat {
    match kind
    case OfProcess(pi) => if row.pi == pi then 1 else 0
    case Reclaiming => if row.cleanup.Some? || row.transfer then 1 else 0
  }

  function CountOf(s: seq<Row>, kind: Kind): nat {
    if s == [] then 0 else CountOf(s[..|s| - 1], kind) + Belongs(s[|s| - 1], kind)
  }

  lemma {:induction false} CountUpdate(s: seq<Row>, i: nat, row: Row, kind: Kind)
    requires i < |s|
    ensures CountOf(s[i := row], kind) + Belongs(s[i], kind) == CountOf(s, kind) + Belongs(row, kind)
  {
    var n := |s| - 1;
    if i == n {
      assert s[i := row][..n] == s[..n];
    } else {
      assert s[i := row][..n] == s[..n][i := row];
      CountUpdate(s[..n], i, row, kind);
    }
  }

  lemma CountSwapRemove(s: seq<Row>, i: nat, kind: Kind)
    requires i < |s|
    ensures CountOf(SwapRemove(s, i), kind) + Belongs(s[i], kind) == CountOf(s, kind)
  {
    CountUpdate(s, i, s[|s| - 1], kind);
  }

  lemma {:induction false} CountNone(s: seq<Row>, pi: nat)
    requires forall k :: 0 <= k < |s| ==> s[k].pi != pi
    ensures CountOf(s, OfProcess(pi)) == 0
  {
    if s != [] {
      CountNone(s[..|s| - 1], pi);
    }
  }

  // ----- one row -----

  function StageOf(row: Row): Stage {
    match row.cleanup
    case None => Stage(row.caps, row.backing, NONE, NONE, false)
    case Some(p) => Stage(row.caps, row.backing, p.unmapped, p.deleted, p.revoked)
  }

  /** What reclamation leaves alone. */
  predicate SameRow(a: Row, b: Row) {
    && a.id == b.id && a.pi == b.pi && a.lifetime == b.lifetime && a.page == b.page
    && a.ownsFrame == b.ownsFrame && a.backing == b.backing && a.transfer == b.transfer
  }

  /** `o` and `j` are the capabilities the row named before reclamation and the calls made since. */
  ghost predicate RowOk(row: Row, o: Caps, j: seq<Op>) {
    && row.ownsFrame == (row.backing != 0)
    && match row.cleanup
       case None => j == [] && o == row.caps && Steady(o, StageOf(row))
       case Some(p) =>
         && Tracked(o, StageOf(row), j)
         && (p.revoked ==> p.complete)
         && (p.complete ==> AllDone(StageOf(row)) && (row.backing != 0 ==> p.revoked))
  }

  /** Every capability of the row has gone through exactly the calls it needs, once each. */
  ghost predicate Completed(row: Row, o: Caps, j: seq<Op>) {
    forall cap :: cap != 0 ==> On(j, cap) == FullCourse(row, o, cap)
  }

  function FullCourse(row: Row, o: Caps, cap: nat): seq<Op> {
    if !Present(o, cap) then []
    else if cap == row.backing then [Unmap(cap), Revoke(cap), Publish(cap)]
    else [Unmap(cap), Delete(cap), Recycle(cap)]
  }

  /** A row under reclamation whose calls are not all acknowledged. */
  ghost predicate Working(row: Row, o: Caps, j: seq<Op>) {
    row.cleanup.Some? && !row.cleanup.value.complete && !row.cleanup.value.revoked && Tracked(o, StageOf(row), j)
  }

  /** All a kernel call may change in a row that stays. */
  ghost predicate Resumed(row: Row, row': Row) {
    SameRow(row, row') && row'.cleanup.Some? && row.cleanup.Some? &&
    row'.cleanup.value.intent == row.cleanup.value.intent && Shrunk(row.caps, row'.caps)
  }

  ghost predicate KeepsDone(row: Row, row': Row) {
    forall c :: CapDone(StageOf(row), c) ==> CapDone(StageOf(row'), c)
  }

  method UnmapCap(row: Row, cap: nat, ghost o: Caps, ghost j: seq<Op>) returns (ok: bool, row': Row, ghost j': seq<Op>)
    requires Working(row, o, j) && Present(row.caps, cap)
    ensures Working(row', o, j') && Resumed(row, row') && row'.caps == row.caps && KeepsDone(row, row')
    ensures ok ==> Roles(row'.caps, cap).Within(row'.cleanup.value.unmapped)
  {
    ok, row', j' := true, row, j;
    var p := row.cleanup.value;
    if !Roles(row.caps, cap).Within(p.unmapped) {
      ok := *;
      if ok {
        UnmapStep(o, StageOf(row), cap);
        Journalled(o, StageOf(row), Unmapped(StageOf(row), cap), j, Unmap(cap));
        row' := row.(cleanup := Some(p.(unmapped := p.unmapped.Or(Roles(row.caps, cap)))));
        j' := j + [Unmap(cap)];
      }
    }
  }

  method DeleteCap(row: Row, cap: nat, ghost o: Caps, ghost j: seq<Op>) returns (ok: bool, row': Row, ghost j': seq<Op>)
    requires Working(row, o, j) && Present(row.caps, cap) && cap != row.backing
    requires Roles(row.caps, cap).Within(row.cleanup.value.unmapped)
    ensures Working(row', o, j') && Resumed(row, row') && row'.caps == row.caps && KeepsDone(row, row')
    ensures ok ==> Roles(row'.caps, cap).Within(row'.cleanup.value.deleted)
  {
    ok, row', j' := true, row, j;
    var p := row.cleanup.value;
    if !Roles(row.caps, cap).Within(p.deleted) {
      ok := *;
      if ok {
        DeleteStep(o, StageOf(row), cap);
        Journalled(o, StageOf(row), Deleted(StageOf(row), cap), j, Delete(cap));
        row' := row.(cleanup := Some(p.(deleted := p.deleted.Or(Roles(row.caps, cap)))));
        j' := j + [Delete(cap)];
      }
    }
  }

  function ClearRoles(row: Row, cap: nat): Row
    requires row.cleanup.Some?
  {
    var m, p := Roles(row.caps, cap), row.cleanup.value;
    row.(caps := Without(row.caps, cap),
         aliasAt := if m.alias then 0 else row.aliasAt,
         cleanup := Some(p.(unmapped := p.unmapped.AndNot(m), deleted := p.deleted.AndNot(m))))
  }

  method RecycleCap(row: Row, cap: nat, ghost o: Caps, ghost j: seq<Op>)
    returns (ok: bool, row': Row, ghost j': seq<Op>)
    requires Working(row, o, j) && Present(row.caps, cap) && cap != row.backing
    requires Roles(row.caps, cap).Within(row.cleanup.value.deleted)
    ensures Working(row', o, j') && Resumed(row, row') && KeepsDone(row, row')
    ensures ok ==> !Present(row'.caps, cap)
  {
    ok, row', j' := *, row, j;
    if ok {
      RecycleStep(o, StageOf(row), cap);
      Journalled(o, StageOf(row), Recycled(StageOf(row), cap), j, Recycle(cap));
      row', j' := ClearRoles(row, cap), j + [Recycle(cap)];
      RecycleKeepsDone(StageOf(row), cap);
    }
  }

  lemma RecycleKeepsDone(s: Stage, cap: nat)
    ensures forall c :: CapDone(s, c) ==> CapDone(Recycled(s, cap), c)
  {
  }

  /** One capability's share of a cleanup: unmap, and unless it is the owned backing delete and recycle. */
  method CleanCap(row: Row, cap: nat, ghost o: Caps, ghost j: seq<Op>) returns (ok: bool, row': Row, ghost j': seq<Op>)
    requires Working(row, o, j)
    ensures Working(row', o, j') && Resumed(row, row') && KeepsDone(row, row')
    ensures ok ==> CapDone(StageOf(row'), cap)
  {
    ok, row', j' := true, row, j;
    if Roles(row.caps, cap).Empty() {
      return;
    }
    ok, row', j' := UnmapCap(row, cap, o, j);
    if !ok || cap == row.backing {
      return;
    }
    ok, row', j' := DeleteCap(row', cap, o, j');
    if !ok {
      return;
    }
    ok, row', j' := RecycleCap(row', cap, o, j');
  }

  /** Clean every capability of a row, then revoke its owned backing. A failed attempt leaves the row ready
      to be resumed. */
  method CleanupRow(row: Row, ghost o: Caps, ghost j: seq<Op>) returns (ok: bool, row': Row, ghost j': seq<Op>)
    requires row.cleanup.Some? && RowOk(row, o, j)
    ensures RowOk(row', o, j') && Resumed(row, row')
    ensures ok ==> row'.cleanup.value.complete
  {
    ok, row', j' := true, row, j;
    if row.cleanup.value.complete {
      return;
    }
    var caps := if !row.ownsFrame && row.caps.alias == 0 then [row.caps.source, row.caps.frame, 0]
                else [row.caps.frame, row.caps.alias, row.caps.source];
    var i := 0;
    while i < 3
      invariant 0 <= i <= 3
      invariant Working(row', o, j') && Resumed(row, row')
      invariant DoneTo(row', caps, i)
    {
      ghost var was := row';
      ok, row', j' := CleanCap(row', caps[i], o, j');
      if !ok {
        return;
      }
      DoneMore(was, row', caps, i);
      i := i + 1;
    }
    CoveredAll(row, row', caps);
    ok, row', j' := RevokeAndFinish(row', o, j');
  }

  /** The first `n` of the capabilities are done. */
  ghost predicate DoneTo(row: Row, caps: seq<nat>, n: nat) {
    n <= |caps| && forall k {:trigger CapDone(StageOf(row), caps[k])} :: 0 <= k < n ==> CapDone(StageOf(row), caps[k])
  }

  lemma DoneMore(row: Row, row': Row, caps: seq<nat>, n: nat)
    requires n < |caps| && DoneTo(row, caps, n) && KeepsDone(row, row') && CapDone(StageOf(row'), caps[n])
    ensures DoneTo(row', caps, n + 1)
  {
  }

  lemma CoveredAll(row: Row, row': Row, caps: seq<nat>)
    requires |caps| == 3 && Shrunk(row.caps, row'.caps)
    requires row.caps.frame in caps && (row.caps.alias in caps || row.caps.alias == 0) && row.caps.source in caps
    requires DoneTo(row', caps, 3)
    ensures AllDone(StageOf(row'))
  {
    forall c | c in caps ensures CapDone(StageOf(row'), c) {
      var k :| 0 <= k < 3 && caps[k] == c;
      assert CapDone(StageOf(row'), caps[k]);
    }
    assert CapDone(StageOf(row'), 0);
  }

  method RevokeAndFinish(row: Row, ghost o: Caps, ghost j: seq<Op>) returns (ok: bool, row': Row, ghost j': seq<Op>)
    requires Working(row, o, j) && AllDone(StageOf(row)) && row.ownsFrame == (row.backing != 0)
    ensures RowOk(row', o, j') && Resumed(row, row')
    ensures ok ==> row'.cleanup.value.complete
  {
    ok, row', j' := true, row, j;
    if row.backing != 0 && !row.cleanup.value.revoked {
      ok := *;
      if !ok {
        return;
      }
      RevokeStep(o, StageOf(row));
      Journalled(o, StageOf(row), StageOf(row).(revoked := true), j, Revoke(row.backing));
      row', j' := row.(cleanup := Some(row.cleanup.value.(revoked := true))), j + [Revoke(row.backing)];
    }
    row' := row'.(cleanup := Some(row'.cleanup.value.(complete := true)));
  }

  /** A completed row whose backing, if owned, is then published has run its full course. */
  lemma CommitCompletes(row: Row, o: Caps, j: seq<Op>)
    requires RowOk(row, o, j) && row.cleanup.Some? && row.cleanup.value.complete
    ensures Completed(row, o, if row.ownsFrame then j + [Publish(row.backing)] else j)
  {
    var j' := if row.ownsFrame then j + [Publish(row.backing)] else j;
    forall cap | cap != 0 ensures On(j', cap) == FullCourse(row, o, cap) {
      FinishedCalls(o, StageOf(row), j, cap);
      OnAppend(j, Publish(row.backing), cap);
    }
  }

  /** The row with the capabilities it lacked filled in. */
  function Gained(row: Row, caps: Caps, aliasAt: nat, age: nat): Row {
    row.(caps := Caps(row.caps.frame, if row.caps.alias == 0 then caps.alias else row.caps.alias,
                      if row.caps.source == 0 then caps.source else row.caps.source),
         aliasAt := if row.aliasAt == 0 then aliasAt else row.aliasAt,
         age := age)
  }

  // ----- the registry -----

  predicate ValidLifetime(l: Lifetime) {
    match l
    case Process(identity) => identity != 0
    case UnpublishedImage(token) => token != 0
  }

  /** The capabilities a row named before reclamation, and the calls made on its behalf. */
  datatype Book = Book(caps: Caps, calls: seq<Op>)

  ghost predicate BookedIn(books: map<nat, Book>, row: Row) {
    row.id in books && RowOk(row, books[row.id].caps, books[row.id].calls)
  }

  ghost predicate AllBooked(records: seq<Row>, books: map<nat, Book>) {
    forall i {:trigger BookedIn(books, records[i])} :: 0 <= i < |records| ==> BookedIn(books, records[i])
  }

  predicate OtherId(a: Row, b: Row) {
    a.id != b.id
  }

  ghost predicate DistinctIds(records: seq<Row>) {
    forall i, j {:trigger OtherId(records[i], records[j])} :: 0 <= i < j < |records| ==> OtherId(records[i], records[j])
  }

  ghost predicate BooksBelow(books: map<nat, Book>, nextId: nat) {
    forall id :: id in books ==> id < nextId
  }

  /** Every row has its book, no two rows share an identity, none is reused, and the rows under reclamation
      are counted. */
  ghost predicate RegistryOk(records: seq<Row>, books: map<nat, Book>, nextId: nat, reclaiming: nat) {
    && AllBooked(records, books) && DistinctIds(records) && BooksBelow(books, nextId)
    && reclaiming == CountOf(records, Kind.Reclaiming)
  }

  lemma RowPushed(records: seq<Row>, books: map<nat, Book>, nextId: nat, reclaiming: nat, row: Row)
    requires RegistryOk(records, books, nextId, reclaiming) && row.id == nextId && row.cleanup.None? && !row.transfer
    requires RowOk(row, row.caps, [])
    ensures RegistryOk(records + [row], books[row.id := Book(row.caps, [])], nextId + 1, reclaiming)
  {
    var records', books' := records + [row], books[row.id := Book(row.caps, [])];
    assert records'[..|records|] == records;
    forall i | 0 <= i < |records'| ensures BookedIn(books', records'[i]) {
      assert i < |records| ==> BookedIn(books, records[i]);
    }
    forall i, j | 0 <= i < j < |records'| ensures OtherId(records'[i], records'[j]) {
      assert BookedIn(books, records[i]);
      assert j < |records| ==> OtherId(records[i], records[j]);
    }
  }

  lemma RowStored(records: seq<Row>, books: map<nat, Book>, nextId: nat, reclaiming: nat, index: nat, row: Row,
                  book: Book, reclaiming': nat)
    requires RegistryOk(records, books, nextId, reclaiming) && index < |records| && row.id == records[index].id
    requires RowOk(row, book.caps, book.calls)
    requires reclaiming' + Belongs(records[index], Kind.Reclaiming) == reclaiming + Belongs(row, Kind.Reclaiming)
    ensures RegistryOk(records[index := row], books[row.id := book], nextId, reclaiming')
  {
    var records', books' := records[index := row], books[row.id := book];
    CountUpdate(records, index, row, Kind.Reclaiming);
    assert BookedIn(books, records[index]);
    forall i | 0 <= i < |records'| ensures BookedIn(books', records'[i]) {
      assert BookedIn(books, records[i]);
      assert i < index ==> OtherId(records[i], records[index]);
      assert index < i ==> OtherId(records[index], records[i]);
    }
    forall i, j | 0 <= i < j < |records'| ensures OtherId(records'[i], records'[j]) {
      assert OtherId(records[i], records[j]);
    }
  }

  lemma RowRemoved(records: seq<Row>, books: map<nat, Book>, nextId: nat, reclaiming: nat, index: nat, book: Book)
    requires RegistryOk(records, books, nextId, reclaiming) && index < |records|
    requires Belongs(records[index], Kind.Reclaiming) == 1
    ensures reclaiming > 0
    ensures RegistryOk(SwapRemove(records, index), books[records[index].id := book], nextId, reclaiming - 1)
  {
    var records', books' := SwapRemove(records, index), books[records[index].id := book];
    CountSwapRemove(records, index, Kind.Reclaiming);
    assert BookedIn(books, records[index]);
    forall i | 0 <= i < |records'| ensures BookedIn(books', records'[i]) {
      var k := if i == index then |records| - 1 else i;
      assert records'[i] == records[k] && BookedIn(books, records[k]);
      assert k < index ==> OtherId(records[k], records[index]);
      assert index < k ==> OtherId(records[index], records[k]);
    }
    forall i, j | 0 <= i < j < |records'| ensures OtherId(records'[i], records'[j]) {
      assert OtherId(records[i], records[j]);
      assert i == index ==> OtherId(records[j], records[|records| - 1]);
      assert j == index ==> OtherId(records[i], records[|records| - 1]);
    }
  }

  /** Only the book of `id` may differ. */
  ghost predicate BooksKept(books: map<nat, Book>, books': map<nat, Book>, id: nat) {
    forall i :: i in books && i != id ==> i in books' && books'[i] == books[i]
  }

  /** Every capability of a removed row went through its full course of calls exactly once. */
  ghost predicate Finished(books: map<nat, Book>, row: Row) {
    row.id in books && Completed(row, books[row.id].caps, books[row.id].calls)
  }

  /** A row that was retired: it matched, its page was not locked, and its calls are complete. */
  ghost predicate Retired(books: map<nat, Book>, row: Row, pi: nat, lifetime: Lifetime, locked: set<(nat, nat)>) {
    row.pi == pi && row.lifetime == lifetime && (pi, row.page) !in locked && Finished(books, row)
  }

  /** Every row of `removed` was retired and none of them is still in `records`. */
  ghost predicate AllRetired(books: map<nat, Book>, records: seq<Row>, removed: seq<Row>,
                             pi: nat, lifetime: Lifetime, locked: set<(nat, nat)>) {
    && (forall k {:trigger Retired(books, removed[k], pi, lifetime, locked)} ::
          0 <= k < |removed| ==> Retired(books, removed[k], pi, lifetime, locked))
    && (forall k, i {:trigger OtherId(removed[k], records[i])} ::
          0 <= k < |removed| && 0 <= i < |records| ==> OtherId(removed[k], records[i]))
  }

  lemma RetiredMore(books: map<nat, Book>, books': map<nat, Book>, records: seq<Row>, removed: seq<Row>, index: nat,
                    pi: nat, lifetime: Lifetime, locked: set<(nat, nat)>)
    requires AllRetired(books, records, removed, pi, lifetime, locked) && DistinctIds(records) && index < |records|
    requires BooksKept(books, books', records[index].id) && Retired(books', records[index], pi, lifetime, locked)
    ensures AllRetired(books', SwapRemove(records, index), removed + [records[index]], pi, lifetime, locked)
  {
    var records', removed' := SwapRemove(records, index), removed + [records[index]];
    forall k | 0 <= k < |removed'| ensures Retired(books', removed'[k], pi, lifetime, locked) {
      assert k < |removed| ==> Retired(books, removed[k], pi, lifetime, locked) && OtherId(removed[k], records[index]);
    }
    forall k, i | 0 <= k < |removed'| && 0 <= i < |records'| ensures OtherId(removed'[k], records'[i]) {
      var j := if i == index then |records| - 1 else i;
      assert records'[i] == records[j];
      assert k < |removed| ==> OtherId(removed[k], records[j]);
      assert j < index ==> OtherId(records[j], records[index]);
      assert index < j ==> OtherId(records[index], records[j]);
    }
  }

  lemma RetiredStays(books: map<nat, Book>, books': map<nat, Book>, records: seq<Row>, row: Row, removed: seq<Row>,
                     index: nat,
                     pi: nat, lifetime: Lifetime, locked: set<(nat, nat)>)
    requires AllRetired(books, records, removed, pi, lifetime, locked) && index < |records|
    requires BooksKept(books, books', records[index].id) && row.id == records[index].id
    ensures AllRetired(books', records[index := row], removed, pi, lifetime, locked)
  {
    var records' := records[index := row];
    forall k | 0 <= k < |removed| ensures Retired(books', removed[k], pi, lifetime, locked) {
      assert Retired(books, removed[k], pi, lifetime, locked) && OtherId(removed[k], records[index]);
    }
    forall k, i | 0 <= k < |removed| && 0 <= i < |records'| ensures OtherId(removed[k], records'[i]) {
      assert OtherId(removed[k], records[i]);
    }
  }

  // ----- inserting -----

  datatype InsertError =
    | InvalidRecord | ConflictingLifetime | UnderReclaim | ConflictingFrame | ConflictingOwnership
    | ConflictingAlias | ConflictingSource | AllocationFailed | IdentityExhausted

  datatype InsertResult = Inserted(grew: bool) | Updated | Refused(error: InsertError)

  /** What a caller asks to be recorded for a page. */
  datatype Entry = Entry(lifetime: Lifetime, caps: Caps, aliasAt: nat, ownsFrame: bool, backing: nat)

  /** No row could hold it. */
  predicate Senseless(e: Entry) {
    !ValidLifetime(e.lifetime) || e.caps.frame == 0 || (e.aliasAt != 0 && e.caps.alias == 0)
    || e.ownsFrame != (e.backing != 0)
  }

  /** Given twice, and not the same; zero stands for not given. */
  predicate Clash(x: nat, y: nat) {
    x != 0 && y != 0 && x != y
  }

  /** The row of a page and what is asked for it disagree in the way the error names. */
  predicate Disagree(error: InsertError, row: Row, e: Entry) {
    match error
    case ConflictingLifetime => row.lifetime != e.lifetime
    case UnderReclaim => row.cleanup.Some? || row.transfer
    case ConflictingFrame => row.caps.frame != e.caps.frame
    case ConflictingOwnership => row.ownsFrame != e.ownsFrame || row.backing != e.backing
    case ConflictingAlias => Clash(row.caps.alias, e.caps.alias) || Clash(row.aliasAt, e.aliasAt)
    case ConflictingSource => Clash(row.caps.source, e.caps.source)
    case _ => false
  }

  /** The order in which disagreements are looked for. */
  function Rank(error: InsertError): nat {
    match error
    case ConflictingLifetime => 0
    case UnderReclaim => 1
    case ConflictingFrame => 2
    case ConflictingOwnership => 3
    case ConflictingAlias => 4
    case ConflictingSource => 5
    case _ => 6
  }

  /** The first disagreement is the one reported, and there is none exactly when the row was updated. */
  ghost predicate Judged(r: InsertResult, row: Row, e: Entry) {
    && (r == Updated || (r.Refused? && Disagree(r.error, row, e)))
    && forall error {:trigger Disagree(error, row, e)} ::
         r == Updated || Rank(error) < Rank(r.error) ==> !Disagree(error, row, e)
  }

  method Judge(row: Row, e: Entry) returns (r: InsertResult)
    ensures Judged(r, row, e)
  {
    if row.lifetime != e.lifetime {
      return Refused(ConflictingLifetime);
    }
    if row.cleanup.Some? || row.transfer {
      return Refused(UnderReclaim);
    }
    if row.caps.frame != e.caps.frame {
      return Refused(ConflictingFrame);
    }
    if row.ownsFrame != e.ownsFrame || row.backing != e.backing {
      return Refused(ConflictingOwnership);
    }
    if (e.caps.alias != 0 && row.caps.alias != 0 && e.caps.alias != row.caps.alias)
       || (e.aliasAt != 0 && row.aliasAt != 0 && e.aliasAt != row.aliasAt) {
      return Refused(ConflictingAlias);
    }
    if e.caps.source != 0 && row.caps.source != 0 && e.caps.source != row.caps.source {
      return Refused(ConflictingSource);
    }
    return Updated;
  }

  lemma Agreeing(row: Row, e: Entry)
    requires Judged(Updated, row, e)
    ensures row.cleanup.None? && !row.transfer && row.caps.frame == e.caps.frame && row.backing == e.backing
    ensures !Clash(row.caps.alias, e.caps.alias) && !Clash(row.caps.source, e.caps.source)
  {
    assert !Disagree(UnderReclaim, row, e) && !Disagree(ConflictingFrame, row, e);
    assert !Disagree(ConflictingOwnership, row, e) && !Disagree(ConflictingAlias, row, e);
    assert !Disagree(ConflictingSource, row, e);
  }

  /** How often each refusal but a conflicting lifetime was given, and how often the records grew. */
  datatype Statistics = Statistics(
    invalid: nat, reclaim: nat, frame: nat, ownership: nat, alias: nat, source: nat, allocation: nat,
    identity: nat, growths: nat)

  function OneMore(n: nat): nat {
    Min(n + 1, U64_MAX)
  }

  function Counted(s: Statistics, r: InsertResult): Statistics {
    match r
    case Inserted(grew) => if grew then s.(growths := OneMore(s.growths)) else s
    case Updated => s
    case Refused(error) =>
      match error
      case InvalidRecord => s.(invalid := OneMore(s.invalid))
      case ConflictingLifetime => s
      case UnderReclaim => s.(reclaim := OneMore(s.reclaim))
      case ConflictingFrame => s.(frame := OneMore(s.frame))
      case ConflictingOwnership => s.(ownership := OneMore(s.ownership))
      case ConflictingAlias => s.(alias := OneMore(s.alias))
      case ConflictingSource => s.(source := OneMore(s.source))
      case AllocationFailed => s.(allocation := OneMore(s.allocation))
      case IdentityExhausted => s.(identity := OneMore(s.identity))
  }

  predicate IsFor(row: Row, pi: nat, page: nat) {
    row.pi == pi && row.page == page
  }

  function NewRow(id: nat, pi: nat, page: nat, e: Entry, age: nat): Row {
    Row(id, pi, e.lifetime, page, e.caps, e.aliasAt, e.ownsFrame, e.backing, age, None, false)
  }

  class Registry {
    var records: seq<Row>
    var reclaiming: nat
    /** The next record identity; identities are never reused. */
    var nextId: nat
    /** The age the next touched row gets. */
    var nextAge: nat
    var highWater: nat
    var statistics: Statistics
    ghost var books: map<nat, Book>

    ghost predicate Valid()
      reads `records, `reclaiming, `nextId, `books
    {
      RegistryOk(records, books, nextId, reclaiming)
    }

    constructor ()
      ensures Valid() && records == []
    {
      records, reclaiming, nextId, books := [], 0, 1, map[];
      nextAge, highWater, statistics := 1, 0, Statistics(0, 0, 0, 0, 0, 0, 0, 0, 0);
    }

    /** The row of a page, if there is one. */
    method IndexFor(pi: nat, page: nat) returns (index: Option<nat>)
      ensures index.Some? ==>
                index.value < |records| && records[index.value].pi == pi && records[index.value].page == page
      ensures index.None? ==> forall k :: 0 <= k < |records| ==> records[k].pi != pi || records[k].page != page
    {
      var i := 0;
      while i < |records|
        invariant 0 <= i <= |records|
        invariant forall k :: 0 <= k < i ==> records[k].pi != pi || records[k].page != page
      {
        if records[i].pi == pi && records[i].page == page {
          return Some(i);
        }
        i := i + 1;
      }
      return None;
    }

    /** A new page gets a row with a fresh identity; a known one only gains capabilities it lacked. The first
        disagreement with a known row is the refusal given; whatever is refused changes nothing but the one
        counter of its kind. */
    method Insert(pi: nat, page: nat, e: Entry, age: nat) returns (r: InsertResult)
      requires Valid()
      modifies this
      ensures Valid() && statistics == Counted(old(statistics), r)
      ensures r.Refused? ==>
                && records == old(records) && nextId == old(nextId)
                && nextAge == old(nextAge) && highWater == old(highWater)
      ensures !r.Refused? ==> nextAge == Max(old(nextAge), OneMore(age))
      ensures r.Inserted? ==>
                && records == old(records) + [NewRow(old(nextId), pi, page, e, age)] && old(nextId) !in old(books)
                && nextId == old(nextId) + 1 && highWater == Max(old(highWater), |records|)
      ensures Senseless(e) ==> r == Refused(InvalidRecord)
      ensures !Senseless(e) && (exists k :: 0 <= k < |old(records)| && IsFor(old(records)[k], pi, page)) ==>
                exists k :: 0 <= k < |old(records)| && IsFor(old(records)[k], pi, page) && Judged(r, old(records)[k], e)
                  && (r == Updated ==> records == old(records)[k := Gained(old(records)[k], e.caps, e.aliasAt, age)])
      ensures !Senseless(e) && (forall k :: 0 <= k < |old(records)| ==> !IsFor(old(records)[k], pi, page)) ==>
                if e.ownsFrame && !Present(e.caps, e.backing) then r == Refused(InvalidRecord)
                else
                  || r.Inserted? || r == Refused(AllocationFailed)
                  || (r == Refused(IdentityExhausted) && old(nextId) >= U64_MAX)
    {
      if Senseless(e) {
        statistics := statistics.(invalid := OneMore(statistics.invalid));
        return Refused(InvalidRecord);
      }
      var found := IndexFor(pi, page);
      if found.Some? {
        r := Update(found.value, e, age);
        assert IsFor(old(records)[found.value], pi, page);
        return;
      }
      r := InsertNew(pi, page, e, age);
    }

    method InsertNew(pi: nat, page: nat, e: Entry, age: nat) returns (r: InsertResult)
      requires Valid() && !Senseless(e)
      modifies this
      ensures Valid() && statistics == Counted(old(statistics), r)
      ensures r.Refused? ==>
                && records == old(records) && nextId == old(nextId)
                && nextAge == old(nextAge) && highWater == old(highWater)
      ensures r.Inserted? ==>
                && records == old(records) + [NewRow(old(nextId), pi, page, e, age)] && old(nextId) !in old(books)
                && nextId == old(nextId) + 1 && highWater == Max(old(highWater), |records|)
                && nextAge == Max(old(nextAge), OneMore(age))
      ensures if e.ownsFrame && !Present(e.caps, e.backing) then r == Refused(InvalidRecord)
              else
                || r.Inserted? || r == Refused(AllocationFailed)
                || (r == Refused(IdentityExhausted) && old(nextId) >= U64_MAX)
    {
      r := Admit(e);
      statistics := Counted(statistics, r);
      if r.Inserted? {
        Push(NewRow(nextId, pi, page, e, age));
        nextAge, highWater := Max(nextAge, OneMore(age)), Max(highWater, |records|);
      }
    }

    /** Whether a row can be had for a page that has none. */
    method Admit(e: Entry) returns (r: InsertResult)
      ensures if e.ownsFrame && !Present(e.caps, e.backing) then r == Refused(InvalidRecord)
              else if r.Inserted? then nextId < U64_MAX
              else r == Refused(AllocationFailed) || (r == Refused(IdentityExhausted) && nextId >= U64_MAX)
    {
      if e.ownsFrame && !Present(e.caps, e.backing) {
        return Refused(InvalidRecord);
      }
      var reserved: bool, grew: bool := *, *;
      if !reserved {
        return Refused(AllocationFailed);
      }
      return if nextId >= U64_MAX then Refused(IdentityExhausted) else Inserted(grew);
    }

    method Push(row: Row)
      requires Valid() && row.id == nextId && row.cleanup.None? && !row.transfer
      requires row.ownsFrame == (row.backing != 0) && (row.ownsFrame ==> Present(row.caps, row.backing))
      modifies this`records, this`nextId, this`books
      ensures Valid() && records == old(records) + [row] && nextId == old(nextId) + 1 && old(nextId) !in old(books)
    {
      RowPushed(records, books, nextId, reclaiming, row);
      books := books[row.id := Book(row.caps, [])];
      records, nextId := records + [row], nextId + 1;
    }

    /** Every disagreement is looked for before anything changes. */
    method Update(index: nat, e: Entry, age: nat) returns (r: InsertResult)
      requires Valid() && index < |records|
      modifies this`records, this`books, this`nextAge, this`statistics
      ensures Valid() && Judged(r, old(records)[index], e) && statistics == Counted(old(statistics), r)
      ensures r.Refused? ==> records == old(records) && nextAge == old(nextAge)
      ensures r == Updated ==> records == old(records)[index := Gained(old(records)[index], e.caps, e.aliasAt, age)]
      ensures r == Updated ==> nextAge == Max(old(nextAge), OneMore(age))
    {
      var row := records[index];
      r := Judge(row, e);
      statistics := Counted(statistics, r);
      if r.Refused? {
        return;
      }
      Agreeing(row, e);
      assert BookedIn(books, row);
      Replace(index, Gained(row, e.caps, e.aliasAt, age));
      nextAge := Max(nextAge, OneMore(age));
    }

    method Replace(index: nat, row: Row)
      requires Valid() && index < |records| && SameRow(records[index], row)
      requires records[index].cleanup.None? && row.cleanup.None? && (row.ownsFrame ==> Present(row.caps, row.backing))
      modifies this`records, this`books
      ensures Valid() && records == old(records)[index := row]
    {
      assert BookedIn(books, records[index]);
      RowStored(records, books, nextId, reclaiming, index, row, Book(row.caps, []), reclaiming);
      books := books[row.id := Book(row.caps, [])];
      records := records[index := row];
    }

    /** Only row `index` and its own book may differ from before. */
    twostate predicate OnlyAt(index: nat)
      reads this
    {
      && index < |old(records)| == |records|
      && SameRow(old(records)[index], records[index])
      && (forall k :: 0 <= k < |records| && k != index ==> records[k] == old(records)[k])
      && BooksKept(old(books), books, records[index].id)
    }

    method Store(index: nat, row: Row, ghost calls: seq<Op>)
      requires Valid() && index < |records| && SameRow(records[index], row)
      requires BookedIn(books, records[index]) && RowOk(row, books[records[index].id].caps, calls)
      requires records[index].cleanup.Some? ==> row.cleanup.Some?
      modifies this`records, this`reclaiming, this`books
      ensures Valid() && OnlyAt(index) && records == old(records)[index := row]
      ensures books == old(books)[row.id := Book(old(books)[row.id].caps, calls)]
    {
      ghost var before, book := reclaiming, Book(books[row.id].caps, calls);
      if records[index].cleanup.None? && !records[index].transfer && row.cleanup.Some? {
        reclaiming := reclaiming + 1;
      }
      RowStored(records, books, nextId, before, index, row, book, reclaiming);
      records := records[index := row];
      books := books[row.id := book];
    }

    method CancelPageout(index: nat, expected: Row) returns (r: Result<Row>)
      requires Valid()
      modifies this`records, this`reclaiming, this`books
      ensures Valid() && (index < |old(records)| ==> OnlyAt(index)) && (r.Err? ==> records == old(records))
      ensures r.Ok? ==> index < |records| && records[index] == r.value && r.value.cleanup.Some? && !r.value.transfer
      ensures r.Ok? ==> r.value.cleanup.value.intent.Release?
    {
      if index >= |records| || records[index] != expected || expected.transfer || expected.cleanup.None?
         || !expected.cleanup.value.intent.Pageout? {
        return Err(InvalidParameter);
      }
      assert BookedIn(books, records[index]);
      var row := expected.(cleanup := Some(expected.cleanup.value.(intent := Release)));
      Store(index, row, books[row.id].calls);
      return Ok(row);
    }

    method BeginReclaim(index: nat, expected: Row, intent: Intent) returns (r: Result<Row>)
      requires Valid()
      modifies this`records, this`reclaiming, this`books
      ensures Valid() && (index < |old(records)| ==> OnlyAt(index)) && (r.Err? ==> records == old(records))
      ensures r.Ok? ==> index < |records| && records[index] == r.value && r.value.cleanup.Some? && !r.value.transfer
      ensures r.Ok? ==> r.value.cleanup.value.intent == intent
    {
      if index >= |records| || records[index] != expected || expected.transfer {
        return Err(InvalidParameter);
      }
      if expected.cleanup.Some? {
        return if expected.cleanup.value.intent == intent then Ok(expected) else Err(InvalidParameter);
      }
      if intent.Pageout? && !expected.ownsFrame {
        return Err(InvalidParameter);
      }
      var row := expected.(cleanup := Some(Progress(intent, NONE, NONE, false, false)));
      assert BookedIn(books, expected);
      Untouched(expected.caps, StageOf(row));
      Store(index, row, books[row.id].calls);
      return Ok(row);
    }

    /** Cleanup of the row in place; a failure keeps the calls already acknowledged. */
    method Cleanup(index: nat, expected: Row, intent: Intent) returns (r: Result<Row>)
      requires Valid()
      modifies this`records, this`reclaiming, this`books
      ensures Valid() && (index < |old(records)| ==> OnlyAt(index))
      ensures index >= |old(records)| ==> records == old(records)
      ensures r.Ok? ==> index < |records| && records[index] == r.value && !r.value.transfer
      ensures r.Ok? ==> r.value.cleanup.Some? && r.value.cleanup.value.intent == intent
      ensures r.Ok? ==> r.value.cleanup.value.complete
    {
      if index >= |records| || records[index] != expected || expected.transfer || expected.cleanup.None?
         || expected.cleanup.value.intent != intent {
        return Err(InvalidParameter);
      }
      assert BookedIn(books, expected);
      ghost var book := books[expected.id];
      ghost var calls;
      var ok, row;
      ok, row, calls := CleanupRow(expected, book.caps, book.calls);
      Store(index, row, calls);
      if !ok {
        var status: Status := *;
        return Err(status);
      }
      return Ok(row);
    }

    /** Publish the owned backing of a cleaned row and remove the row. */
    method Commit(index: nat, expected: Row, intent: Intent) returns (r: Result<()>)
      requires Valid()
      modifies this`records, this`reclaiming, this`books
      ensures Valid()
      ensures r.Err? ==> records == old(records) && books == old(books)
      ensures r.Ok? ==> index < |old(records)| && records == SwapRemove(old(records), index)
      ensures r.Ok? ==> old(records)[index] == expected && Finished(books, expected)
      ensures BooksKept(old(books), books, expected.id)
    {
      if index >= |records| || records[index] != expected || expected.transfer || expected.cleanup.None?
         || expected.cleanup.value.intent != intent || !expected.cleanup.value.complete {
        return Err(InvalidParameter);
      }
      if expected.ownsFrame {
        var published: bool := *;
        if !published {
          var status: Status := *;
          return Err(status);
        }
      }
      assert BookedIn(books, records[index]);
      ghost var book := books[expected.id];
      CommitCompletes(expected, book.caps, book.calls);
      ghost var calls := if expected.ownsFrame then book.calls + [Publish(expected.backing)] else book.calls;
      Remove(index, book.(calls := calls));
      return Ok(());
    }

    /** Take a cleaned row out, closing its book. */
    method Remove(index: nat, ghost book: Book)
      requires Valid() && index < |records| && records[index].cleanup.Some?
      modifies this`records, this`reclaiming, this`books
      ensures Valid() && records == SwapRemove(old(records), index)
      ensures books == old(books)[old(records)[index].id := book]
    {
      RowRemoved(records, books, nextId, reclaiming, index, book);
      books := books[records[index].id := book];
      reclaiming := reclaiming - 1;
      records := SwapRemove(records, index);
    }

    /** Release the row at `index`: on success it is gone and its calls are complete; on failure it is still
        there, at most further along. No other row is touched. */
    method ReleaseAt(index: nat, snapshot: Row) returns (r: Result<()>)
      requires Valid() && index < |records|
      modifies this`records, this`reclaiming, this`books
      ensures Valid()
      ensures r.Ok? ==> records == SwapRemove(old(records), index) && Finished(books, old(records)[index])
      ensures r.Err? ==> |records| == |old(records)| && SameRow(old(records)[index], records[index])
      ensures r.Err? ==> records == old(records)[index := records[index]]
      ensures BooksKept(old(books), books, old(records)[index].id)
    {
      if records[index] != snapshot {
        return Err(InvalidHandle);
      }
      if snapshot.transfer {
        return Err(InsufficientResources);
      }
      var admitted: bool := *;
      if !admitted {
        var status: Status := *;
        return Err(status);
      }
      var b := OpenRelease(index, snapshot);
      if b.Err? {
        return Err(b.status);
      }
      ghost var begun := records;
      r := FinishRelease(index, b.value);
      if r.Ok? {
        assert SwapRemove(begun, index) == SwapRemove(old(records), index);
      }
    }

    /** Turn an unfinished pageout into a release, or begin one. */
    method OpenRelease(index: nat, snapshot: Row) returns (r: Result<Row>)
      requires Valid() && index < |records|
      modifies this`records, this`reclaiming, this`books
      ensures Valid() && OnlyAt(index)
      ensures r.Ok? ==> records[index] == r.value
    {
      var record := snapshot;
      if record.cleanup.Some? && record.cleanup.value.intent.Pageout? {
        var c := CancelPageout(index, record);
        if c.Err? {
          return c;
        }
        record := c.value;
      }
      r := BeginReclaim(index, record, Release);
    }

    method FinishRelease(index: nat, record: Row) returns (r: Result<()>)
      requires Valid() && index < |records| && records[index] == record
      modifies this`records, this`reclaiming, this`books
      ensures Valid()
      ensures r.Ok? ==> records == SwapRemove(old(records), index) && Finished(books, old(records)[index])
      ensures r.Err? ==> |records| == |old(records)| && SameRow(old(records)[index], records[index])
      ensures r.Err? ==> records == old(records)[index := records[index]]
      ensures BooksKept(old(books), books, old(records)[index].id)
    {
      var c := Cleanup(index, record, Release);
      if c.Err? {
        return Err(c.status);
      }
      ghost var cleaned := records;
      r := Commit(index, c.value, Release);
      if r.Ok? {
        assert SwapRemove(cleaned, index) == SwapRemove(old(records), index);
      }
    }

    /** Part-way through a retirement. */
    ghost predicate Sofar(run: Retirement)
      reads this
    {
      match run
      case Retirement(start, removed, pi, lifetime, locked) =>
        Valid() && AllRetired(books, records, removed, pi, lifetime, locked) && Accounted(start, records, removed, pi)
    }

    /** Stopped at row `at`, which was `was` before the attempt and may be further along now; nothing but
        the removed rows and this one has changed. */
    ghost predicate Stopped(run: Retirement, at: nat, was: Row)
      reads this
    {
      match run
      case Retirement(start, removed, pi, lifetime, locked) =>
        && Valid() && AllRetired(books, records, removed, pi, lifetime, locked)
        && at < |records| && SameRow(was, records[at]) && was.pi == pi
        && Accounted(start, records[at := was], removed, pi)
    }

    /** Release the row at `index` of the loop, keeping the account. */
    method RetireRow(index: nat, lifetime: Lifetime, locked: set<(nat, nat)>, ghost run: Retirement)
      returns (r: Result<()>)
      requires index < |records| && Sofar(run)
      requires run.lifetime == lifetime && run.locked == locked && run.pi == records[index].pi
      modifies this`records, this`reclaiming, this`books
      ensures r.Ok? ==> Sofar(run.Take(old(records)[index]))
      ensures r.Ok? ==> |records| == |old(records)| - 1 && forall k :: 0 <= k < index ==> records[k] == old(records)[k]
      ensures r.Err? ==> Stopped(run, index, old(records)[index])
    {
      var record := records[index];
      ghost var before, kept := records, books;
      assert before[index := record] == before;
      if record.lifetime != lifetime {
        return Err(InvalidHandle);
      }
      if (record.pi, record.page) in locked {
        return Err(InsufficientResources);
      }
      r := ReleaseAt(index, record);
      if r.Ok? {
        RetiredMore(kept, books, before, run.removed, index, run.pi, lifetime, locked);
        AccountStep(run.start, before, run.removed, index, record.pi);
      } else {
        RetiredStays(kept, books, before, records[index], run.removed, index, run.pi, lifetime, locked);
        assert records[index := record] == before;
      }
    }

    lemma StartsSofar(pi: nat, lifetime: Lifetime, locked: set<(nat, nat)>)
      requires Valid()
      ensures Sofar(Retirement(records, [], pi, lifetime, locked))
    {
    }

    /** The rows before `index` are of other processes. */
    ghost predicate PassedOver(index: nat, pi: nat)
      reads this
    {
      index <= |records| && forall k :: 0 <= k < index ==> records[k].pi != pi
    }

    /** The retirement loop. On success no row of the process is left, and the result is how many there
        were; on an error only matching, unlocked rows are gone. */
    method DropRows(pi: nat, lifetime: Lifetime, locked: set<(nat, nat)>)
      returns (r: Result<nat>, ghost run: Retirement, ghost at: nat, ghost was: Option<Row>)
      requires Valid()
      modifies this`records, this`reclaiming, this`books
      ensures run.start == old(records) && run.pi == pi && run.lifetime == lifetime && run.locked == locked
      ensures r.Ok? ==> Sofar(run) && r.value == Min(|run.removed|, U64_MAX)
      ensures r.Ok? ==> forall k :: 0 <= k < |records| ==> records[k].pi != pi
      ensures r.Err? ==> was.Some? && Stopped(run, at, was.value)
    {
      var dropped, index := 0, 0;
      run, at, was := Retirement(records, [], pi, lifetime, locked), 0, None;
      StartsSofar(pi, lifetime, locked);
      while index < |records|
        invariant run.start == old(records) && run.pi == pi && run.lifetime == lifetime && run.locked == locked
        invariant PassedOver(index, pi) && Sofar(run) && dropped == Min(|run.removed|, U64_MAX)
        decreases |records| - index
      {
        var record := records[index];
        if record.pi != pi {
          index := index + 1;
        } else {
          var released := RetireRow(index, lifetime, locked, run);
          if released.Err? {
            return Err(released.status), run, index, Some(record);
          }
          run := run.Take(record);
          dropped := Min(dropped + 1, U64_MAX);
        }
      }
      return Ok(dropped), run, at, was;
    }

    /** Retire a process: refused outright while its private pages cannot be drained. */
    method DropProcessAll(pi: nat, process: nat, locked: set<(nat, nat)>)
      returns (r: Result<nat>, ghost run: Retirement, ghost at: nat, ghost was: Option<Row>)
      requires Valid()
      modifies this`records, this`reclaiming, this`books
      ensures run.start == old(records) && run.pi == pi && run.lifetime == Process(process) && run.locked == locked
      ensures r.Ok? ==> Sofar(run) && Emptied(run, records, r.value)
      ensures r.Err? ==> if was.Some? then Stopped(run, at, was.value) else Valid() && records == old(records)
    {
      var drained: bool := *;
      if !drained {
        var status: Status := *;
        return Err(status), Retirement(records, [], pi, Process(process), locked), 0, None;
      }
      r, run, at, was := DropRows(pi, Process(process), locked);
      if r.Ok? {
        CountNone(records, pi);
      }
    }

    /** Retire a process image that was never published. */
    method DropUnpublishedProcessAll(pi: nat, lifetime: Lifetime, locked: set<(nat, nat)>)
      returns (r: Result<nat>, ghost run: Retirement, ghost at: nat, ghost was: Option<Row>)
      requires Valid()
      modifies this`records, this`reclaiming, this`books
      ensures run.start == old(records) && run.pi == pi && run.lifetime == lifetime && run.locked == locked
      ensures r.Ok? ==> Sofar(run) && Emptied(run, records, r.value)
      ensures r.Err? ==> if was.Some? then Stopped(run, at, was.value) else Valid() && records == old(records)
      ensures !(lifetime.UnpublishedImage? && lifetime.token != 0) ==> r.Err? && was.None?
    {
      if !lifetime.UnpublishedImage? || lifetime.token == 0 {
        return Err(InvalidHandle), Retirement(records, [], pi, lifetime, locked), 0, None;
      }
      r, run, at, was := DropRows(pi, lifetime, locked);
      if r.Ok? {
        CountNone(records, pi);
      }
    }
  }

  /** One call of a retirement loop: the registry it started from, the rows it has removed (each as it was
      just before), and what it was asked for. */
  datatype Retirement = Retirement(start: seq<Row>, removed: seq<Row>, pi: nat, lifetime: Lifetime,
                                   locked: set<(nat, nat)>) {
    function Take(row: Row): Retirement { this.(removed := removed + [row]) }
  }

  /** No row of the process is left and the result is how many there were. */
  ghost predicate Emptied(run: Retirement, now: seq<Row>, count: nat) {
    && (forall k :: 0 <= k < |now| ==> now[k].pi != run.pi)
    && |run.removed| == CountOf(run.start, OfProcess(run.pi))
    && count == Min(|run.removed|, U64_MAX)
  }

  /** `start` is `now` and the rows removed since, which are all of one process. */
  ghost predicate Accounted(start: seq<Row>, now: seq<Row>, removed: seq<Row>, pi: nat) {
    && multiset(start) == multiset(now) + multiset(removed)
    && CountOf(start, OfProcess(pi)) == CountOf(now, OfProcess(pi)) + |removed|
    && forall k :: 0 <= k < |removed| ==> removed[k].pi == pi
  }

  lemma AccountStep(start: seq<Row>, now: seq<Row>, removed: seq<Row>, index: nat, pi: nat)
    requires Accounted(start, now, removed, pi) && index < |now| && now[index].pi == pi
    ensures Accounted(start, SwapRemove(now, index), removed + [now[index]], pi)
  {
    SwapRemoveMultiset(now, index);
    CountSwapRemove(now, index, OfProcess(pi));
  }

  /** The rows of every other process are the same before and after. */
  lemma OthersKept(start: seq<Row>, now: seq<Row>, removed: seq<Row>, pi: nat, row: Row)
    requires Accounted(start, now, removed, pi) && row.pi != pi
    ensures multiset(start)[row] == multiset(now)[row]
  {
    assert row !in removed;
    assert multiset(removed)[row] == 0;
  }

  lemma Untouched(o: Caps, s: Stage)
    requires s.caps == o && s.unmapped == NONE && s.deleted == NONE && !s.revoked && Steady(o, s)
    ensures Tracked(o, s, [])
  {
  }
}
