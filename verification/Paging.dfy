/** Following a paged listing by its cursor while records keep arriving
    (internal/application/decisions/page.go). */
module Paging {
  import opened DecisionLog

  ghost predicate Retained(h: seq<Record>, capacity: nat, k: int) {
    Oldest(h, capacity) <= k < |h|
  }

  /** The retained records a query may return. */
  function Candidates(h: seq<Record>, capacity: nat, q: Query): seq<Record> {
    Newest(h, Oldest(h, capacity), |h|, q)
  }

  lemma PageFacts(h: seq<Record>, capacity: nat, q: Query)
    requires Numbered(h) && q.limit > 0
    ensures var p, all := PageOf(h, capacity, q), Candidates(h, capacity, q);
      && Descending(all) && p.records == Take(all, q.limit)
      && (p.next != 0 <==> |all| > q.limit)
      && (p.next != 0 ==> p.next == p.records[q.limit - 1].seqNo && p.next > 0)
  {
    var all := Candidates(h, capacity, q);
    NewestDescending(h, Oldest(h, capacity), |h|, q);
    if |all| > q.limit {
      assert Take(all, q.limit + 1)[..q.limit] == all[..q.limit];
      var r := all[q.limit - 1];
      assert r in all;
      NewestMembers(h, Oldest(h, capacity), |h|, q, r);
    }
  }

  ghost predicate OlderMatch(h: seq<Record>, capacity: nat, q: Query, k: int) {
    && Retained(h, capacity, k) && Matches(q, h[k])
    && (forall r :: r in PageOf(h, capacity, q).records ==> h[k].seqNo < r.seqNo)
  }

  /** Next is non-zero exactly when a retained match is older than everything returned. */
  lemma NextIffOlderMatch(h: seq<Record>, capacity: nat, q: Query)
    requires Numbered(h) && q.limit > 0
    ensures PageOf(h, capacity, q).next != 0 <==> exists k :: OlderMatch(h, capacity, q, k)
  {
    PageFacts(h, capacity, q);
    var p, all, lo := PageOf(h, capacity, q), Candidates(h, capacity, q), Oldest(h, capacity);
    if |all| > q.limit {
      var r := all[q.limit];
      assert r in all;
      NewestMembers(h, lo, |h|, q, r);
      var k :| lo <= k < |h| && h[k] == r;
      assert OlderMatch(h, capacity, q, k);
    }
    if k :| OlderMatch(h, capacity, q, k) {
      NewestMembers(h, lo, |h|, q, h[k]);
      assert h[k] in all;
    }
  }

  /** Within one page sequence numbers strictly fall. */
  lemma PageDescends(h: seq<Record>, capacity: nat, q: Query)
    requires Numbered(h)
    ensures Descending(PageOf(h, capacity, q).records)
  {
    NewestDescending(h, Oldest(h, capacity), |h|, q);
  }

  /** The query of page i: the cursor is the previous page's Next. */
  ghost function QueryAt(hs: seq<seq<Record>>, capacity: nat, q: Query, i: nat): Query
    requires i < |hs|
    decreases i, 0
  {
    if i == 0 then q.(before := 0) else q.(before := PageAt(hs, capacity, q, i - 1).next)
  }

  /** Page i is read from snapshot hs[i]. */
  ghost function PageAt(hs: seq<seq<Record>>, capacity: nat, q: Query, i: nat): Page
    requires i < |hs|
    decreases i, 1
  {
    PageOf(hs[i], capacity, QueryAt(hs, capacity, q, i))
  }

  /** Snapshots of one log, each with any number of records added since the last. */
  ghost predicate Growing(hs: seq<seq<Record>>) {
    && (forall i :: 0 <= i < |hs| ==> Numbered(hs[i]))
    && (forall i, j :: 0 <= i <= j < |hs| ==> hs[i] <= hs[j])
  }

  /** The reader asks for another page only while Next is non-zero. */
  ghost predicate Follows(hs: seq<seq<Record>>, capacity: nat, q: Query) {
    && Growing(hs) && q.limit > 0
    && (forall i :: 0 <= i < |hs| - 1 ==> PageAt(hs, capacity, q, i).next != 0)
  }

  /** Records of a page lie below the query's cursor and not below the page's own. */
  lemma PageRange(h: seq<Record>, capacity: nat, q: Query, r: Record)
    requires Numbered(h) && q.limit > 0 && r in PageOf(h, capacity, q).records
    ensures q.before > 0 ==> r.seqNo < q.before
    ensures PageOf(h, capacity, q).next != 0 ==> r.seqNo >= PageOf(h, capacity, q).next > 0
  {
    PageFacts(h, capacity, q);
    assert r in Candidates(h, capacity, q);
    NewestMembers(h, Oldest(h, capacity), |h|, q, r);
    var records := PageOf(h, capacity, q).records;
    var k :| 0 <= k < |records| && records[k] == r;
  }

  ghost function CursorAt(hs: seq<seq<Record>>, capacity: nat, q: Query, i: nat): int
    requires i < |hs|
  {
    PageAt(hs, capacity, q, i).next
  }

  lemma RecordBounds(hs: seq<seq<Record>>, capacity: nat, q: Query, i: nat, r: Record)
    requires Follows(hs, capacity, q) && i < |hs| && r in PageAt(hs, capacity, q, i).records
    ensures i > 0 ==> r.seqNo < CursorAt(hs, capacity, q, i - 1)
    ensures CursorAt(hs, capacity, q, i) != 0 ==> r.seqNo >= CursorAt(hs, capacity, q, i)
  {
    PageRange(hs[i], capacity, QueryAt(hs, capacity, q, i), r);
    if i > 0 {
      PageFacts(hs[i - 1], capacity, QueryAt(hs, capacity, q, i - 1));
    }
  }

  lemma CursorFalls(hs: seq<seq<Record>>, capacity: nat, q: Query, j: nat)
    requires Follows(hs, capacity, q) && 0 < j < |hs| && CursorAt(hs, capacity, q, j) != 0
    ensures CursorAt(hs, capacity, q, j) < CursorAt(hs, capacity, q, j - 1)
  {
    PageFacts(hs[j], capacity, QueryAt(hs, capacity, q, j));
    RecordBounds(hs, capacity, q, j, PageAt(hs, capacity, q, j).records[q.limit - 1]);
  }

  lemma {:induction false} CursorsFall(hs: seq<seq<Record>>, capacity: nat, q: Query, i: nat, j: nat)
    requires Follows(hs, capacity, q) && i <= j < |hs| && CursorAt(hs, capacity, q, j) != 0
    ensures CursorAt(hs, capacity, q, j) <= CursorAt(hs, capacity, q, i)
  {
    if i < j {
      CursorsFall(hs, capacity, q, i, j - 1);
      CursorFalls(hs, capacity, q, j);
    }
  }

  /** Across pages sequence numbers strictly fall, so nothing repeats. */
  lemma NothingRepeats(hs: seq<seq<Record>>, capacity: nat, q: Query, i: nat, j: nat, r: Record, s: Record)
    requires Follows(hs, capacity, q) && i < j < |hs|
    requires r in PageAt(hs, capacity, q, i).records && s in PageAt(hs, capacity, q, j).records
    ensures s.seqNo < r.seqNo
  {
    var ci, cj := CursorAt(hs, capacity, q, i), CursorAt(hs, capacity, q, j - 1);
    assert r.seqNo >= ci by { RecordBounds(hs, capacity, q, i, r); }
    assert s.seqNo < cj by { RecordBounds(hs, capacity, q, j, s); }
    assert cj <= ci by { CursorsFall(hs, capacity, q, i, j - 1); }
  }

  /** Page i is where record number s is due: at or above its cursor, below the previous one. */
  ghost predicate Due(hs: seq<seq<Record>>, capacity: nat, q: Query, i: nat, s: int)
    requires i < |hs|
  {
    && (i > 0 ==> s < PageAt(hs, capacity, q, i - 1).next)
    && (PageAt(hs, capacity, q, i).next != 0 ==> s >= PageAt(hs, capacity, q, i).next)
  }

  lemma {:induction false} DuePage(hs: seq<seq<Record>>, capacity: nat, q: Query, s: int, n: nat) returns (i: nat)
    requires Follows(hs, capacity, q) && n < |hs|
    requires PageAt(hs, capacity, q, n).next == 0 || s >= PageAt(hs, capacity, q, n).next
    ensures i <= n && Due(hs, capacity, q, i, s)
  {
    if n > 0 && s >= PageAt(hs, capacity, q, n - 1).next {
      i := DuePage(hs, capacity, q, s, n - 1);
    } else {
      i := n;
    }
  }

  /** A finished listing reaches every matching record of the first snapshot: on the
      page where it is due it is returned exactly when the ring still retains it. */
  lemma EveryRecordIsDue(hs: seq<seq<Record>>, capacity: nat, q: Query, k: nat) returns (i: nat)
    requires hs != [] && Follows(hs, capacity, q) && PageAt(hs, capacity, q, |hs| - 1).next == 0
    requires k < |hs[0]| && (q.decision == "" || hs[0][k].decision == q.decision)
    ensures i < |hs| && Due(hs, capacity, q, i, k + 1)
    ensures hs[0][k] in PageAt(hs, capacity, q, i).records <==> Retained(hs[i], capacity, k)
  {
    i := DuePage(hs, capacity, q, k + 1, |hs| - 1);
    assert hs[0] <= hs[i] && Numbered(hs[i]);
    DueIsReturned(hs[i], capacity, QueryAt(hs, capacity, q, i), k);
  }

  /** Between the query's cursor and the page's own, a matching record is returned exactly when retained. */
  lemma DueIsReturned(h: seq<Record>, capacity: nat, q: Query, k: nat)
    requires Numbered(h) && q.limit > 0 && k < |h| && Matches(q, h[k])
    requires PageOf(h, capacity, q).next != 0 ==> k + 1 >= PageOf(h, capacity, q).next
    ensures h[k] in PageOf(h, capacity, q).records <==> Retained(h, capacity, k)
  {
    var p, all, r := PageOf(h, capacity, q), Candidates(h, capacity, q), h[k];
    PageFacts(h, capacity, q);
    NewestMembers(h, Oldest(h, capacity), |h|, q, r);
    if Retained(h, capacity, k) {
      assert r in all;
      var x :| 0 <= x < |all| && all[x] == r;
      assert p.next != 0 ==> x < q.limit;
      assert p.records[x] == r;
    }
  }

  /** In particular a record still retained at the last page was returned. */
  lemma SurvivorsAreReturned(hs: seq<seq<Record>>, capacity: nat, q: Query, k: nat)
    requires hs != [] && Follows(hs, capacity, q) && PageAt(hs, capacity, q, |hs| - 1).next == 0
    requires k < |hs[0]| && (q.decision == "" || hs[0][k].decision == q.decision)
    requires Retained(hs[|hs| - 1], capacity, k)
    ensures exists i :: 0 <= i < |hs| && hs[0][k] in PageAt(hs, capacity, q, i).records
  {
    var i := EveryRecordIsDue(hs, capacity, q, k);
    assert hs[0] <= hs[i] && hs[i] <= hs[|hs| - 1];
  }

  /** Without a limit there is one page with every match. */
  lemma UnlimitedPage(h: seq<Record>, capacity: nat, q: Query)
    requires q.limit <= 0
    ensures PageOf(h, capacity, q).next == 0 && PageOf(h, capacity, q).records == Candidates(h, capacity, q)
  {
    ListingIsNewest(h, capacity, q, q.limit);
  }
}
