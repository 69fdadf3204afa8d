/** The bounded decision log (internal/application/decisions/log.go, page.go). */
module DecisionLog {
  import opened Modular

  datatype Record = Record(seqNo: int, requestId: string, time: int, decision: string, latencyMs: real)

  datatype Query = Query(limit: int, decision: string, before: int)

  const DEFAULT_CAPACITY := 500

  const ZERO_TIME := 0

  function Stamped(r: Record, now: int): Record {
    if r.time == ZERO_TIME then r.(time := now) else r
  }

  // ---------- the unbounded history the log abbreviates ----------

  /** Records carry consecutive sequence numbers from 1. */
  ghost predicate Numbered(h: seq<Record>) {
    forall k :: 0 <= k < |h| ==> h[k].seqNo == k + 1
  }

  function Oldest(h: seq<Record>, capacity: nat): nat {
    if |h| > capacity then |h| - capacity else 0
  }

  predicate Matches(q: Query, r: Record) {
    (q.decision == "" || r.decision == q.decision) && (q.before <= 0 || r.seqNo < q.before)
  }

  /** Matching records among h[lo..hi], newest first. */
  function Newest(h: seq<Record>, lo: nat, hi: nat, q: Query): seq<Record>
    requires hi <= |h|
    decreases hi
  {
    if hi <= lo then []
    else (if Matches(q, h[hi - 1]) then [h[hi - 1]] else []) + Newest(h, lo, hi - 1, q)
  }

  function Take(s: seq<Record>, limit: int): seq<Record> {
    if 0 < limit < |s| then s[..limit] else s
  }

  /** What a listing means: filter the retained suffix, newest first, then cap it. */
  function Listing(h: seq<Record>, capacity: nat, q: Query, limit: int): seq<Record> {
    Take(Newest(h, Oldest(h, capacity), |h|, q), limit)
  }

  lemma {:induction false} NewestMembers(h: seq<Record>, lo: nat, hi: nat, q: Query, r: Record)
    requires hi <= |h|
    ensures r in Newest(h, lo, hi, q) <==>
      (exists k :: lo <= k < hi && h[k] == r) && (q.decision == "" || r.decision == q.decision) && (q.before <= 0 || r.seqNo < q.before)
    decreases hi
  {
    if lo < hi {
      NewestMembers(h, lo, hi - 1, q, r);
    }
  }

  ghost predicate Descending(s: seq<Record>) {
    forall i, j :: 0 <= i < j < |s| ==> s[i].seqNo > s[j].seqNo
  }

  lemma {:induction false} NewestDescending(h: seq<Record>, lo: nat, hi: nat, q: Query)
    requires Numbered(h) && hi <= |h|
    ensures Descending(Newest(h, lo, hi, q))
    ensures forall r :: r in Newest(h, lo, hi, q) ==> r.seqNo <= hi
    decreases hi
  {
    if lo < hi {
      NewestDescending(h, lo, hi - 1, q);
      var rest := Newest(h, lo, hi - 1, q);
      assert forall j :: 0 <= j < |rest| ==> rest[j] in rest;
    }
  }

  /** Records at or above the cursor never match, so scanning may start below it. */
  lemma {:induction false} SkipAboveCursor(h: seq<Record>, lo: nat, mid: nat, hi: nat, q: Query)
    requires Numbered(h) && mid <= hi <= |h|
    requires q.before > 0 && mid + 1 >= q.before
    ensures Newest(h, lo, hi, q) == Newest(h, lo, mid, q)
    decreases hi
  {
    if mid < hi {
      SkipAboveCursor(h, lo, mid, hi - 1, q);
    }
  }

  // ---------- lifetime counts ----------

  function CountOf(h: seq<Record>, d: string): nat {
    if h == [] then 0 else CountOf(h[..|h| - 1], d) + if h[|h| - 1].decision == d then 1 else 0
  }

  ghost function Sum(m: map<string, nat>): nat {
    if m == map[] then 0
    else
      var k :| k in m;
      m[k] + Sum(m - {k})
  }

  lemma {:induction false} SumSplit(m: map<string, nat>, k: string)
    requires k in m
    ensures Sum(m) == m[k] + Sum(m - {k})
    decreases |m|
  {
    var c :| c in m && Sum(m) == m[c] + Sum(m - {c});
    if c != k {
      assert (m - {c}) - {k} == (m - {k}) - {c};
      SumSplit(m - {c}, k);
      SumSplit(m - {k}, c);
    }
  }

  function Bump(m: map<string, nat>, d: string): map<string, nat> {
    m[d := (if d in m then m[d] else 0) + 1]
  }

  lemma SumBump(m: map<string, nat>, d: string)
    ensures Sum(Bump(m, d)) == Sum(m) + 1
  {
    var m' := Bump(m, d);
    SumSplit(m', d);
    if d in m {
      SumSplit(m, d);
      assert m' - {d} == m - {d};
    } else {
      assert m' - {d} == m;
    }
  }

  /** The lifetime counters agree with the history and add up to its length. */
  ghost predicate Counted(counts: map<string, nat>, h: seq<Record>) {
    && (forall d :: d in counts ==> counts[d] == CountOf(h, d))
    && (forall d :: CountOf(h, d) > 0 ==> d in counts)
    && "allow" in counts && "deny" in counts && "quarantine" in counts
    && Sum(counts) == |h|
  }

  lemma CountedAdd(counts: map<string, nat>, h: seq<Record>, r: Record)
    requires Counted(counts, h)
    ensures Counted(Bump(counts, r.decision), h + [r])
  {
    SumBump(counts, r.decision);
    assert (h + [r])[..|h|] == h;
  }

  /** Ring slots hold exactly the last min(capacity, total) records. */
  ghost predicate Holds(slots: seq<Record>, h: seq<Record>) {
    |slots| > 0 && forall k :: Oldest(h, |slots|) <= k < |h| ==> InSlot(slots, h, k)
  }

  ghost predicate InSlot(slots: seq<Record>, h: seq<Record>, k: int)
    requires |slots| > 0 && 0 <= k < |h|
  {
    slots[Slot(k, |slots|)] == h[k]
  }

  lemma HoldsAdd(slots: seq<Record>, h: seq<Record>, r: Record)
    requires Holds(slots, h)
    ensures Holds(slots[Slot(|h|, |slots|) := r], h + [r])
  {
    var slots', h' := slots[Slot(|h|, |slots|) := r], h + [r];
    forall k | Oldest(h', |slots|) <= k < |h'| ensures InSlot(slots', h', k) {
      if k < |h| {
        assert InSlot(slots, h, k);
        SlotDistinct(k, |h|, |slots|);
      }
    }
  }

  ghost predicate Represents(slots: seq<Record>, next: nat, size: nat, total: nat, h: seq<Record>) {
    && Holds(slots, h) && Numbered(h)
    && total == |h| && next == Slot(total, |slots|) && size == total - Oldest(h, |slots|)
  }

  lemma RepresentsAdd(slots: seq<Record>, next: nat, size: nat, total: nat, h: seq<Record>, r: Record)
    requires Represents(slots, next, size, total, h) && r.seqNo == total + 1
    ensures Represents(slots[next := r], if next + 1 < |slots| then next + 1 else 0,
      if size < |slots| then size + 1 else size, total + 1, h + [r])
  {
    HoldsAdd(slots, h, r);
  }

  /** The i-th newest record is i slots behind the insertion point. */
  ghost predicate BackIs(slots: seq<Record>, next: nat, h: seq<Record>, i: nat)
    requires 1 <= i <= |slots| && i <= |h| && next < |slots|
  {
    slots[RingIndex(next - i + |slots|, |slots|)] == h[|h| - i]
  }

  ghost predicate Readable(slots: seq<Record>, next: nat, size: nat, h: seq<Record>) {
    && size <= |slots| && size <= |h| && next < |slots|
    && forall i :: 1 <= i <= size ==> BackIs(slots, next, h, i)
  }

  lemma ReadableBack(slots: seq<Record>, next: nat, size: nat, total: nat, h: seq<Record>)
    requires Represents(slots, next, size, total, h)
    ensures Readable(slots, next, size, h)
  {
    forall i | 1 <= i <= size ensures BackIs(slots, next, h, i) {
      SlotBack(|h|, i, |slots|);
      assert InSlot(slots, h, |h| - i);
    }
  }

  datatype Page = Page(records: seq<Record>, next: int)

  /** One page of a history: lookahead by one record decides whether there is a next page. */
  function PageOf(h: seq<Record>, capacity: nat, q: Query): Page {
    if q.limit <= 0 then Page(Listing(h, capacity, q, q.limit), 0)
    else
      var rs := Listing(h, capacity, q, q.limit + 1);
      if |rs| <= q.limit then Page(rs, 0) else Page(rs[..q.limit], rs[q.limit - 1].seqNo)
  }

  /** The ring. `history` is every record ever added. */
  class Log {
    const buf: array<Record>
    var next: nat
    var size: nat
    var total: nat
    var counts: map<string, nat>
    ghost var history: seq<Record>

    ghost predicate Valid()
      reads this, buf
    {
      Represents(buf[..], next, size, total, history) && Counted(counts, history)
    }

    constructor (capacity: int)
      ensures Valid() && history == [] && fresh(buf)
      ensures buf.Length == if capacity <= 0 then DEFAULT_CAPACITY else capacity
    {
      buf := new Record[if capacity <= 0 then DEFAULT_CAPACITY else capacity](
        _ => Record(0, "", 0, "", 0.0));
      next, size, total := 0, 0, 0;
      counts := map["allow" := 0, "deny" := 0, "quarantine" := 0];
      history := [];
      new;
      InitialSum();
    }

    method Add(r: Record, now: int)
      requires Valid()
      modifies this, buf
      ensures Valid() && history == old(history) + [Stamped(r, now).(seqNo := |old(history)| + 1)]
      ensures var e := history[|old(history)|];
        && e.seqNo == |old(history)| + 1 && e.requestId == r.requestId && e.decision == r.decision && e.latencyMs == r.latencyMs
        && e.time == if r.time == ZERO_TIME then now else r.time
    {
      var stored := Store(Stamped(r, now));
      CountedAdd(counts, old(history), stored);
      counts := Bump(counts, r.decision);
    }

    /** Everything `Add` does except counting. */
    method Store(r: Record) returns (stored: Record)
      requires Represents(buf[..], next, size, total, history)
      modifies this`total, this`next, this`size, this`history, buf
      ensures stored == r.(seqNo := |old(history)| + 1) && history == old(history) + [stored]
      ensures Represents(buf[..], next, size, total, history)
    {
      total := total + 1;
      stored := r.(seqNo := total);
      RepresentsAdd(buf[..], next, size, |history|, history, stored);
      buf[next] := stored;
      assert buf[..] == old(buf[..])[old(next) := stored];
      next := RingIndex(next + 1, buf.Length);
      if size < buf.Length {
        size := size + 1;
      }
      history := history + [stored];
    }

    method Scan(q: Query, limit: int) returns (out: seq<Record>)
      requires Valid()
      ensures out == Listing(history, buf.Length, q, limit)
    {
      var start := 1;
      if q.before > 0 && total - q.before + 2 > 1 {
        start := total - q.before + 2;
      }
      ListingFrom(history, buf.Length, q, limit, start);
      if start > size {
        return [];
      }
      ReadableBack(buf[..], next, size, total, history);
      out := ScanFrom(q, limit, start);
    }

    /** The loop over ring offsets from start to size. */
    method ScanFrom(q: Query, limit: int, start: nat) returns (out: seq<Record>)
      requires buf.Length > 0 && Readable(buf[..], next, size, history) && 1 <= start <= size
      ensures out == Collect(history, |history| - size, |history| - start + 1, q, limit, [])
    {
      out := [];
      var i := start;
      while i <= size
        invariant start <= i <= size + 1
        invariant Collect(history, |history| - size, |history| - i + 1, q, limit, out) ==
                  Collect(history, |history| - size, |history| - start + 1, q, limit, [])
      {
        assert BackIs(buf[..], next, history, i);
        var r := buf[RingIndex(next - i + buf.Length, buf.Length)];
        if q.decision == "" || r.decision == q.decision {
          out := out + [r];
          if limit > 0 && |out| == limit {
            break;
          }
        }
        i := i + 1;
      }
    }

    method Recent(q: Query) returns (out: seq<Record>)
      requires Valid()
      ensures out == Listing(history, buf.Length, q, q.limit)
    {
      out := Scan(q, q.limit);
    }

    method GetPage(q: Query) returns (p: Page)
      requires Valid()
      ensures p == PageOf(history, buf.Length, q)
    {
      if q.limit <= 0 {
        var rs := Recent(q);
        return Page(rs, 0);
      }
      var records := Scan(q, q.limit + 1);
      if |records| <= q.limit {
        return Page(records, 0);
      }
      records := records[..q.limit];
      return Page(records, records[|records| - 1].seqNo);
    }

    /** Lifetime share of blocked decisions. */
    method BlockRate() returns (rate: real)
      requires Valid()
      ensures total == 0 ==> rate == 0.0
      ensures total > 0 ==> IsRatio(rate, CountOf(history, "deny") + CountOf(history, "quarantine"), total)
    {
      rate := 0.0;
      if total > 0 {
        rate := Ratio(counts["deny"] + counts["quarantine"], total);
      }
    }
  }

  predicate IsRatio(r: real, a: nat, b: nat) {
    r * (b as real) == a as real
  }

  function Ratio(a: nat, b: nat): (r: real)
    requires b > 0
    ensures IsRatio(r, a, b)
  {
    (a as real) / (b as real)
  }

  lemma InitialSum()
    ensures Sum(map["allow" := 0, "deny" := 0, "quarantine" := 0]) == 0
  {
    var m: map<string, nat> := map["allow" := 0, "deny" := 0, "quarantine" := 0];
    SumSplit(m, "allow");
    SumSplit(m - {"allow"}, "deny");
    SumSplit(m - {"allow"} - {"deny"}, "quarantine");
    assert m - {"allow"} - {"deny"} - {"quarantine"} == map[];
  }

  /** Where the scanning loop ends when h[lo..hi] is still ahead of it and `out` is collected so far. */
  function Collect(h: seq<Record>, lo: nat, hi: nat, q: Query, limit: int, out: seq<Record>): seq<Record>
    requires hi <= |h|
    decreases hi
  {
    if hi <= lo then out
    else
      var r := h[hi - 1];
      if q.decision != "" && r.decision != q.decision then Collect(h, lo, hi - 1, q, limit, out)
      else if limit > 0 && |out + [r]| == limit then out + [r]
      else Collect(h, lo, hi - 1, q, limit, out + [r])
  }

  /** Stopping early at the limit is the same as collecting everything and capping it. */
  lemma {:induction false} CollectIsTake(
    h: seq<Record>, lo: nat, hi: nat, q: Query, limit: int, out: seq<Record>)
    requires Numbered(h) && hi <= |h|
    requires q.before > 0 ==> hi < q.before
    requires limit > 0 ==> |out| < limit
    ensures Collect(h, lo, hi, q, limit, out) == Take(out + Newest(h, lo, hi, q), limit)
    decreases hi
  {
    if lo < hi {
      var r := h[hi - 1];
      var extended := if Matches(q, r) then out + [r] else out;
      assert out + Newest(h, lo, hi, q) == extended + Newest(h, lo, hi - 1, q);
      if !(limit > 0 && |extended| == limit) {
        CollectIsTake(h, lo, hi - 1, q, limit, extended);
      }
    } else {
      assert out + Newest(h, lo, hi, q) == out;
    }
  }

  /** Starting at this offset loses nothing: what lies above the cursor does not match. */
  lemma StartSkips(h: seq<Record>, lo: nat, start: int, q: Query)
    requires Numbered(h) && lo <= |h|
    requires start == if q.before > 0 && |h| - q.before + 2 > 1 then |h| - q.before + 2 else 1
    ensures start > |h| - lo ==> Newest(h, lo, |h|, q) == []
    ensures start <= |h| - lo ==> Newest(h, lo, |h|, q) == Newest(h, lo, |h| - start + 1, q)
  {
    if start > 1 {
      SkipAboveCursor(h, lo, if start > |h| - lo then lo else |h| - start + 1, |h|, q);
    }
  }

  /** The listing is what the loop collects from this offset on. */
  lemma ListingFrom(h: seq<Record>, capacity: nat, q: Query, limit: int, start: int)
    requires Numbered(h)
    requires start == if q.before > 0 && |h| - q.before + 2 > 1 then |h| - q.before + 2 else 1
    ensures var lo := Oldest(h, capacity);
      Listing(h, capacity, q, limit) ==
        if start > |h| - lo then [] else Collect(h, lo, |h| - start + 1, q, limit, [])
  {
    var lo := Oldest(h, capacity);
    StartSkips(h, lo, start, q);
    if start <= |h| - lo {
      CollectIsTake(h, lo, |h| - start + 1, q, limit, []);
      assert [] + Newest(h, lo, |h| - start + 1, q) == Newest(h, lo, |h| - start + 1, q);
    }
  }

  /** A listing is the newest matches, as many as the limit allows; all of them without a limit. */
  lemma ListingIsNewest(h: seq<Record>, capacity: nat, q: Query, limit: int)
    ensures var all := Newest(h, Oldest(h, capacity), |h|, q);
      var n := if limit > 0 && limit < |all| then limit else |all|;
      Listing(h, capacity, q, limit) == all[..n]
  {
    var all := Newest(h, Oldest(h, capacity), |h|, q);
    assert all[..|all|] == all;
  }
}
