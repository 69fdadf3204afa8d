/** The per-stream sliding window of the ext_proc loop
    (internal/interfaces/grpc/enforcer/process_stream.go). */
module SlidingWindow {
  import opened ByteStrings

  datatype Config = Config(windowLimit: nat, overlap: nat) {
    ghost predicate Valid() {
      overlap < windowLimit
    }
  }

  datatype Setting = Unset | Parsed(n: int)

  /** Defaults, and the environment values that are accepted instead. */
  function Configure(window: Setting, overlap: Setting): (c: Config)
    ensures c.Valid()
    ensures c.windowLimit > 8192
    ensures window.Parsed? && window.n > 8192 ==> c.windowLimit == window.n
    ensures !(window.Parsed? && window.n > 8192) ==> c.windowLimit == 65536
    ensures overlap.Parsed? && 0 <= overlap.n < c.windowLimit ==> c.overlap == overlap.n
    ensures !(overlap.Parsed? && 0 <= overlap.n < c.windowLimit) ==> c.overlap == 4096
  {
    var limit := if window.Parsed? && window.n > 8192 then window.n else 64 * 1024;
    Config(limit, if overlap.Parsed? && 0 <= overlap.n < limit then overlap.n else 4096)
  }

  function Min(a: int, b: int): int {
    if a <= b then a else b
  }

  /** The last n bytes, or all of them when there are fewer. */
  function Last(s: Bytes, n: nat): Bytes {
    if |s| > n then s[|s| - n..] else s
  }

  /** One direction of one stream: the tail carried from chunk to chunk. */
  class Direction {
    const config: Config
    var tail: Bytes

    constructor (config: Config)
      ensures this.config == config && tail == []
    {
      this.config := config;
      tail := [];
    }

    method Feed(b: Bytes) returns (window: Bytes)
      modifies this
      ensures window == Last(old(tail) + b, config.windowLimit)
      ensures tail == Last(window, config.overlap)
    {
      window := [];
      if |tail| > 0 {
        window := window + tail;
      }
      window := window + b;
      if |window| > config.windowLimit {
        window := window[|window| - config.windowLimit..];
      }
      if |window| > config.overlap {
        tail := window[|window| - config.overlap..];
      } else {
        tail := window;
      }
    }
  }

  // ---------- whole streams ----------

  /** The window scanned for chunk i, as the carried tails build it. */
  function Window(c: Config, chunks: seq<Bytes>, i: nat): Bytes
    requires i < |chunks|
    decreases i, 1
  {
    Last(Tail(c, chunks, i) + chunks[i], c.windowLimit)
  }

  /** The tail before chunk i; empty bodies leave it alone. */
  function Tail(c: Config, chunks: seq<Bytes>, i: nat): Bytes
    requires i <= |chunks|
    decreases i, 0
  {
    if i == 0 then []
    else if chunks[i - 1] == [] then Tail(c, chunks, i - 1)
    else Last(Window(c, chunks, i - 1), c.overlap)
  }

  /** Bytes received before chunk i. */
  function Before(chunks: seq<Bytes>, i: nat): (n: nat)
    requires i <= |chunks|
    ensures n == |Stream(chunks[..i])|
  {
    if i == 0 then 0
    else
      assert chunks[..i][..i - 1] == chunks[..i - 1];
      Before(chunks, i - 1) + |chunks[i - 1]|
  }

  lemma {:induction false} BeforeMonotone(chunks: seq<Bytes>, i: nat, j: nat)
    requires i <= j <= |chunks|
    ensures Before(chunks, i) <= Before(chunks, j)
  {
    if i < j {
      BeforeMonotone(chunks, i, j - 1);
    }
  }

  lemma {:induction false} StreamPrefix(chunks: seq<Bytes>, i: nat)
    requires i <= |chunks|
    ensures Before(chunks, i) <= |Stream(chunks)|
    ensures Stream(chunks[..i]) == Stream(chunks)[..Before(chunks, i)]
  {
    if i < |chunks| {
      var n := |chunks| - 1;
      StreamPrefix(chunks[..n], i);
      assert chunks[..n][..i] == chunks[..i];
    } else {
      assert chunks[..i] == chunks;
    }
  }

  lemma LastOfConcat(a: Bytes, b: Bytes, n: nat)
    ensures Last(Last(a, n) + b, n) == Last(a + b, n)
  {
  }

  lemma LastOfLast(s: Bytes, m: nat, n: nat)
    requires n <= m
    ensures Last(Last(s, m), n) == Last(s, n)
  {
  }

  lemma {:induction false} TailIsLast(c: Config, chunks: seq<Bytes>, i: nat)
    requires c.Valid() && i <= |chunks|
    ensures Tail(c, chunks, i) == Last(Stream(chunks[..i]), c.overlap)
  {
    if i > 0 {
      TailIsLast(c, chunks, i - 1);
      var s, b := Stream(chunks[..i - 1]), chunks[i - 1];
      assert chunks[..i][..i - 1] == chunks[..i - 1];
      assert Stream(chunks[..i]) == s + b;
      if b == [] {
        assert s + b == s;
      } else {
        LastOfLast(Last(s, c.overlap) + b, c.windowLimit, c.overlap);
        LastOfConcat(s, b, c.overlap);
      }
    }
  }

  /** The tail is always the last min(overlap, received) bytes of the stream. */
  lemma TailIsStreamSuffix(c: Config, chunks: seq<Bytes>, i: nat)
    requires c.Valid() && i <= |chunks|
    ensures var s := Stream(chunks[..i]); Tail(c, chunks, i) == s[if |s| > c.overlap then |s| - c.overlap else 0..]
  {
    TailIsLast(c, chunks, i);
  }

  /** How much of the stream, counted back from its end, the window for chunk i shows. */
  function Reach(c: Config, chunks: seq<Bytes>, i: nat): nat
    requires i < |chunks|
  {
    Min(c.windowLimit, Min(c.overlap, Before(chunks, i)) + |chunks[i]|)
  }

  lemma WindowLength(s: Bytes, b: Bytes, overlap: nat, limit: nat)
    requires overlap < limit
    ensures var n := Min(limit, Min(overlap, |s|) + |b|);
      Last(Last(s, overlap) + b, limit) == (s + b)[|s| + |b| - n..]
  {
    var t := Last(s, overlap);
    assert t + b == (s + b)[|s| - |t|..];
  }

  lemma StreamNext(chunks: seq<Bytes>, i: nat)
    requires i < |chunks|
    ensures Stream(chunks[..i + 1]) == Stream(chunks[..i]) + chunks[i]
  {
    assert chunks[..i + 1][..i] == chunks[..i];
  }

  lemma WindowIsSlice(c: Config, chunks: seq<Bytes>, i: nat)
    requires c.Valid() && i < |chunks|
    ensures var end := Before(chunks, i + 1);
      end <= |Stream(chunks)| && Reach(c, chunks, i) <= end &&
      Window(c, chunks, i) == Stream(chunks)[end - Reach(c, chunks, i)..end]
  {
    var s, b, end := Stream(chunks[..i]), chunks[i], Before(chunks, i + 1);
    StreamNext(chunks, i);
    StreamPrefix(chunks, i + 1);
    TailIsLast(c, chunks, i);
    WindowInStream(c, s, b, Stream(chunks));
  }

  lemma WindowInStream(c: Config, s: Bytes, b: Bytes, whole: Bytes)
    requires c.Valid() && |s| + |b| <= |whole| && s + b == whole[..|s| + |b|]
    ensures var n, end := Min(c.windowLimit, Min(c.overlap, |s|) + |b|), |s| + |b|;
      n <= end && Last(Last(s, c.overlap) + b, c.windowLimit) == whole[end - n..end]
  {
    WindowLength(s, b, c.overlap, c.windowLimit);
    var n, end := Min(c.windowLimit, Min(c.overlap, |s|) + |b|), |s| + |b|;
    assert whole[..end][end - n..] == whole[end - n..end];
  }

  /** Stream positions a..b all lie inside the window scanned for chunk i. */
  ghost predicate Inside(c: Config, chunks: seq<Bytes>, i: nat, a: nat, b: nat) {
    && i < |chunks| && chunks[i] != []
    && Before(chunks, i + 1) - Reach(c, chunks, i) <= a && b <= Before(chunks, i + 1)
  }

  ghost predicate ShortRange(c: Config, chunks: seq<Bytes>, a: nat, b: nat) {
    a < b <= |Stream(chunks)| && b - a <= c.overlap + 1
  }

  /** No short substring falls between the scanned windows. */
  ghost predicate NothingLost(c: Config, chunks: seq<Bytes>) {
    forall a: nat, b: nat :: ShortRange(c, chunks, a, b) ==> exists i: nat :: Inside(c, chunks, i, a, b)
  }

  /** Carried tail and chunk fit the window, so no head is cut off. */
  ghost predicate Fits(c: Config, chunks: seq<Bytes>, i: nat)
    requires i < |chunks|
  {
    Min(c.overlap, Before(chunks, i)) + |chunks[i]| <= c.windowLimit
  }

  lemma {:induction false} ChunkOf(chunks: seq<Bytes>, n: nat, pos: nat) returns (i: nat)
    requires n <= |chunks| && pos < Before(chunks, n)
    ensures i < n && Before(chunks, i) <= pos < Before(chunks, i + 1)
  {
    if pos >= Before(chunks, n - 1) {
      i := n - 1;
    } else {
      i := ChunkOf(chunks, n - 1, pos);
    }
  }

  /** Every substring of at most overlap+1 bytes is scanned whole exactly when
      no chunk, together with the tail before it, exceeds the window. */
  lemma NothingLostIff(c: Config, chunks: seq<Bytes>)
    requires c.Valid()
    ensures NothingLost(c, chunks) <==> forall i :: 0 <= i < |chunks| ==> Fits(c, chunks, i)
  {
    if forall i :: 0 <= i < |chunks| ==> Fits(c, chunks, i) {
      forall a: nat, b: nat | ShortRange(c, chunks, a, b) ensures exists i: nat :: Inside(c, chunks, i, a, b) {
        assert chunks[..|chunks|] == chunks;
        var i := ChunkOf(chunks, |chunks|, b - 1);
        assert Fits(c, chunks, i);
        assert Inside(c, chunks, i, a, b);
      }
    }
    if i :| 0 <= i < |chunks| && !Fits(c, chunks, i) {
      HeadIsLost(c, chunks, i);
    }
  }

  lemma HeadIsLost(c: Config, chunks: seq<Bytes>, i: nat)
    requires c.Valid() && i < |chunks| && !Fits(c, chunks, i)
    ensures !NothingLost(c, chunks)
  {
    var a := Before(chunks, i) - Min(c.overlap, Before(chunks, i));
    var b := Before(chunks, i) + 1;
    StreamPrefix(chunks, i + 1);
    assert ShortRange(c, chunks, a, b);
    forall j: nat ensures !Inside(c, chunks, j, a, b) {
      if j < i {
        BeforeMonotone(chunks, j + 1, i);
      } else if i < j < |chunks| {
        BeforeMonotone(chunks, i + 1, j);
      }
    }
  }

  // ---------- the request-body loop ----------

  datatype ScanOutcome = Clean | Hit | Failed

  datatype Verdict = Streamed | BodyLimit | Blocked

  ghost predicate HitAt(c: Config, chunks: seq<Bytes>, scan: Bytes -> ScanOutcome, i: int) {
    0 <= i < |chunks| && chunks[i] != [] && scan(Window(c, chunks, i)) == Hit
  }

  /** The first i chunks are within the byte limit. */
  ghost predicate WithinLimit(chunks: seq<Bytes>, maxStreamBytes: int, i: int) {
    0 <= i <= |chunks| && (maxStreamBytes <= 0 || Before(chunks, i) <= maxStreamBytes)
  }

  lemma LimitStaysPassed(chunks: seq<Bytes>, maxStreamBytes: int, k: nat)
    requires k <= |chunks| && 0 < maxStreamBytes < Before(chunks, k)
    ensures forall i :: k <= i <= |chunks| ==> !WithinLimit(chunks, maxStreamBytes, i)
  {
    forall i | k <= i <= |chunks| ensures Before(chunks, i) > maxStreamBytes {
      BeforeMonotone(chunks, k, i);
    }
  }

  /** `processStream` on request bodies: byte limit, window, scan, enforcement.
      A failed scan lets the chunk through. */
  method ProcessBodies(c: Config, chunks: seq<Bytes>, maxStreamBytes: int, enforce: bool, scan: Bytes -> ScanOutcome)
    returns (v: Verdict)
    requires c.Valid()
    ensures v.Streamed? <==>
      && (maxStreamBytes <= 0 || |Stream(chunks)| <= maxStreamBytes)
      && (enforce ==> forall i :: 0 <= i < |chunks| ==> !HitAt(c, chunks, scan, i))
    ensures v.BodyLimit? ==> 0 < maxStreamBytes < |Stream(chunks)|
    ensures v.Blocked? <==> enforce && exists i :: HitAt(c, chunks, scan, i) && WithinLimit(chunks, maxStreamBytes, i + 1)
  {
    var total := 0;
    var dir := new Direction(c);
    for k := 0 to |chunks|
      invariant fresh(dir) && dir.config == c && dir.tail == Tail(c, chunks, k)
      invariant total == Before(chunks, k) && (maxStreamBytes <= 0 || total <= maxStreamBytes)
      invariant enforce ==> forall i :: 0 <= i < k ==> !HitAt(c, chunks, scan, i)
    {
      var b := chunks[k];
      if |b| > 0 {
        total := total + |b|;
        if maxStreamBytes > 0 && total > maxStreamBytes {
          StreamPrefix(chunks, k + 1);
          LimitStaysPassed(chunks, maxStreamBytes, k + 1);
          return BodyLimit;
        }
        var window := dir.Feed(b);
        assert window == Window(c, chunks, k);
        if scan(window) == Hit && enforce {
          assert HitAt(c, chunks, scan, k);
          return Blocked;
        }
      }
    }
    assert chunks[..|chunks|] == chunks;
    return Streamed;
  }

  ghost predicate OccursAt(text: Bytes, p: Bytes, a: nat) {
    a + |p| <= |text| && text[a..a + |p|] == p
  }

  lemma OccursInWindow(c: Config, chunks: seq<Bytes>, p: Bytes, a: nat) returns (i: nat, k: nat)
    requires c.Valid() && forall j :: 0 <= j < |chunks| ==> Fits(c, chunks, j)
    requires 0 < |p| <= c.overlap + 1 && OccursAt(Stream(chunks), p, a)
    ensures i < |chunks| && chunks[i] != [] && OccursAt(Window(c, chunks, i), p, k)
  {
    NothingLostIff(c, chunks);
    assert ShortRange(c, chunks, a, a + |p|);
    i :| Inside(c, chunks, i, a, a + |p|);
    WindowIsSlice(c, chunks, i);
    var start, end := Before(chunks, i + 1) - Reach(c, chunks, i), Before(chunks, i + 1);
    k := a - start;
    SliceOfSlice(Stream(chunks), start, end, a, a + |p|);
  }

  lemma SliceOfSlice(s: Bytes, lo: nat, hi: nat, a: nat, b: nat)
    requires lo <= a <= b <= hi <= |s|
    ensures s[lo..hi][a - lo..b - lo] == s[a..b]
  {
    var t := s[lo..hi];
    forall x | 0 <= x < b - a ensures t[a - lo..b - lo][x] == s[a..b][x] {
      assert t[a - lo + x] == s[a + x];
    }
  }

  /** In an enforced stream that passed, a detector of p that never failed leaves
      no p of at most overlap+1 bytes anywhere in the stream. */
  lemma PassedStreamHasNoMatch(c: Config, chunks: seq<Bytes>, scan: Bytes -> ScanOutcome, p: Bytes, a: nat)
    requires c.Valid() && forall i :: 0 <= i < |chunks| ==> Fits(c, chunks, i)
    requires forall i :: 0 <= i < |chunks| && chunks[i] != [] ==> scan(Window(c, chunks, i)) == Clean
    requires forall w, k: nat :: OccursAt(w, p, k) ==> scan(w) != Clean
    requires 0 < |p| <= c.overlap + 1
    ensures !OccursAt(Stream(chunks), p, a)
  {
    if OccursAt(Stream(chunks), p, a) {
      var i, k := OccursInWindow(c, chunks, p, a);
    }
  }
}
