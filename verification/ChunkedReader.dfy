/** Reading lines of any length from arbitrary reads (internal/scanner/io.go). */
module ChunkedReader {
  import opened ByteStrings

  const NEWLINE: byte := 10

  // ---------- lines of an input ----------

  /** Lines closed by a newline, without it. */
  function Closed(s: Bytes): seq<Bytes> {
    if s == [] then []
    else
      var n := |s| - 1;
      if s[n] == NEWLINE then Closed(s[..n]) + [Open(s[..n])] else Closed(s[..n])
  }

  /** The bytes after the last newline. */
  function Open(s: Bytes): Bytes {
    if s == [] || s[|s| - 1] == NEWLINE then [] else Open(s[..|s| - 1]) + [s[|s| - 1]]
  }

  /** All lines; a trailing empty one does not count. */
  function Lines(s: Bytes): seq<Bytes> {
    Closed(s) + (if Open(s) == [] then [] else [Open(s)])
  }

  function Rejoin(lines: seq<Bytes>): Bytes {
    if lines == [] then [] else Rejoin(lines[..|lines| - 1]) + lines[|lines| - 1] + [NEWLINE]
  }

  /** The split is the right one: no line holds a newline and together they give the input back. */
  lemma {:induction false} SplitIsExact(s: Bytes)
    ensures Rejoin(Closed(s)) + Open(s) == s
    ensures NEWLINE !in Open(s) && forall i :: 0 <= i < |Closed(s)| ==> NEWLINE !in Closed(s)[i]
  {
    if s != [] {
      var n := |s| - 1;
      SplitIsExact(s[..n]);
      assert s == s[..n] + [s[n]];
      if s[n] == NEWLINE {
        assert Closed(s)[..|Closed(s)| - 1] == Closed(s[..n]);
      }
    }
  }

  /** Only a trailing empty line is dropped: the lines give the input back, ended by a newline. */
  lemma LinesExact(s: Bytes)
    ensures Rejoin(Lines(s)) == if s == [] || s[|s| - 1] == NEWLINE then s else s + [NEWLINE]
  {
    SplitIsExact(s);
    if Open(s) != [] {
      assert Lines(s)[..|Lines(s)| - 1] == Closed(s);
    } else {
      assert Lines(s) == Closed(s);
      OpenEmptyIff(s);
    }
  }

  lemma OpenEmptyIff(s: Bytes)
    ensures Open(s) == [] <==> s == [] || s[|s| - 1] == NEWLINE
  {
  }

  lemma ExtendOne(s: Bytes, c: byte)
    requires c != NEWLINE
    ensures Closed(s + [c]) == Closed(s) && Open(s + [c]) == Open(s) + [c]
  {
    assert (s + [c])[..|s|] == s;
  }

  lemma {:induction false} ExtendOpen(s: Bytes, piece: Bytes)
    requires NEWLINE !in piece
    ensures Closed(s + piece) == Closed(s) && Open(s + piece) == Open(s) + piece
  {
    if piece == [] {
      assert s + piece == s;
    } else {
      var n := |piece| - 1;
      ExtendOpen(s, piece[..n]);
      ExtendOne(s + piece[..n], piece[n]);
      assert s + piece == s + piece[..n] + [piece[n]];
      assert Open(s) + piece == Open(s) + piece[..n] + [piece[n]];
    }
  }

  lemma CloseLine(s: Bytes, piece: Bytes)
    requires NEWLINE !in piece
    ensures Closed(s + piece + [NEWLINE]) == Closed(s) + [Open(s) + piece]
    ensures Open(s + piece + [NEWLINE]) == []
  {
    ExtendOpen(s, piece);
    assert (s + piece + [NEWLINE])[..|s + piece|] == s + piece;
  }

  // ---------- what the reader charges against the byte limit ----------

  /** Bytes of an unfinished line carried into read i are charged again when read i
      closes that line. */
  function Recharged(parts: seq<Bytes>, i: nat): nat
    requires i < |parts|
  {
    if NEWLINE in parts[i] then |Open(Stream(parts[..i]))| else 0
  }

  function Charged(parts: seq<Bytes>, i: nat): nat
    requires i <= |parts|
  {
    if i == 0 then 0 else Charged(parts, i - 1) + |parts[i - 1]| + Recharged(parts, i - 1)
  }

  /** Never less than what was read, and exact when every read that closes a line starts one. */
  lemma {:induction false} ChargedAtLeast(parts: seq<Bytes>, i: nat)
    requires i <= |parts|
    ensures Charged(parts, i) >= |Stream(parts[..i])|
    ensures Charged(parts, i) == |Stream(parts[..i])| <==> forall j :: 0 <= j < i ==> Recharged(parts, j) == 0
  {
    if i > 0 {
      ChargedAtLeast(parts, i - 1);
      assert parts[..i][..i - 1] == parts[..i - 1];
    }
  }

  lemma {:induction false} ChargedMonotone(parts: seq<Bytes>, i: nat, j: nat)
    requires i <= j <= |parts|
    ensures Charged(parts, i) <= Charged(parts, j)
  {
    if i < j {
      ChargedMonotone(parts, i, j - 1);
    }
  }

  // ---------- scanChunked ----------

  datatype Ending = Eof | Broken | Cancelled

  datatype Numbered = Numbered(line: nat, text: Bytes)

  function Number(lines: seq<Bytes>): seq<Numbered> {
    seq(|lines|, i requires 0 <= i < |lines| => Numbered(i + 1, lines[i]))
  }

  /** `evaluated` are the lines passed to `evaluateLongLine`, in order. */
  datatype Result =
    | Finished(evaluated: seq<Numbered>, linesRead: nat, bytesRead: nat)
    | OverLimit(evaluated: seq<Numbered>, quarantined: bool)
    | ReadFailed
    | Stopped

  predicate Exceeds(max: int, bytes: nat) {
    max > 0 && bytes > max
  }

  class Reader {
    var lineBuf: Bytes
    var lineNum: nat
    var linesRead: nat
    var bytesRead: nat
    var evaluated: seq<Numbered>

    constructor ()
      ensures Holds([], 0)
    {
      lineBuf, lineNum, linesRead, bytesRead, evaluated := [], 0, 0, 0, [];
    }

    /** State after consuming `seen`, charged `bytes`. */
    ghost predicate Holds(seen: Bytes, bytes: nat) reads this {
      && lineBuf == Open(seen) && bytesRead == bytes
      && evaluated == Number(Closed(seen)) && lineNum == |evaluated| == linesRead
    }

    /** A newline ends the line: count it, check the limit, evaluate. */
    method EndLine(piece: Bytes, max: int, ghost seen: Bytes, ghost bytes: nat) returns (ok: bool)
      requires Holds(seen, bytes) && NEWLINE !in piece
      modifies this
      ensures ok <==> !Exceeds(max, bytes + |Open(seen)| + |piece| + 1)
      ensures ok ==> Holds(seen + piece + [NEWLINE], bytes + |Open(seen)| + |piece| + 1)
      ensures !ok ==> evaluated == Number(Closed(seen))
    {
      CloseLine(seen, piece);
      lineBuf := lineBuf + piece;
      lineNum := lineNum + 1;
      linesRead := linesRead + 1;
      bytesRead := bytesRead + |lineBuf| + 1;
      if Exceeds(max, bytesRead) {
        return false;
      }
      evaluated := evaluated + [Numbered(lineNum, lineBuf)];
      lineBuf := [];
      return true;
    }

    /** No newline left in this read: keep the bytes and count them. */
    method Carry(piece: Bytes, ghost seen: Bytes, ghost bytes: nat)
      requires Holds(seen, bytes) && NEWLINE !in piece
      modifies this
      ensures Holds(seen + piece, bytes + |piece|)
    {
      ExtendOpen(seen, piece);
      lineBuf := lineBuf + piece;
      bytesRead := bytesRead + |piece|;
    }

    /** The inner loop over one read; false when the limit was hit. */
    method Consume(data: Bytes, max: int, ghost seen: Bytes, ghost bytes: nat) returns (ok: bool)
      requires Holds(seen, bytes) && !Exceeds(max, bytes)
      modifies this
      ensures ok <==> !Exceeds(max, ChargeFor(seen, bytes, data))
      ensures ok ==> Holds(seen + data, ChargeFor(seen, bytes, data))
      ensures !ok ==> exists p, e :: HaltsIn(seen, bytes, data, max, p, e, evaluated)
    {
      var p := 0;
      ok := true;
      assert seen + data[..0] == seen;
      while p < |data|
        invariant ok && 0 <= p <= |data| && (p < |data| ==> Midway(seen, bytes, data, p))
        invariant Holds(seen + data[..p], ChargeFor(seen, bytes, data[..p])) && !Exceeds(max, bytesRead)
      {
        ghost var from := p;
        p, ok := TakePiece(data, p, max, seen, bytes);
        if !ok {
          assert HaltsIn(seen, bytes, data, max, from, p, evaluated);
          return;
        }
      }
      assert data[..p] == data;
    }

    /** One turn of the inner loop: up to the next newline, or to the end of the read. */
    method TakePiece(data: Bytes, p: nat, max: int, ghost seen: Bytes, ghost bytes: nat) returns (next: nat, ok: bool)
      requires p < |data| && Midway(seen, bytes, data, p)
      requires Holds(seen + data[..p], ChargeFor(seen, bytes, data[..p])) && !Exceeds(max, bytesRead)
      modifies this
      ensures p < next <= |data|
      ensures ok ==> Holds(seen + data[..next], ChargeFor(seen, bytes, data[..next])) && !Exceeds(max, bytesRead)
      ensures ok && next < |data| ==> Midway(seen, bytes, data, next)
      ensures !ok ==> HaltsIn(seen, bytes, data, max, p, next, evaluated)
      ensures !ok ==> Exceeds(max, ChargeFor(seen, bytes, data))
    {
      var idx := IndexNewline(data, p);
      if idx < 0 {
        ok := TakeRest(data, p, max, seen, bytes);
        return |data|, ok;
      }
      LinePiece(seen, bytes, data, p, idx);
      LinePieceStops(seen, bytes, data, max, p, idx);
      ok := EndLine(data[p..idx], max, seen + data[..p], ChargeFor(seen, bytes, data[..p]));
      next := idx + 1;
    }

    method TakeRest(data: Bytes, p: nat, max: int, ghost seen: Bytes, ghost bytes: nat) returns (ok: bool)
      requires p < |data| && Midway(seen, bytes, data, p) && NEWLINE !in data[p..]
      requires Holds(seen + data[..p], ChargeFor(seen, bytes, data[..p])) && !Exceeds(max, bytesRead)
      modifies this
      ensures ok <==> !Exceeds(max, ChargeFor(seen, bytes, data))
      ensures Holds(seen + data[..|data|], ChargeFor(seen, bytes, data[..|data|])) && data[..|data|] == data
      ensures !ok ==> HaltsIn(seen, bytes, data, max, p, |data|, evaluated)
    {
      Carry(data[p..], seen + data[..p], ChargeFor(seen, bytes, data[..p]));
      LastPiece(seen, bytes, data, p);
      LastPieceStops(seen, bytes, data, max, p, evaluated);
      assert data[..|data|] == data;
      return !Exceeds(max, bytesRead);
    }
  }

  /** The charge after reading `data` on top of `seen`. */
  function ChargeFor(seen: Bytes, bytes: nat, data: Bytes): nat {
    bytes + |data| + if NEWLINE in data then |Open(seen)| else 0
  }

  /** Between two pieces of one read the line buffer is empty, unless the read just began. */
  ghost predicate Midway(seen: Bytes, bytes: nat, data: Bytes, p: int) {
    0 <= p <= |data| && (p > 0 ==> data[p - 1] == NEWLINE && NEWLINE in data[..p] && Open(seen + data[..p]) == [])
  }

  /** data[p..e] is the next line piece: up to and including the first newline, or the rest of the read. */
  predicate NextPiece(data: Bytes, p: int, e: int) {
    && 0 <= p < e <= |data| && (p == 0 || data[p - 1] == NEWLINE)
    && NEWLINE !in data[p..e - 1] && (data[e - 1] == NEWLINE || e == |data|)
  }

  /** The piece p..e of this read is the one that takes the charge over the limit. */
  ghost predicate StopsIn(seen: Bytes, bytes: nat, data: Bytes, max: int, p: int, e: int) {
    && NextPiece(data, p, e)
    && !Exceeds(max, ChargeFor(seen, bytes, data[..p])) && Exceeds(max, ChargeFor(seen, bytes, data[..e]))
  }

  /** There the scan halts, with exactly the lines closed before that piece evaluated. */
  ghost predicate HaltsIn(seen: Bytes, bytes: nat, data: Bytes, max: int, p: int, e: int, evaluated: seq<Numbered>) {
    StopsIn(seen, bytes, data, max, p, e) && evaluated == Number(Closed(seen + data[..p]))
  }

  lemma LastPieceStops(seen: Bytes, bytes: nat, data: Bytes, max: int, p: nat, evaluated: seq<Numbered>)
    requires Midway(seen, bytes, data, p) && p < |data| && NEWLINE !in data[p..]
    requires !Exceeds(max, ChargeFor(seen, bytes, data[..p])) && evaluated == Number(Closed(seen + data))
    ensures Exceeds(max, ChargeFor(seen, bytes, data)) ==> HaltsIn(seen, bytes, data, max, p, |data|, evaluated)
  {
    ExtendOpen(seen + data[..p], data[p..]);
    assert seen + data[..p] + data[p..] == seen + data;
    assert data[..|data|] == data;
    assert NEWLINE !in data[p..|data| - 1] by {
      forall x | x in data[p..|data| - 1] ensures x in data[p..] {
      }
    }
  }

  lemma LastPiece(seen: Bytes, bytes: nat, data: Bytes, p: nat)
    requires Midway(seen, bytes, data, p) && NEWLINE !in data[p..]
    ensures seen + data[..p] + data[p..] == seen + data
    ensures ChargeFor(seen, bytes, data) == ChargeFor(seen, bytes, data[..p]) + |data[p..]|
  {
    assert data == data[..p] + data[p..];
  }

  lemma LinePiece(seen: Bytes, bytes: nat, data: Bytes, p: nat, idx: nat)
    requires Midway(seen, bytes, data, p) && p <= idx < |data| && data[idx] == NEWLINE && NEWLINE !in data[p..idx]
    ensures seen + data[..p] + data[p..idx] + [NEWLINE] == seen + data[..idx + 1]
    ensures Midway(seen, bytes, data, idx + 1)
    ensures ChargeFor(seen, bytes, data[..idx + 1]) ==
      ChargeFor(seen, bytes, data[..p]) + |Open(seen + data[..p])| + |data[p..idx]| + 1
  {
    CloseLine(seen + data[..p], data[p..idx]);
    assert data[..idx + 1][idx] == NEWLINE;
    if p == 0 {
      assert seen + data[..p] == seen;
    }
  }

  lemma LinePieceStops(seen: Bytes, bytes: nat, data: Bytes, max: int, p: nat, idx: nat)
    requires Midway(seen, bytes, data, p) && p <= idx < |data| && data[idx] == NEWLINE && NEWLINE !in data[p..idx]
    requires !Exceeds(max, ChargeFor(seen, bytes, data[..p]))
    ensures Exceeds(max, ChargeFor(seen, bytes, data[..idx + 1])) ==>
      HaltsIn(seen, bytes, data, max, p, idx + 1, Number(Closed(seen + data[..p]))) && Exceeds(max, ChargeFor(seen, bytes, data))
  {
    ChargeGrows(seen, bytes, data, idx + 1);
  }

  lemma ChargeGrows(seen: Bytes, bytes: nat, data: Bytes, p: nat)
    requires p <= |data|
    ensures ChargeFor(seen, bytes, data[..p]) <= ChargeFor(seen, bytes, data)
  {
    assert data == data[..p] + data[p..];
  }

  lemma NumberPrefix(seen: Bytes, data: Bytes, p: nat)
    requires p <= |data|
    ensures Number(Closed(seen + data[..p])) <= Number(Closed(seen + data))
  {
    ClosedPrefix(seen, data, p);
  }

  lemma {:induction false} ClosedPrefix(seen: Bytes, data: Bytes, p: nat)
    requires p <= |data|
    ensures Closed(seen + data[..p]) <= Closed(seen + data)
    decreases |data| - p
  {
    if p < |data| {
      ClosedPrefix(seen, data, p + 1);
      assert (seen + data[..p + 1])[..|seen| + p] == seen + data[..p];
    } else {
      assert data[..p] == data;
    }
  }

  method IndexNewline(data: Bytes, from: nat) returns (idx: int)
    requires from <= |data|
    ensures idx < 0 ==> NEWLINE !in data[from..]
    ensures idx >= 0 ==> from <= idx < |data| && data[idx] == NEWLINE && NEWLINE !in data[from..idx]
  {
    for i := from to |data|
      invariant NEWLINE !in data[from..i]
    {
      if data[i] == NEWLINE {
        return i;
      }
    }
    return -1;
  }

  /** Piece p..e of read i takes the charge over the limit. */
  ghost predicate StopsAt(parts: seq<Bytes>, max: int, i: int, p: int, e: int) {
    0 <= i < |parts| && StopsIn(Stream(parts[..i]), Charged(parts, i), parts[i], max, p, e)
  }

  /** The lines closed before that piece. */
  function LinesBefore(parts: seq<Bytes>, i: nat, p: nat): seq<Bytes>
    requires i < |parts| && p <= |parts[i]|
  {
    Closed(Stream(parts[..i]) + parts[i][..p])
  }

  /** However the input is cut into reads: exactly its lines, correctly numbered, unless
      the charge passes the limit. */
  method ScanChunked(parts: seq<Bytes>, ending: Ending, max: int, quarantineOnError: bool) returns (r: Result)
    ensures r.OverLimit? <==> max > 0 && Charged(parts, |parts|) > max
    ensures r.OverLimit? ==> r.evaluated <= Number(Closed(Stream(parts))) && r.quarantined == quarantineOnError
    ensures r.OverLimit? ==> exists i, p, e :: StopsAt(parts, max, i, p, e) && r.evaluated == Number(LinesBefore(parts, i, p))
    ensures r.Finished? ==> r.evaluated == Number(Lines(Stream(parts))) && r.linesRead == |r.evaluated|
    ensures r.Finished? ==> r.bytesRead == Charged(parts, |parts|)
    ensures !r.OverLimit? ==> (r.Finished? <==> ending.Eof?) && (r.ReadFailed? <==> ending.Broken?) && (r.Stopped? <==> ending.Cancelled?)
  {
    var rd := new Reader();
    for i := 0 to |parts|
      invariant fresh(rd) && rd.Holds(Stream(parts[..i]), Charged(parts, i)) && !Exceeds(max, rd.bytesRead)
    {
      var ok := rd.Consume(parts[i], max, Stream(parts[..i]), Charged(parts, i));
      OneMorePart(parts, i);
      if !ok {
        ghost var p, e :| HaltsIn(Stream(parts[..i]), Charged(parts, i), parts[i], max, p, e, rd.evaluated);
        NumberPrefix(Stream(parts[..i]), parts[i], p);
        assert StopsAt(parts, max, i, p, e) && rd.evaluated == Number(LinesBefore(parts, i, p));
        return OverLimit(rd.evaluated, quarantineOnError);
      }
    }
    assert parts[..|parts|] == parts;
    if ending.Broken? {
      return ReadFailed;
    }
    if ending.Cancelled? {
      return Stopped;
    }
    if |rd.lineBuf| > 0 {
      return Finished(rd.evaluated + [Numbered(rd.lineNum + 1, rd.lineBuf)], rd.linesRead + 1, rd.bytesRead);
    }
    return Finished(rd.evaluated, rd.linesRead, rd.bytesRead);
  }

  lemma OneMorePart(parts: seq<Bytes>, i: nat)
    requires i < |parts|
    ensures Stream(parts[..i + 1]) == Stream(parts[..i]) + parts[i]
    ensures Charged(parts, i + 1) == ChargeFor(Stream(parts[..i]), Charged(parts, i), parts[i])
    ensures Charged(parts, i + 1) <= Charged(parts, |parts|)
    ensures Number(Closed(Stream(parts[..i + 1]))) <= Number(Closed(Stream(parts)))
  {
    assert parts[..i + 1][..i] == parts[..i];
    ChargedMonotone(parts, i + 1, |parts|);
    StreamClosedPrefix(parts, i + 1);
  }

  lemma {:induction false} StreamClosedPrefix(parts: seq<Bytes>, i: nat)
    requires i <= |parts|
    ensures Closed(Stream(parts[..i])) <= Closed(Stream(parts))
    decreases |parts| - i
  {
    if i < |parts| {
      StreamClosedPrefix(parts, i + 1);
      assert parts[..i + 1][..i] == parts[..i];
      ClosedPrefix(Stream(parts[..i]), parts[i], 0);
      assert Stream(parts[..i]) + parts[i][..0] == Stream(parts[..i]);
    } else {
      assert parts[..i] == parts;
    }
  }

  lemma {:induction false} ChargePrefix(seen: Bytes, bytes: nat, data: Bytes, p: nat, q: nat)
    requires p <= q <= |data|
    ensures ChargeFor(seen, bytes, data[..p]) <= ChargeFor(seen, bytes, data[..q])
  {
    assert data[..q][..p] == data[..p];
    ChargeGrows(seen, bytes, data[..q], p);
  }

  /** Later pieces of a read start only after this one ends. */
  lemma PiecesInOrder(data: Bytes, p: int, e: int, q: int, f: int)
    requires NextPiece(data, p, e) && NextPiece(data, q, f)
    ensures p < q ==> e <= q
    ensures p == q ==> e == f
  {
  }

  lemma LaterReadIsOver(parts: seq<Bytes>, max: int, i: int, p: int, e: int, j: int, q: int, f: int)
    requires StopsAt(parts, max, i, p, e) && StopsAt(parts, max, j, q, f)
    ensures j <= i
  {
    if i < j {
      ChargeGrows(Stream(parts[..i]), Charged(parts, i), parts[i], e);
      OneMorePart(parts, i);
      ChargedMonotone(parts, i + 1, j);
    }
  }

  /** There is only one piece at which a scan can stop. */
  lemma StopIsUnique(parts: seq<Bytes>, max: int, i: int, p: int, e: int, j: int, q: int, f: int)
    requires StopsAt(parts, max, i, p, e) && StopsAt(parts, max, j, q, f)
    ensures i == j && p == q && e == f
  {
    LaterReadIsOver(parts, max, i, p, e, j, q, f);
    LaterReadIsOver(parts, max, j, q, f, i, p, e);
    var data := parts[i];
    PiecesInOrder(data, p, e, q, f);
    PiecesInOrder(data, q, f, p, e);
    if p < q {
      ChargePrefix(Stream(parts[..i]), Charged(parts, i), data, e, q);
    } else if q < p {
      ChargePrefix(Stream(parts[..i]), Charged(parts, i), data, f, p);
    }
  }

  /** A scan that ended without hitting the limit had input within it. */
  lemma WithinLimit(parts: seq<Bytes>, max: int)
    requires max > 0 && !Exceeds(max, Charged(parts, |parts|))
    ensures |Stream(parts)| <= max
  {
    ChargedAtLeast(parts, |parts|);
    assert parts[..|parts|] == parts;
  }

  /** The converse fails: three bytes split before the newline are charged as five. */
  lemma SmallInputOverLimit(a: byte)
    requires a != NEWLINE
    ensures |Stream([[a, a], [NEWLINE]])| == 3 && Exceeds(3, Charged([[a, a], [NEWLINE]], 2))
  {
    var parts := [[a, a], [NEWLINE]];
    assert parts[..1] == [[a, a]] && [[a, a]][..0] == [] && parts[..0] == [];
    assert Stream(parts[..0]) == [] && Stream([[a, a]]) == [a, a];
    ExtendOpen([], [a, a]);
    assert [] + [a, a] == [a, a];
    assert Charged(parts, 1) == 2;
  }
}
