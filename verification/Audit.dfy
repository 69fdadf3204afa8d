/** The tamper-evident audit log (internal/audit/logger.go). */
module Audit {
  import opened Ordering

  /** JSON-like event data; a Go map may also be nil. */
  datatype Value =
    | Null
    | Bool(b: bool)
    | Num(n: int)
    | Str(s: string)
    | List(items: seq<Value>)
    | Dict(entries: map<string, Value>)
    | NilDict

  /** The tree handed to the JSON encoder; pairs are the `{"k":..,"v":..}` objects. */
  datatype Json =
    | JNull
    | JBool(b: bool)
    | JNum(n: int)
    | JStr(s: string)
    | JList(items: seq<Json>)
    | JPair(k: string, v: Json)

  ghost function Canonicalize(v: Value): (j: Json)
    ensures !j.JPair?
  {
    match v
    case Null => JNull
    case Bool(b) => JBool(b)
    case Num(n) => JNum(n)
    case Str(s) => JStr(s)
    case List(items) => JList(seq(|items|, i requires 0 <= i < |items| => Canonicalize(items[i])))
    case Dict(m) =>
      var keys := SortedKeys(m.Keys);
      assert forall i :: 0 <= i < |keys| ==> keys[i] in Elems(keys);
      JList(seq(|keys|, i requires 0 <= i < |keys| => JPair(keys[i], Canonicalize(m[keys[i]]))))
    case NilDict => JList([])
  }

  /** Collecting the keys in whatever order the map yields them, then sorting. */
  method CanonicalKeys(m: map<string, Value>) returns (keys: seq<string>)
    ensures keys == SortedKeys(m.Keys)
  {
    keys := [];
    var left := m.Keys;
    while left != {}
      invariant left <= m.Keys && NoDup(keys)
      invariant forall k :: k in keys <==> k in m && k !in left
    {
      var k :| k in left;
      left := left - {k};
      keys := keys + [k];
    }
    assert Elems(keys) == m.Keys;
    SortEnumeration(keys, m.Keys);
    keys := SortStrings(keys);
  }

  // ---------- what canonical form identifies ----------

  predicate Blank(v: Value) {
    v.NilDict? || v == Dict(map[]) || v == List([])
  }

  /** Equal except that nil map, empty map and empty list are interchangeable at any depth. */
  ghost predicate Equivalent(a: Value, b: Value) {
    || (Blank(a) && Blank(b))
    || (match a
        case List(xs) => b.List? && |xs| == |b.items| && forall i :: 0 <= i < |xs| ==> Equivalent(xs[i], b.items[i])
        case Dict(m) => b.Dict? && m.Keys == b.entries.Keys && forall k :: k in m ==> Equivalent(m[k], b.entries[k])
        case _ => a == b)
  }

  lemma {:induction false} CanonicalIffEquivalent(a: Value, b: Value)
    ensures Canonicalize(a) == Canonicalize(b) <==> Equivalent(a, b)
    decreases a, 1
  {
    if Blank(a) || Blank(b) {
      BlankIff(a, b);
    } else if a.List? && b.List? {
      ListsIff(a, b);
    } else if a.Dict? && b.Dict? {
      DictsIff(a, b);
    } else {
      DifferentKinds(a, b);
    }
  }

  lemma {:induction false} BlankIff(a: Value, b: Value)
    requires Blank(a) || Blank(b)
    ensures Canonicalize(a) == Canonicalize(b) <==> Equivalent(a, b)
  {
    BlankCanon(a);
    BlankCanon(b);
    if !Blank(a) {
      OnlyBlankIsBlank(b, a);
    } else if !Blank(b) {
      OnlyBlankIsBlank(a, b);
    }
  }

  lemma {:induction false} OnlyBlankIsBlank(a: Value, b: Value)
    requires Blank(a) && !Blank(b)
    ensures !Equivalent(a, b) && !Equivalent(b, a)
  {
  }

  /** Neither blank, and not two lists or two maps: alike only when the same scalar. */
  lemma {:induction false} DifferentKinds(a: Value, b: Value)
    requires !Blank(a) && !Blank(b) && !(a.List? && b.List?) && !(a.Dict? && b.Dict?)
    ensures Canonicalize(a) == Canonicalize(b) <==> Equivalent(a, b)
  {
    if a.Dict? {
      DictHead(a.entries);
      NotPairs(b);
    } else if b.Dict? {
      DictHead(b.entries);
      NotPairs(a);
    }
  }

  /** Canonical lists of lists hold no pairs. */
  lemma {:induction false} NotPairs(v: Value)
    requires !v.Dict?
    ensures var j := Canonicalize(v); j.JList? && j.items != [] ==> !j.items[0].JPair?
  {
  }

  lemma {:induction false} BlankCanon(v: Value)
    ensures Canonicalize(v) == JList([]) <==> Blank(v)
  {
    match v
    case List(items) => ListLength(items);
    case Dict(m) => DictLength(m);
    case _ =>
  }

  lemma {:induction false} ListLength(items: seq<Value>)
    ensures var j := Canonicalize(List(items)); j.JList? && |j.items| == |items|
  {
  }

  lemma {:induction false} DictLength(m: map<string, Value>)
    ensures var j := Canonicalize(Dict(m)); j.JList? && |j.items| == |m.Keys|
    ensures |m.Keys| == 0 <==> m == map[]
  {
    assert |SortedKeys(m.Keys)| == |m.Keys|;
    assert |m.Keys| == 0 ==> forall k :: k in m ==> k in m.Keys;
  }

  /** A non-empty map's canonical list starts with a pair, which no list element is. */
  lemma DictHead(m: map<string, Value>)
    requires m != map[]
    ensures var j := Canonicalize(Dict(m)); j.JList? && j.items != [] && j.items[0].JPair?
  {
    DictLength(m);
    DictPairs(m);
  }

  lemma {:induction false} ListsIff(a: Value, b: Value)
    requires a.List? && b.List? && !Blank(a) && !Blank(b)
    ensures Canonicalize(a) == Canonicalize(b) <==> Equivalent(a, b)
    decreases a, 0
  {
    var p, q := Canonicalize(a).items, Canonicalize(b).items;
    forall i | 0 <= i < |a.items| && i < |b.items| ensures p[i] == q[i] <==> Equivalent(a.items[i], b.items[i]) {
      CanonicalIffEquivalent(a.items[i], b.items[i]);
    }
    if |a.items| == |b.items| && Equivalent(a, b) {
      assert p == q;
    }
  }

  ghost predicate PairsOf(p: seq<Json>, ks: seq<string>, m: map<string, Value>) {
    |p| == |ks| && forall i :: 0 <= i < |ks| ==> ks[i] in m && p[i] == JPair(ks[i], Canonicalize(m[ks[i]]))
  }

  lemma {:induction false} DictPairs(m: map<string, Value>)
    ensures Canonicalize(Dict(m)).JList? && PairsOf(Canonicalize(Dict(m)).items, SortedKeys(m.Keys), m)
  {
    var keys, p := SortedKeys(m.Keys), Canonicalize(Dict(m)).items;
    forall i | 0 <= i < |keys| ensures keys[i] in m && p[i] == JPair(keys[i], Canonicalize(m[keys[i]])) {
      assert keys[i] in Elems(keys);
    }
  }

  lemma {:induction false} SamePairs(p: seq<Json>, ks: seq<string>, ls: seq<string>, m: map<string, Value>, n: map<string, Value>)
    requires PairsOf(p, ks, m) && PairsOf(p, ls, n)
    ensures ks == ls
    ensures forall k :: k in ks ==> k in m && k in n && Canonicalize(m[k]) == Canonicalize(n[k])
  {
    forall i | 0 <= i < |ks| ensures ks[i] == ls[i] {
      assert p[i].k == ks[i] && p[i].k == ls[i];
    }
    forall k | k in ks ensures k in m && k in n && Canonicalize(m[k]) == Canonicalize(n[k]) {
      var i :| 0 <= i < |ks| && ks[i] == k;
      assert p[i].v == Canonicalize(m[ks[i]]) && p[i].v == Canonicalize(n[ls[i]]);
    }
  }

  lemma {:induction false} DictCanonSame(m: map<string, Value>, n: map<string, Value>)
    requires Canonicalize(Dict(m)) == Canonicalize(Dict(n))
    ensures m.Keys == n.Keys && forall k :: k in m ==> Canonicalize(m[k]) == Canonicalize(n[k])
  {
    DictPairs(m);
    DictPairs(n);
    var ks := SortedKeys(m.Keys);
    SamePairs(Canonicalize(Dict(m)).items, ks, SortedKeys(n.Keys), m, n);
    assert m.Keys == Elems(ks) == n.Keys;
    assert forall k :: k in ks <==> k in Elems(ks);
  }

  lemma {:induction false} DictCanonFrom(m: map<string, Value>, n: map<string, Value>)
    requires m.Keys == n.Keys && forall k :: k in m ==> Canonicalize(m[k]) == Canonicalize(n[k])
    ensures Canonicalize(Dict(m)) == Canonicalize(Dict(n))
  {
    DictPairs(m);
    DictPairs(n);
    PairsUnique(Canonicalize(Dict(m)).items, Canonicalize(Dict(n)).items, SortedKeys(m.Keys), m, n);
  }

  lemma {:induction false} PairsUnique(p: seq<Json>, q: seq<Json>, ks: seq<string>, m: map<string, Value>, n: map<string, Value>)
    requires PairsOf(p, ks, m) && PairsOf(q, ks, n)
    requires forall k :: k in m && k in n ==> Canonicalize(m[k]) == Canonicalize(n[k])
    ensures p == q
  {
    forall i | 0 <= i < |ks| ensures p[i] == q[i] {
      assert ks[i] in m && ks[i] in n;
    }
  }

  lemma {:induction false} DictsIff(a: Value, b: Value)
    requires a.Dict? && b.Dict? && !Blank(a) && !Blank(b)
    ensures Canonicalize(a) == Canonicalize(b) <==> Equivalent(a, b)
    decreases a, 0
  {
    var m, n := a.entries, b.entries;
    forall k | k in m && k in n ensures Canonicalize(m[k]) == Canonicalize(n[k]) <==> Equivalent(m[k], n[k]) {
      CanonicalIffEquivalent(m[k], n[k]);
    }
    if Canonicalize(a) == Canonicalize(b) {
      DictCanonSame(m, n);
    } else if Equivalent(a, b) {
      DictCanonFrom(m, n);
    }
  }

  // ---------- sanitising ----------

  /** `SanitizeMap` and `sanitizeValue`: every string value redacted, keys untouched. */
  function Sanitize(redact: string -> string, v: Value): Value {
    match v
    case Str(s) => Str(redact(s))
    case List(items) => List(seq(|items|, i requires 0 <= i < |items| => Sanitize(redact, items[i])))
    case Dict(m) => Dict(map k | k in m :: Sanitize(redact, m[k]))
    case _ => v
  }

  /** w is v with every string redacted: the same shape, keys and scalars at every depth. */
  ghost predicate Redacted(redact: string -> string, v: Value, w: Value) {
    match v
    case Str(s) => w == Str(redact(s))
    case List(items) => w.List? && |w.items| == |items| && forall i :: 0 <= i < |items| ==> Redacted(redact, items[i], w.items[i])
    case Dict(m) => w.Dict? && w.entries.Keys == m.Keys && forall k :: k in m ==> Redacted(redact, m[k], w.entries[k])
    case _ => w == v
  }

  lemma {:induction false} SanitizeRedacts(redact: string -> string, v: Value)
    ensures Redacted(redact, v, Sanitize(redact, v))
  {
    match v
    case List(items) =>
      forall i | 0 <= i < |items| ensures Redacted(redact, items[i], Sanitize(redact, items[i])) {
        SanitizeRedacts(redact, items[i]);
      }
    case Dict(m) =>
      forall k | k in m ensures Redacted(redact, m[k], Sanitize(redact, m[k])) {
        SanitizeRedacts(redact, m[k]);
      }
    case _ =>
  }

  /** The relation leaves no choice. */
  lemma {:induction false} RedactedUnique(redact: string -> string, v: Value, w: Value, x: Value)
    requires Redacted(redact, v, w) && Redacted(redact, v, x)
    ensures w == x
  {
    match v
    case List(items) =>
      forall i | 0 <= i < |items| ensures w.items[i] == x.items[i] {
        RedactedUnique(redact, items[i], w.items[i], x.items[i]);
      }
      assert w.items == x.items;
    case Dict(m) =>
      forall k | k in m ensures w.entries[k] == x.entries[k] {
        RedactedUnique(redact, m[k], w.entries[k], x.entries[k]);
      }
      assert w.entries == x.entries;
    case _ =>
  }

  lemma {:induction false} RedactedBySelf(redact: string -> string, v: Value)
    requires forall s :: redact(s) == s
    ensures Redacted(redact, v, v)
  {
    match v
    case List(items) =>
      forall i | 0 <= i < |items| ensures Redacted(redact, items[i], items[i]) {
        RedactedBySelf(redact, items[i]);
      }
    case Dict(m) =>
      forall k | k in m ensures Redacted(redact, m[k], m[k]) {
        RedactedBySelf(redact, m[k]);
      }
    case _ =>
  }

  /** Data without anything to redact is written as it is. */
  lemma NothingElseChanges(redact: string -> string, v: Value)
    requires forall s :: redact(s) == s
    ensures Sanitize(redact, v) == v
  {
    SanitizeRedacts(redact, v);
    RedactedBySelf(redact, v);
    RedactedUnique(redact, v, Sanitize(redact, v), v);
  }

  ghost predicate AllStrings(v: Value, ok: string -> bool) {
    match v
    case Str(s) => ok(s)
    case List(items) => forall i :: 0 <= i < |items| ==> AllStrings(items[i], ok)
    case Dict(m) => forall k :: k in m ==> AllStrings(m[k], ok)
    case _ => true
  }

  lemma {:induction false} SanitizedStrings(redact: string -> string, v: Value, ok: string -> bool)
    requires forall s :: ok(redact(s))
    ensures AllStrings(Sanitize(redact, v), ok)
  {
    match v
    case List(items) =>
      forall i | 0 <= i < |items| ensures AllStrings(Sanitize(redact, items[i]), ok) {
        SanitizedStrings(redact, items[i], ok);
      }
    case Dict(m) =>
      forall k | k in m ensures AllStrings(Sanitize(redact, m[k]), ok) {
        SanitizedStrings(redact, m[k], ok);
      }
    case _ =>
  }

  // ---------- the chain ----------

  datatype Event = Event(timestamp: int, kind: string, data: Value, hash: string, prevHash: string)

  datatype Payload = Payload(t: int, y: string, d: Json, p: string)

  ghost function PayloadOf(e: Event): Payload {
    Payload(e.timestamp, e.kind, Canonicalize(e.data), e.prevHash)
  }

  ghost function EndHash(log: seq<Event>): string {
    if log == [] then "" else log[|log| - 1].hash
  }

  /** Event i carries its own digest and the hash of the event before it. */
  ghost predicate Linked(hash: Payload -> string, log: seq<Event>, i: int)
    requires 0 <= i < |log|
  {
    log[i].prevHash == EndHash(log[..i]) && log[i].hash == hash(PayloadOf(log[i]))
  }

  ghost predicate WellFormed(hash: Payload -> string, log: seq<Event>) {
    forall i :: 0 <= i < |log| ==> Linked(hash, log, i)
  }

  /** An ideal digest: no collisions and never the empty string. */
  ghost predicate Ideal(hash: Payload -> string) {
    && (forall x, y :: hash(x) == hash(y) ==> x == y)
    && (forall x :: hash(x) != "")
  }

  ghost predicate SameEvent(a: Event, b: Event) {
    && a.timestamp == b.timestamp && a.kind == b.kind && Equivalent(a.data, b.data)
    && a.hash == b.hash && a.prevHash == b.prevHash
  }

  lemma SameHashSameEvent(hash: Payload -> string, a: Event, b: Event)
    requires Ideal(hash) && a.hash == hash(PayloadOf(a)) && b.hash == hash(PayloadOf(b)) && a.hash == b.hash
    ensures SameEvent(a, b)
  {
    assert PayloadOf(a) == PayloadOf(b);
    CanonicalIffEquivalent(a.data, b.data);
  }

  /** Two well-formed logs ending in the same hash agree event by event. */
  lemma {:induction false} TamperEvident(hash: Payload -> string, a: seq<Event>, b: seq<Event>)
    requires Ideal(hash) && WellFormed(hash, a) && WellFormed(hash, b)
    requires EndHash(a) == EndHash(b)
    ensures |a| == |b| && forall i :: 0 <= i < |a| ==> SameEvent(a[i], b[i])
    decreases |a|
  {
    EndHashBlank(hash, a);
    EndHashBlank(hash, b);
    if a != [] {
      var x, y := |a| - 1, |b| - 1;
      assert Linked(hash, a, x) && Linked(hash, b, y);
      SameHashSameEvent(hash, a[x], b[y]);
      PrefixWellFormed(hash, a);
      PrefixWellFormed(hash, b);
      TamperEvident(hash, a[..x], b[..y]);
      forall i | 0 <= i < x ensures SameEvent(a[i], b[i]) {
        assert SameEvent(a[..x][i], b[..y][i]);
      }
    }
  }

  lemma EndHashBlank(hash: Payload -> string, log: seq<Event>)
    requires Ideal(hash) && WellFormed(hash, log)
    ensures EndHash(log) == "" <==> log == []
  {
    if log != [] {
      assert Linked(hash, log, |log| - 1);
    }
  }

  lemma PrefixWellFormed(hash: Payload -> string, log: seq<Event>)
    requires log != [] && WellFormed(hash, log)
    ensures WellFormed(hash, log[..|log| - 1])
  {
    var init := log[..|log| - 1];
    forall i | 0 <= i < |init| ensures Linked(hash, init, i) {
      assert init[..i] == log[..i] && Linked(hash, log, i);
    }
  }

  lemma AppendWellFormed(hash: Payload -> string, log: seq<Event>, e: Event)
    requires WellFormed(hash, log) && e.prevHash == EndHash(log) && e.hash == hash(PayloadOf(e))
    ensures WellFormed(hash, log + [e])
  {
    var log' := log + [e];
    forall i | 0 <= i < |log'| ensures Linked(hash, log', i) {
      assert i < |log| ==> log'[..i] == log[..i] && Linked(hash, log, i);
      assert i == |log| ==> log'[..i] == log;
    }
  }

  /** `FileLogger`; `written` is what the encoder accepted so far. */
  class FileLogger {
    ghost const hash: Payload -> string
    const redact: string -> string
    var prevSum: string
    ghost var written: seq<Event>

    constructor (ghost hash: Payload -> string, redact: string -> string)
      ensures Valid() && written == [] && this.hash == hash && this.redact == redact
    {
      this.hash := hash;
      this.redact := redact;
      prevSum := "";
      written := [];
    }

    ghost predicate Valid() reads this {
      WellFormed(hash, written) && prevSum == EndHash(written)
    }

    /** `digest` is what `hashEvent` returned for the stamped event and `accepted`
        whether the encoder wrote it. */
    method Log(kind: string, data: Value, now: int, digest: string, accepted: bool)
      requires Valid()
      requires digest == hash(Payload(now, kind, Canonicalize(Sanitize(redact, data)), prevSum))
      modifies this
      ensures Valid()
      ensures !accepted ==> prevSum == old(prevSum) && written == old(written)
      ensures accepted ==>
        written == old(written) + [Event(now, kind, Sanitize(redact, data), digest, old(prevSum))]
      ensures accepted ==> written != [] && Redacted(redact, data, written[|written| - 1].data)
    {
      var clean := if data.NilDict? then data else Sanitize(redact, data);
      var e := Event(now, kind, clean, digest, prevSum);
      if !accepted {
        return;
      }
      AppendWellFormed(hash, written, e);
      SanitizeRedacts(redact, data);
      prevSum := e.hash;
      written := written + [e];
    }
  }
}
