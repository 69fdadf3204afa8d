/** The formatted keys of `compiledSeen`, and exactly which rule ids can share one
    (internal/scanner/evaluate.go). */
module DedupKeys {

  function Decimal(n: nat): (s: string)
    ensures forall i :: 0 <= i < |s| ==> '0' <= s[i] <= '9'
    ensures |s| >= 1 && (|s| == 1 <==> n < 10)
  {
    var last := [('0' as int + n % 10) as char];
    if n < 10 then last else Decimal(n / 10) + last
  }

  lemma {:induction false} DecimalInjective(m: nat, n: nat)
    requires Decimal(m) == Decimal(n)
    ensures m == n
  {
    var s := Decimal(m);
    assert s[|s| - 1] == ('0' as int + m % 10) as char == ('0' as int + n % 10) as char;
    if m >= 10 {
      assert Decimal(m / 10) == s[..|s| - 1] == Decimal(n / 10);
      DecimalInjective(m / 10, n / 10);
    }
  }

  // ---------- texts joined by a bar ----------

  /** `x|y`. */
  function Join(x: string, y: string): string {
    if x == [] then ['|'] + y else [x[0]] + Join(x[1..], y)
  }

  lemma {:induction false} JoinIs(x: string, y: string)
    ensures Join(x, y) == x + "|" + y
  {
    if x != [] {
      JoinIs(x[1..], y);
      assert [x[0]] + (x[1..] + "|" + y) == x + "|" + y;
    } else {
      assert x + "|" == "|";
    }
  }

  lemma {:induction false} JoinAssociates(x: string, y: string, z: string)
    ensures Join(Join(x, y), z) == Join(x, Join(y, z))
  {
    if x != [] {
      JoinAssociates(x[1..], y, z);
      assert Join(x, y)[1..] == Join(x[1..], y);
    } else {
      assert Join(x, y)[1..] == y;
    }
  }

  lemma {:induction false} JoinAppends(x: string, y: string, z: string)
    ensures Join(x, y) + z == Join(x, y + z)
  {
    if x == [] {
      assert ['|'] + y + z == ['|'] + (y + z);
    } else {
      JoinAppends(x[1..], y, z);
      assert [x[0]] + Join(x[1..], y) + z == [x[0]] + (Join(x[1..], y) + z);
    }
  }

  /** Of two readings of one text, the longer first part continues the shorter one. */
  lemma {:induction false} JoinOverlap(a: string, x: string, b: string, y: string) returns (e: string)
    requires Join(a, x) == Join(b, y) && |a| <= |b|
    ensures |a| == |b| ==> a == b && x == y
    ensures |a| < |b| ==> b == Join(a, e) && x == Join(e, y)
  {
    var s := Join(a, x);
    e := [];
    if a == [] {
      assert s[1..] == x;
      if b == [] {
        assert s[1..] == y;
      } else {
        e := b[1..];
        assert s[0] == b[0] && s[1..] == Join(e, y);
        assert b == ['|'] + e;
      }
    } else {
      assert s[0] == a[0] == b[0] && s[1..] == Join(a[1..], x) == Join(b[1..], y);
      e := JoinOverlap(a[1..], x, b[1..], y);
      assert a == [a[0]] + a[1..] && b == [b[0]] + b[1..];
      assert |a| < |b| ==> Join(a, e) == [a[0]] + b[1..];
    }
  }

  lemma {:induction false} JoinHasBar(x: string, y: string)
    ensures '|' in Join(x, y)
  {
    if x != [] {
      JoinHasBar(x[1..], y);
    }
  }

  /** The text before the first bar, and after it, are determined. */
  lemma SplitFirst(a: string, b: string, x: string, y: string)
    requires '|' !in a && '|' !in b && Join(a, x) == Join(b, y)
    ensures a == b && x == y
  {
    if |a| <= |b| {
      var e := JoinOverlap(a, x, b, y);
      JoinHasBar(a, e);
    } else {
      var e := JoinOverlap(b, y, a, x);
      JoinHasBar(b, e);
    }
  }

  /** So are those around the last bar. */
  lemma SplitLast(a: string, b: string, x: string, y: string)
    requires '|' !in x && '|' !in y && Join(a, x) == Join(b, y)
    ensures a == b && x == y
  {
    if |a| <= |b| {
      var e := JoinOverlap(a, x, b, y);
      JoinHasBar(e, y);
    } else {
      var e := JoinOverlap(b, y, a, x);
      JoinHasBar(e, x);
    }
  }

  lemma {:induction false} FirstBar(s: string) returns (p: string, q: string)
    requires '|' in s
    ensures s == Join(p, q) && '|' !in p
  {
    if s[0] == '|' {
      p, q := "", s[1..];
      assert s == ['|'] + q;
    } else {
      p, q := FirstBar(s[1..]);
      p := [s[0]] + p;
      assert p[1..] + [] == p[1..];
    }
  }

  // ---------- keys ----------

  /** What a key is made from. */
  datatype Key = KeywordKey(id: string, line: nat, kw: string, index: nat) | AllKey(id: string, line: nat)

  const KW := "kw"

  function KeyRest(k: Key): string {
    match k
    case KeywordKey(_, _, kw, index) => Join(kw, Decimal(index))
    case AllKey(_, _) => "all"
  }

  /** What follows the id and its bar. */
  function KeyTail(k: Key): string {
    Join(Decimal(k.line), Join(KW, KeyRest(k)))
  }

  /** `%s|%d|kw|%s|%d` and `%s|%d|kw|all`. */
  function KeyText(k: Key): string {
    Join(k.id, KeyTail(k))
  }

  lemma NumberIsNotKeyword(n: nat)
    ensures '|' !in Decimal(n) && '|' !in KW && Decimal(n) != KW
  {
    assert KW[0] == 'k';
  }

  lemma RestDetermines(j: Key, k: Key)
    requires KeyRest(j) == KeyRest(k)
    ensures j.KeywordKey? <==> k.KeywordKey?
    ensures j.KeywordKey? && k.KeywordKey? ==> j.kw == k.kw && j.index == k.index
  {
    assert '|' !in "all";
    if j.KeywordKey? {
      JoinHasBar(j.kw, Decimal(j.index));
    }
    if k.KeywordKey? {
      JoinHasBar(k.kw, Decimal(k.index));
    }
    if j.KeywordKey? && k.KeywordKey? {
      NumberIsNotKeyword(j.index);
      NumberIsNotKeyword(k.index);
      SplitLast(j.kw, k.kw, Decimal(j.index), Decimal(k.index));
      DecimalInjective(j.index, k.index);
    }
  }

  // ---------- which ids can share a key on a line ----------

  function Stem(a: string, n: nat): string {
    Join(a, Join(Decimal(n), KW))
  }

  /** `b` is `a|n|kw`, or that followed by another bar and anything. */
  predicate Continues(a: string, b: string, n: nat) {
    var stem := Stem(a, n);
    b == stem || (|stem| < |b| && b == Join(stem, b[|stem| + 1..]))
  }

  predicate Clash(a: string, b: string, n: nat) {
    a == b || Continues(a, b, n) || Continues(b, a, n)
  }

  predicate SharesKey(j: Key, k: Key, a: string, b: string, n: nat) {
    j.id == a && k.id == b && j.line == n && k.line == n && KeyText(j) == KeyText(k)
  }

  lemma JoinContinues(a: string, n: nat, e: string)
    ensures Continues(a, Join(Stem(a, n), e), n)
  {
    JoinIs(Stem(a, n), e);
  }

  /** What one id has beyond the other is `n|kw`, or that and more after a bar. */
  lemma ExcessContinues(a: string, e: string, n: nat, tail: string, rest: string)
    requires Join(e, Join(Decimal(n), tail)) == Join(Decimal(n), Join(KW, rest))
    ensures Continues(a, Join(a, e), n)
  {
    NumberIsNotKeyword(n);
    var d, t := Decimal(n), Join(Decimal(n), tail);
    if '|' !in e {
      SplitFirst(e, d, t, Join(KW, rest));
      SplitFirst(d, KW, tail, rest);
    } else {
      var e1, e2 := FirstBar(e);
      JoinAssociates(e1, e2, t);
      SplitFirst(e1, d, Join(e2, t), Join(KW, rest));
      if '|' !in e2 {
        SplitFirst(e2, KW, t, rest);
      } else {
        var e3, e4 := FirstBar(e2);
        JoinAssociates(e3, e4, t);
        SplitFirst(e3, KW, Join(e4, t), rest);
        JoinAssociates(d, KW, e4);
        JoinAssociates(a, Join(d, KW), e4);
        JoinContinues(a, n, e4);
      }
    }
  }

  lemma SharedKeyContinues(j: Key, k: Key, n: nat)
    requires SharesKey(j, k, j.id, k.id, n) && |j.id| < |k.id|
    ensures Continues(j.id, k.id, n)
  {
    var e := JoinOverlap(j.id, KeyTail(j), k.id, KeyTail(k));
    ExcessContinues(j.id, e, n, Join(KW, KeyRest(k)), KeyRest(j));
  }

  /** `n|kw|` and then x, after e and a bar when there is more. */
  function Bridge(more: bool, e: string, n: nat, x: string): string {
    var y := Join(Decimal(n), Join(KW, x));
    if more then Join(e, y) else y
  }

  lemma BridgeAppends(more: bool, e: string, n: nat, x: string, z: string)
    ensures Bridge(more, e, n, x) + z == Bridge(more, e, n, x + z)
  {
    JoinAppends(KW, x, z);
    JoinAppends(Decimal(n), Join(KW, x), z);
    JoinAppends(e, Join(Decimal(n), Join(KW, x)), z);
  }

  lemma BridgeJoins(more: bool, e: string, n: nat, x: string, z: string)
    ensures Join(Bridge(more, e, n, x), z) == Bridge(more, e, n, Join(x, z))
  {
    JoinAssociates(KW, x, z);
    JoinAssociates(Decimal(n), Join(KW, x), z);
    JoinAssociates(e, Join(Decimal(n), Join(KW, x)), z);
  }

  lemma StemKey(a: string, n: nat, x: string)
    ensures Join(a, Join(Decimal(n), Join(KW, x))) == Join(Stem(a, n), x)
  {
    JoinAssociates(Decimal(n), KW, x);
    JoinAssociates(a, Join(Decimal(n), KW), x);
  }

  /** A keyword of `b`, and a longer one of `a` that swallows the excess of `b`, with equal keys. */
  lemma ContinuedKeys(a: string, b: string, n: nat) returns (piece: string)
    requires Continues(a, b, n)
    ensures SharesKey(KeywordKey(a, n, piece + piece, 0), KeywordKey(b, n, piece, 0), a, b, n)
  {
    var stem := Stem(a, n);
    var more := b != stem;
    var e := if more then b[|stem| + 1..] else "";
    piece := Bridge(more, e, n, "");
    BridgeAppends(more, e, n, "", piece);
    assert "" + piece == piece;
    BridgeJoins(more, e, n, piece, Decimal(0));
    StemKey(a, n, Join(piece + piece, Decimal(0)));
    JoinAssociates(stem, e, Join(Decimal(n), Join(KW, Join(piece, Decimal(0)))));
  }

  /** Two ids can share a key on a line exactly when they are equal or one continues the other. */
  lemma ShareKeyIff(a: string, b: string, n: nat)
    ensures (exists j, k :: SharesKey(j, k, a, b, n)) <==> Clash(a, b, n)
  {
    if j, k :| SharesKey(j, k, a, b, n) {
      KeyOwnersClash(j, k);
    }
    if a == b {
      assert SharesKey(AllKey(a, n), AllKey(a, n), a, b, n);
    } else if Continues(a, b, n) {
      var piece := ContinuedKeys(a, b, n);
    } else if Continues(b, a, n) {
      var piece := ContinuedKeys(b, a, n);
      assert SharesKey(KeywordKey(a, n, piece, 0), KeywordKey(b, n, piece + piece, 0), a, b, n);
    }
  }

  lemma KeyOwnersClash(j: Key, k: Key)
    requires j.line == k.line && KeyText(j) == KeyText(k)
    ensures Clash(j.id, k.id, j.line)
  {
    if |j.id| < |k.id| {
      SharedKeyContinues(j, k, j.line);
    } else if |k.id| < |j.id| {
      SharedKeyContinues(k, j, j.line);
    } else {
      var e := JoinOverlap(j.id, KeyTail(j), k.id, KeyTail(k));
    }
  }

  /** On one line, ids that do not continue each other have equal keys only for the same key. */
  lemma KeysInjective(j: Key, k: Key)
    requires j.line == k.line && KeyText(j) == KeyText(k)
    requires !Continues(j.id, k.id, j.line) && !Continues(k.id, j.id, j.line)
    ensures j == k
  {
    KeyOwnersClash(j, k);
    var e := JoinOverlap(j.id, KeyTail(j), k.id, KeyTail(k));
    e := JoinOverlap(Decimal(j.line), Join(KW, KeyRest(j)), Decimal(j.line), Join(KW, KeyRest(k)));
    e := JoinOverlap(KW, KeyRest(j), KW, KeyRest(k));
    RestDetermines(j, k);
  }

  /** In particular ids without a bar never clash. */
  lemma NoBarNoClash(a: string, b: string, n: nat)
    requires '|' !in a && '|' !in b && a != b
    ensures !Clash(a, b, n)
  {
    ContinuedHasBar(a, b, n);
    ContinuedHasBar(b, a, n);
  }

  lemma ContinuedHasBar(a: string, b: string, n: nat)
    ensures Continues(a, b, n) ==> '|' in b
  {
    JoinHasBar(a, Join(Decimal(n), KW));
    if Continues(a, b, n) && b != Stem(a, n) {
      JoinHasBar(Stem(a, n), b[|Stem(a, n)| + 1..]);
    }
  }

  /** A whole family of collisions: `a` with keyword `x|n|kw|y`, and `a|n|kw|x` with keyword `y`. */
  lemma KeysCollide(a: string, n: nat, x: string, y: string, i: nat)
    ensures KeyText(KeywordKey(a, n, Join(x, Join(Decimal(n), Join(KW, y))), i)) ==
      KeyText(KeywordKey(Join(a, Join(Decimal(n), Join(KW, x))), n, y, i))
  {
    var d, z := Decimal(n), Join(Decimal(n), Join(KW, Join(y, Decimal(i))));
    JoinAssociates(KW, y, Decimal(i));
    JoinAssociates(d, Join(KW, y), Decimal(i));
    JoinAssociates(x, Join(d, Join(KW, y)), Decimal(i));
    JoinAssociates(KW, x, z);
    JoinAssociates(d, Join(KW, x), z);
    JoinAssociates(a, Join(d, Join(KW, x)), z);
  }
}
