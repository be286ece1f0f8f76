/** The string operations the models rely on: order, decimals, joining, and sorted key lists. */
module Strings {

  // ---------- Order ----------

  /** strings.Compare(a, b) < 0 */
  predicate Before(a: string, b: string) {
    b != [] && (a == [] || a[0] < b[0] || (a[0] == b[0] && Before(a[1..], b[1..])))
  }

  lemma {:induction false} BeforeIsTransitive(a: string, b: string, c: string)
    requires Before(a, b) && Before(b, c)
    ensures Before(a, c)
  {
    if a != [] && a[0] == b[0] == c[0] {
      BeforeIsTransitive(a[1..], b[1..], c[1..]);
    }
  }

  lemma {:induction false} BeforeIsTotal(a: string, b: string)
    ensures a == b || Before(a, b) || Before(b, a)
    ensures !(Before(a, b) && Before(b, a)) && !Before(a, a)
  {
    if a != [] {
      BeforeIsTotal(a[1..], a[1..]);
      if b != [] {
        BeforeIsTotal(a[1..], b[1..]);
        assert a == [a[0]] + a[1..] && b == [b[0]] + b[1..];
      }
    }
  }

  // ---------- Decimals ----------

  function Digit(d: nat): char
    requires d < 10
  {
    '0' + d as char
  }

  /** %d */
  function Decimal(n: nat): string {
    if n < 10 then [Digit(n)] else Decimal(n / 10) + [Digit(n % 10)]
  }

  /** %0wd, for an n with at most w digits */
  function Padded(n: nat, w: nat): string {
    if w == 0 then [] else Padded(n / 10, w - 1) + [Digit(n % 10)]
  }

  predicate IsDigit(c: char) {
    '0' <= c <= '9'
  }

  ghost function Value(s: string): nat {
    if s == [] then 0
    else 10 * Value(s[..|s| - 1]) + (if IsDigit(s[|s| - 1]) then (s[|s| - 1] - '0') as nat else 0)
  }

  lemma ValueOfAppended(s: string, d: nat)
    requires d < 10
    ensures Value(s + [Digit(d)]) == 10 * Value(s) + d
  {
    assert (s + [Digit(d)])[..|s|] == s;
  }

  lemma {:induction false} DecimalReads(n: nat)
    ensures Value(Decimal(n)) == n && Decimal(n) != []
    ensures forall i | 0 <= i < |Decimal(n)| :: IsDigit(Decimal(n)[i])
  {
    if n < 10 {
      assert [] + [Digit(n)] == [Digit(n)];
      ValueOfAppended([], n);
    } else {
      DecimalReads(n / 10);
      ValueOfAppended(Decimal(n / 10), n % 10);
    }
  }

  lemma DecimalIsInjective(m: nat, n: nat)
    requires Decimal(m) == Decimal(n)
    ensures m == n
  {
    DecimalReads(m);
    DecimalReads(n);
  }

  function Pow10(w: nat): nat {
    if w == 0 then 1 else 10 * Pow10(w - 1)
  }

  lemma {:induction false} PaddedReads(n: nat, w: nat)
    requires n < Pow10(w)
    ensures |Padded(n, w)| == w && Value(Padded(n, w)) == n
    ensures forall i | 0 <= i < w :: IsDigit(Padded(n, w)[i])
  {
    if w > 0 {
      PaddedReads(n / 10, w - 1);
      ValueOfAppended(Padded(n / 10, w - 1), n % 10);
    }
  }

  /** Strings that differ inside a common frame compare like their differing middles. */
  lemma {:induction false} BeforeInFrame(front: string, x: string, y: string, a: string, b: string)
    requires Before(x, y) && |x| == |y|
    ensures Before(front + x + a, front + y + b)
    decreases |front| + |x|
  {
    var s, t := front + x + a, front + y + b;
    if front != [] {
      BeforeInFrame(front[1..], x, y, a, b);
      assert s[1..] == front[1..] + x + a && t[1..] == front[1..] + y + b;
    } else if x[0] == y[0] {
      BeforeInFrame([], x[1..], y[1..], a, b);
      assert s[1..] == [] + x[1..] + a && t[1..] == [] + y[1..] + b;
    } else {
      assert s[0] == x[0] && t[0] == y[0];
    }
  }

  lemma EmptyFront(x: string, y: string)
    ensures [] + x + y == x + y
  {
  }

  lemma {:induction false} BeforeBehind(front: string, x: string, y: string)
    requires Before(x, y)
    ensures Before(front + x, front + y)
  {
    if front == [] {
      assert front + x == x && front + y == y;
    } else {
      BeforeBehind(front[1..], x, y);
      assert (front + x)[1..] == front[1..] + x && (front + y)[1..] == front[1..] + y;
    }
  }

  /** Padded numbers sort as numbers. */
  lemma {:induction false} PaddedKeepsOrder(m: nat, n: nat, w: nat)
    requires m < n < Pow10(w)
    ensures Before(Padded(m, w), Padded(n, w))
  {
    hide Before, Digit;
    PaddedReads(m / 10, w - 1);
    PaddedReads(n / 10, w - 1);
    var p, q := Padded(m / 10, w - 1), Padded(n / 10, w - 1);
    if m / 10 < n / 10 {
      PaddedKeepsOrder(m / 10, n / 10, w - 1);
      BeforeInFrame([], p, q, [Digit(m % 10)], [Digit(n % 10)]);
      EmptyFront(p, [Digit(m % 10)]);
      EmptyFront(q, [Digit(n % 10)]);
    } else {
      DigitsKeepOrder(m % 10, n % 10);
      BeforeBehind(p, [Digit(m % 10)], [Digit(n % 10)]);
    }
  }

  lemma DigitsKeepOrder(a: nat, b: nat)
    requires a < b < 10
    ensures Before([Digit(a)], [Digit(b)])
  {
  }

  // ---------- Joining ----------

  function Join(parts: seq<string>, sep: char): string {
    if parts == [] then []
    else if |parts| == 1 then parts[0]
    else parts[0] + [sep] + Join(parts[1..], sep)
  }

  ghost predicate Separable(parts: seq<string>, sep: char) {
    forall i | 0 <= i < |parts| :: parts[i] != [] && sep !in parts[i]
  }

  /** Where the first separator stands tells the first part. */
  lemma FirstPartIsUnique(a: string, a': string, b: string, b': string, sep: char)
    requires sep !in a && sep !in b && a + [sep] + a' == b + [sep] + b'
    ensures a == b && a' == b'
  {
    var s := a + [sep] + a';
    assert s[|a|] == sep && s[|b|] == sep;
    assert forall i | 0 <= i < |a| :: s[i] == a[i] != sep;
    assert forall i | 0 <= i < |b| :: s[i] == b[i] != sep;
    assert a == s[..|a|] && b == s[..|b|];
    assert a' == s[|a| + 1..] && b' == s[|b| + 1..];
  }

  /** Joining loses nothing as long as no part is empty or holds the separator. */
  lemma {:induction false} JoinIsInjective(p: seq<string>, q: seq<string>, sep: char)
    requires Separable(p, sep) && Separable(q, sep) && Join(p, sep) == Join(q, sep)
    ensures p == q
    decreases |p|
  {
    SeparatorTellsParts(p, sep);
    SeparatorTellsParts(q, sep);
    if |p| > 1 {
      FirstPartIsUnique(p[0], Join(p[1..], sep), q[0], Join(q[1..], sep), sep);
      JoinIsInjective(p[1..], q[1..], sep);
      assert p == [p[0]] + p[1..] && q == [q[0]] + q[1..];
    }
  }

  lemma SeparatorTellsParts(p: seq<string>, sep: char)
    requires Separable(p, sep)
    ensures Join(p, sep) == [] <==> p == []
    ensures sep in Join(p, sep) <==> |p| > 1
  {
    if |p| > 1 {
      assert Join(p, sep)[|p[0]|] == sep;
    }
  }

  // ---------- Splitting ----------

  /** strings.Split */
  function Split(s: string, sep: char): (r: seq<string>)
    ensures r != []
  {
    if s == [] then [[]]
    else
      var rest := Split(s[1..], sep);
      if s[0] == sep then [[]] + rest else [[s[0]] + rest[0]] + rest[1..]
  }

  /** A part behind the last separator is the last part. */
  lemma {:induction false} SplitAtLast(a: string, b: string, sep: char)
    requires sep !in b
    ensures Split(a + [sep] + b, sep) == Split(a, sep) + [b]
  {
    var s := a + [sep] + b;
    if a == [] {
      assert s[1..] == b;
      SplitOfPlain(b, sep);
    } else {
      SplitAtLast(a[1..], b, sep);
      assert s[1..] == a[1..] + [sep] + b;
    }
  }

  lemma {:induction false} SplitOfPlain(s: string, sep: char)
    requires sep !in s
    ensures Split(s, sep) == [s]
  {
    if s != [] {
      SplitOfPlain(s[1..], sep);
      assert [s[0]] + s[1..] == s;
    }
  }

  lemma {:induction false} SplitAtFirst(a: string, b: string, sep: char)
    requires sep !in a
    ensures Split(a + [sep] + b, sep) == [a] + Split(b, sep)
  {
    var s := a + [sep] + b;
    if a == [] {
      assert s[1..] == b;
    } else {
      SplitAtFirst(a[1..], b, sep);
      assert s[1..] == a[1..] + [sep] + b;
      assert [s[0]] + a[1..] == a;
    }
  }

  // ---------- Sorted enumerations of a set ----------

  ghost predicate Ascending(s: seq<string>) {
    forall i, j | 0 <= i < j < |s| :: Before(s[i], s[j])
  }

  ghost predicate Enumerates(s: seq<string>, keys: set<string>) {
    forall k :: k in s <==> k in keys
  }

  /** There is only one ascending enumeration of a set. */
  lemma {:induction false} SortedIsUnique(a: seq<string>, b: seq<string>, keys: set<string>)
    requires Ascending(a) && Ascending(b) && Enumerates(a, keys) && Enumerates(b, keys)
    ensures a == b
    decreases |a|
  {
    assert forall i | 0 <= i < |b| :: b[i] in keys && b[i] in a;
    assert forall i | 0 <= i < |a| :: a[i] in keys && a[i] in b;
    if a != [] {
      assert a[0] == b[0] by { SmallestFirst(a, b[0]); SmallestFirst(b, a[0]); BeforeIsTotal(a[0], b[0]); }
      TailEnumerates(a, keys);
      TailEnumerates(b, keys);
      SortedIsUnique(a[1..], b[1..], keys - {a[0]});
      assert a == [a[0]] + a[1..] && b == [b[0]] + b[1..];
    }
  }

  lemma SmallestFirst(s: seq<string>, k: string)
    requires Ascending(s) && k in s
    ensures s[0] == k || Before(s[0], k)
  {
  }

  lemma TailEnumerates(s: seq<string>, keys: set<string>)
    requires Ascending(s) && Enumerates(s, keys) && s != []
    ensures Ascending(s[1..]) && Enumerates(s[1..], keys - {s[0]})
  {
    forall k ensures k in s[1..] <==> k in keys - {s[0]} {
      if k in s[1..] {
        var i :| 1 <= i < |s| && s[i] == k;
        BeforeIsTotal(s[0], s[i]);
        assert k in s;
      }
    }
  }

  /** Puts k in its place in an ascending list. */
  function Insert(s: seq<string>, k: string): seq<string> {
    if s == [] || Before(k, s[0]) then [k] + s else [s[0]] + Insert(s[1..], k)
  }

  lemma {:induction false} InsertKeepsOrder(s: seq<string>, k: string)
    requires Ascending(s) && k !in s
    ensures Ascending(Insert(s, k)) && forall x :: x in Insert(s, k) <==> x in s || x == k
  {
    if s != [] {
      if Before(k, s[0]) {
        forall j | 0 < j < |s| ensures Before(k, s[j]) {
          BeforeIsTransitive(k, s[0], s[j]);
        }
      } else {
        BeforeIsTotal(k, s[0]);
        InsertKeepsOrder(s[1..], k);
        forall j | 0 <= j < |Insert(s[1..], k)| ensures Before(s[0], Insert(s[1..], k)[j]) {
          assert Insert(s[1..], k)[j] in Insert(s[1..], k);
        }
        assert forall x :: x in s <==> x == s[0] || x in s[1..];
      }
    }
  }

  /** The ascending list of a set's elements. */
  ghost function Sorted(keys: set<string>): (r: seq<string>)
    ensures Ascending(r) && Enumerates(r, keys)
  {
    if keys == {} then [] else
    var k :| k in keys;
    InsertKeepsOrder(Sorted(keys - {k}), k);
    Insert(Sorted(keys - {k}), k)
  }

  /** Sorts the keys of a map, which come in any order. */
  method SortKeys(keys: set<string>) returns (r: seq<string>)
    ensures r == Sorted(keys)
  {
    r := [];
    var todo := keys;
    while todo != {}
      invariant todo <= keys && Ascending(r) && Enumerates(r, keys - todo)
      decreases todo
    {
      var k :| k in todo;
      InsertKeepsOrder(r, k);
      r := Insert(r, k);
      todo := todo - {k};
    }
    assert keys - todo == keys;
    SortedIsUnique(r, Sorted(keys), keys);
  }
}
