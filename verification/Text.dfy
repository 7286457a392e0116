/** Decimal numerals, the byte order on strings, and a stable sort by a string key. */
module Text {

  // ----- Decimal numerals

  function Digits(n: nat): (s: string)
    ensures s != [] && forall i :: 0 <= i < |s| ==> '0' <= s[i] <= '9'
  {
    var last := [('0' as int + n % 10) as char];
    if n < 10 then last else Digits(n / 10) + last
  }

  lemma {:induction false} DigitsInjective(m: nat, n: nat)
    ensures Digits(m) == Digits(n) ==> m == n
  {
    if Digits(m) == Digits(n) {
      var s := Digits(m);
      assert s[|s| - 1] as int == '0' as int + m % 10 == '0' as int + n % 10;
      assert (m < 10 <==> |s| == 1) && (n < 10 <==> |s| == 1);
      if m >= 10 && n >= 10 {
        assert Digits(m / 10) == s[..|s| - 1] == Digits(n / 10);
        DigitsInjective(m / 10, n / 10);
      }
    }
  }

  /** The number a decimal numeral stands for. */
  function NumberOf(s: string): int {
    if s == [] then 0 else 10 * NumberOf(s[..|s| - 1]) + (s[|s| - 1] as int - '0' as int)
  }

  /** Digits is the decimal numeral, without leading zeros. */
  lemma {:induction false} DigitsAreDecimal(n: nat)
    ensures NumberOf(Digits(n)) == n
    ensures |Digits(n)| > 1 ==> Digits(n)[0] != '0'
  {
    var s := Digits(n);
    if n >= 10 {
      DigitsAreDecimal(n / 10);
      assert s[..|s| - 1] == Digits(n / 10);
      if |Digits(n / 10)| == 1 {
        assert n / 10 < 10 && Digits(n / 10)[0] == ('0' as int + n / 10) as char;
      }
    } else {
      assert s[..0] == [] && NumberOf(s[..0]) == 0;
    }
  }

  /** Two texts cut at the first `c` are equal piece by piece. */
  lemma {:induction false} SplitFirst(a: string, b: string, x: string, y: string, c: char)
    requires c !in a && c !in b && a + [c] + x == b + [c] + y
    ensures a == b && x == y
  {
    var s := a + [c] + x;
    assert s[|a|] == c && s[|b|] == c;
    assert s[..|a|] == a && s[..|b|] == b;
    assert a == s[..|a|] && b == s[..|b|] && x == s[|a| + 1..] && y == s[|b| + 1..];
  }

  /** Two texts cut at the last `c` are equal piece by piece. */
  lemma {:induction false} SplitLast(a: string, b: string, x: string, y: string, c: char)
    requires c !in x && c !in y && a + [c] + x == b + [c] + y
    ensures a == b && x == y
  {
    var s := a + [c] + x;
    assert s[|a|] == c && s[|b|] == c;
    assert s[|a| + 1..] == x && s[|b| + 1..] == y;
    assert a == s[..|a|] && b == s[..|b|] && x == s[|a| + 1..] && y == s[|b| + 1..];
  }

  // ----- Byte order

  predicate LessEq(a: string, b: string) {
    a == [] || (b != [] && (a[0] < b[0] || (a[0] == b[0] && LessEq(a[1..], b[1..]))))
  }

  /** Where they first differ the smaller character comes first, and a beginning before the whole. */
  lemma {:induction false} LessEqExactly(a: string, b: string)
    ensures LessEq(a, b) <==>
      a <= b || exists k :: 0 <= k < |a| && k < |b| && a[..k] == b[..k] && a[k] < b[k]
  {
    if a != [] && b != [] && a[0] == b[0] {
      LessEqExactly(a[1..], b[1..]);
      assert a == [a[0]] + a[1..] && b == [b[0]] + b[1..];
      assert a <= b <==> a[1..] <= b[1..];
      if k :| 0 <= k < |a| && k < |b| && a[..k] == b[..k] && a[k] < b[k] {
        assert k > 0 && a[1..][..k - 1] == a[..k][1..] && b[1..][..k - 1] == b[..k][1..];
        assert a[1..][k - 1] < b[1..][k - 1];
      }
      if k :| 0 <= k < |a| - 1 && k < |b| - 1 && a[1..][..k] == b[1..][..k] && a[1..][k] < b[1..][k] {
        assert a[..k + 1] == [a[0]] + a[1..][..k] && b[..k + 1] == [b[0]] + b[1..][..k];
        assert a[k + 1] < b[k + 1];
      }
    } else if a != [] && b != [] {
      assert a[..0] == b[..0];
      assert forall k :: 0 < k < |a| && k < |b| ==> a[..k][0] != b[..k][0];
    }
  }

  lemma {:induction false} LessEqTotal(a: string, b: string)
    ensures LessEq(a, b) || LessEq(b, a)
    ensures LessEq(a, b) && LessEq(b, a) ==> a == b
  {
    if a != [] && b != [] {
      LessEqTotal(a[1..], b[1..]);
      assert a == [a[0]] + a[1..] && b == [b[0]] + b[1..];
    }
  }

  lemma {:induction false} LessEqTransitive(a: string, b: string, c: string)
    requires LessEq(a, b) && LessEq(b, c)
    ensures LessEq(a, c)
  {
    if a != [] && b != [] && c != [] && a[0] == b[0] == c[0] {
      LessEqTransitive(a[1..], b[1..], c[1..]);
    }
  }

  // ----- Stable sort

  /** `x` goes before the first element that is not smaller. */
  function Insert<T>(x: T, key: T -> string, xs: seq<T>): seq<T> {
    if xs == [] || LessEq(key(x), key(xs[0])) then [x] + xs
    else [xs[0]] + Insert(x, key, xs[1..])
  }

  function SortBy<T>(xs: seq<T>, key: T -> string): seq<T> {
    if xs == [] then [] else Insert(xs[0], key, SortBy(xs[1..], key))
  }

  ghost predicate SortedBy<T>(xs: seq<T>, key: T -> string) {
    forall i, j :: 0 <= i < j < |xs| ==> LessEq(key(xs[i]), key(xs[j]))
  }

  lemma {:induction false} InsertElements<T>(x: T, key: T -> string, xs: seq<T>)
    ensures multiset(Insert(x, key, xs)) == multiset{x} + multiset(xs)
  {
    if xs != [] {
      assert xs == [xs[0]] + xs[1..];
      if !LessEq(key(x), key(xs[0])) {
        InsertElements(x, key, xs[1..]);
      }
    }
  }

  lemma {:induction false} SortElements<T>(xs: seq<T>, key: T -> string)
    ensures multiset(SortBy(xs, key)) == multiset(xs)
    ensures |SortBy(xs, key)| == |xs|
  {
    if xs != [] {
      SortElements(xs[1..], key);
      InsertElements(xs[0], key, SortBy(xs[1..], key));
      assert xs == [xs[0]] + xs[1..];
    }
    assert |multiset(SortBy(xs, key))| == |SortBy(xs, key)|;
  }

  lemma {:induction false} InsertSorted<T>(x: T, key: T -> string, xs: seq<T>)
    requires SortedBy(xs, key)
    ensures SortedBy(Insert(x, key, xs), key)
  {
    if xs == [] {
    } else if LessEq(key(x), key(xs[0])) {
      forall j | 0 <= j < |xs| ensures LessEq(key(x), key(xs[j])) {
        if j > 0 {
          LessEqTransitive(key(x), key(xs[0]), key(xs[j]));
        }
      }
    } else {
      var rest := Insert(x, key, xs[1..]);
      InsertSorted(x, key, xs[1..]);
      InsertElements(x, key, xs[1..]);
      LessEqTotal(key(x), key(xs[0]));
      forall j | 0 <= j < |rest| ensures LessEq(key(xs[0]), key(rest[j])) {
        assert rest[j] in multiset(rest);
        if rest[j] != x {
          assert rest[j] in xs[1..];
        }
      }
    }
  }

  lemma {:induction false} SortSorts<T>(xs: seq<T>, key: T -> string)
    ensures SortedBy(SortBy(xs, key), key)
  {
    if xs != [] {
      SortSorts(xs[1..], key);
      InsertSorted(xs[0], key, SortBy(xs[1..], key));
    }
  }

  /** A stable sort leaves a sorted list alone. */
  lemma {:induction false} SortOfSorted<T>(xs: seq<T>, key: T -> string)
    requires SortedBy(xs, key)
    ensures SortBy(xs, key) == xs
  {
    if xs != [] {
      SortOfSorted(xs[1..], key);
      assert xs == [xs[0]] + xs[1..];
    }
  }

  ghost predicate DistinctKeys<T>(xs: seq<T>, key: T -> string) {
    forall i, j :: 0 <= i < j < |xs| ==> key(xs[i]) != key(xs[j])
  }

  lemma {:induction false} DistinctBySort<T>(xs: seq<T>, key: T -> string)
    requires DistinctKeys(xs, key)
    ensures DistinctKeys(SortBy(xs, key), key)
  {
    if xs != [] {
      var rest := SortBy(xs[1..], key);
      DistinctBySort(xs[1..], key);
      SortElements(xs[1..], key);
      forall i | 0 <= i < |rest| ensures key(xs[0]) != key(rest[i]) {
        assert rest[i] in multiset(xs[1..]);
        var j :| 0 <= j < |xs| - 1 && xs[1..][j] == rest[i];
        assert xs[j + 1] == rest[i];
      }
      InsertDistinct(xs[0], key, rest);
    }
  }

  lemma {:induction false} InsertDistinct<T>(x: T, key: T -> string, xs: seq<T>)
    requires DistinctKeys(xs, key) && forall i :: 0 <= i < |xs| ==> key(x) != key(xs[i])
    ensures DistinctKeys(Insert(x, key, xs), key)
  {
    if xs != [] && !LessEq(key(x), key(xs[0])) {
      var rest := Insert(x, key, xs[1..]);
      InsertDistinct(x, key, xs[1..]);
      InsertElements(x, key, xs[1..]);
      forall i | 0 <= i < |rest| ensures key(xs[0]) != key(rest[i]) {
        assert rest[i] in multiset(rest);
        assert rest[i] == x || rest[i] in xs[1..];
      }
    }
  }

  lemma {:induction false} SameHead<T>(xs: seq<T>, ys: seq<T>, key: T -> string)
    requires SortedBy(xs, key) && SortedBy(ys, key) && DistinctKeys(xs, key)
    requires multiset(xs) == multiset(ys) && xs != [] && ys != []
    ensures xs[0] == ys[0]
  {
    assert xs[0] in multiset(ys) && ys[0] in multiset(xs);
    var j :| 0 <= j < |ys| && ys[j] == xs[0];
    var i :| 0 <= i < |xs| && xs[i] == ys[0];
    LessEqTotal(key(xs[0]), key(ys[0]));
    assert LessEq(key(xs[0]), key(xs[i])) || i == 0;
    assert LessEq(key(ys[0]), key(ys[j])) || j == 0;
  }

  /** Lists with different keys throughout have only one sorted order. */
  lemma {:induction false} SortedOrderUnique<T>(xs: seq<T>, ys: seq<T>, key: T -> string)
    requires SortedBy(xs, key) && SortedBy(ys, key) && DistinctKeys(xs, key)
    requires multiset(xs) == multiset(ys)
    ensures xs == ys
  {
    assert |xs| == |multiset(xs)| == |multiset(ys)| == |ys|;
    if xs != [] {
      SameHead(xs, ys, key);
      assert xs == [xs[0]] + xs[1..] && ys == [ys[0]] + ys[1..];
      assert multiset(xs[1..]) == multiset(xs) - multiset{xs[0]};
      assert multiset(ys[1..]) == multiset(ys) - multiset{ys[0]};
      SortedOrderUnique(xs[1..], ys[1..], key);
    }
  }
}
