/** Lexicographic order on integer sequences, and the stable sorting that the
    program's `sort`, `sort_by` and `BTreeSet` iteration rely on. */
module Order {
  import opened Common

  /** Lexicographic comparison; a proper prefix is smaller. */
  predicate Less(a: seq<int>, b: seq<int>) {
    if b == [] then false
    else if a == [] then true
    else a[0] < b[0] || (a[0] == b[0] && Less(a[1..], b[1..]))
  }

  lemma {:induction false} LessTotal(a: seq<int>, b: seq<int>)
    ensures Less(a, b) || a == b || Less(b, a)
    ensures !(Less(a, b) && Less(b, a))
    ensures !Less(a, a)
  {
    if a != [] && b != [] {
      LessTotal(a[1..], b[1..]);
      assert a == [a[0]] + a[1..] && b == [b[0]] + b[1..];
    }
    if a != [] {
      LessTotal(a[1..], a[1..]);
    }
  }

  lemma LessHead(x: int, s: seq<int>, y: int, t: seq<int>)
    ensures Less([x] + s, [y] + t) <==> x < y || (x == y && Less(s, t))
  {
    assert ([x] + s)[1..] == s && ([y] + t)[1..] == t;
  }

  lemma LessTwo(a: int, b: int, x: int, y: int)
    ensures Less([a, b], [x, y]) <==> a < x || (a == x && b < y)
  {
    assert [a, b] == [a] + [b] && [x, y] == [x] + [y];
    LessHead(a, [b], x, [y]);
    assert [b] == [b] + [] && [y] == [y] + [];
    LessHead(b, [], y, []);
  }

  lemma LessThree(a: int, b: int, c: int, x: int, y: int, z: int)
    ensures Less([a, b, c], [x, y, z]) <==> a < x || (a == x && (b < y || (b == y && c < z)))
  {
    assert [a, b, c] == [a] + [b, c] && [x, y, z] == [x] + [y, z];
    LessHead(a, [b, c], x, [y, z]);
    LessTwo(b, c, y, z);
  }

  /** Keys made of two parts of fixed length compare part by part. */
  lemma {:induction false} LessParts(a: seq<int>, s: seq<int>, b: seq<int>, t: seq<int>)
    requires |a| == |b|
    ensures Less(a + s, b + t) <==> Less(a, b) || (a == b && Less(s, t))
  {
    if a == [] {
      assert a + s == s && b + t == t;
    } else {
      LessParts(a[1..], s, b[1..], t);
      LessHead(a[0], a[1..] + s, b[0], b[1..] + t);
      LessHead(a[0], a[1..], b[0], b[1..]);
      assert a == [a[0]] + a[1..] && b == [b[0]] + b[1..];
      assert a + s == [a[0]] + (a[1..] + s) && b + t == [b[0]] + (b[1..] + t);
    }
  }

  lemma {:induction false} LessTransitive(a: seq<int>, b: seq<int>, c: seq<int>)
    requires Less(a, b) && Less(b, c)
    ensures Less(a, c)
  {
    if a != [] && a[0] == b[0] == c[0] {
      LessTransitive(a[1..], b[1..], c[1..]);
    }
  }

  /** Not-greater is transitive with less on either side. */
  lemma LessMixed(a: seq<int>, b: seq<int>, c: seq<int>)
    ensures !Less(b, a) && Less(b, c) ==> Less(a, c)
    ensures Less(a, b) && !Less(c, b) ==> Less(a, c)
    ensures !Less(b, a) && !Less(c, b) ==> !Less(c, a)
  {
    LessTotal(a, b);
    LessTotal(b, c);
    LessTotal(a, c);
    if Less(a, b) && Less(b, c) { LessTransitive(a, b, c); }
    if Less(c, a) && Less(a, b) { LessTransitive(c, a, b); }
  }

  ghost predicate Sorted<T(!new)>(key: T -> seq<int>, s: seq<T>) {
    forall i, j :: 0 <= i < j < |s| ==> !Less(key(s[j]), key(s[i]))
  }

  ghost predicate StrictlySorted<T(!new)>(key: T -> seq<int>, s: seq<T>) {
    forall i, j :: 0 <= i < j < |s| ==> Less(key(s[i]), key(s[j]))
  }

  /** Insertion after every element that does not exceed `x`: the step of a stable sort. */
  function Insert<T(!new)>(key: T -> seq<int>, s: seq<T>, x: T): (r: seq<T>)
    ensures multiset(r) == multiset(s) + multiset{x}
    ensures |r| == |s| + 1
    ensures forall y :: y in r <==> y in s || y == x
  {
    if s == [] || !Less(key(x), key(s[|s| - 1])) then s + [x]
    else
      assert s == s[..|s| - 1] + [s[|s| - 1]];
      Insert(key, s[..|s| - 1], x) + [s[|s| - 1]]
  }

  function Sort<T(!new)>(key: T -> seq<int>, s: seq<T>): (r: seq<T>)
    ensures multiset(r) == multiset(s)
    ensures |r| == |s|
    ensures forall y :: y in r <==> y in s
  {
    if s == [] then []
    else
      assert s == s[..|s| - 1] + [s[|s| - 1]];
      Insert(key, Sort(key, s[..|s| - 1]), s[|s| - 1])
  }

  lemma {:induction false} InsertSorted<T(!new)>(key: T -> seq<int>, s: seq<T>, x: T)
    requires Sorted(key, s)
    ensures Sorted(key, Insert(key, s, x))
  {
    if s == [] {
    } else if !Less(key(x), key(s[|s| - 1])) {
      forall i | 0 <= i < |s| ensures !Less(key(x), key(s[i])) {
        LessTotal(key(s[|s| - 1]), key(s[|s| - 1]));
        LessMixed(key(s[i]), key(s[|s| - 1]), key(x));
      }
    } else {
      var last := s[|s| - 1];
      var r := Insert(key, s[..|s| - 1], x);
      InsertSorted(key, s[..|s| - 1], x);
      forall i | 0 <= i < |r| ensures !Less(key(last), key(r[i])) {
        assert r[i] in r;
        if r[i] != x {
          var j :| 0 <= j < |s| - 1 && s[j] == r[i];
        } else {
          LessTotal(key(x), key(last));
        }
      }
    }
  }

  lemma {:induction false} SortSorted<T(!new)>(key: T -> seq<int>, s: seq<T>)
    ensures Sorted(key, Sort(key, s))
  {
    if s != [] {
      SortSorted(key, s[..|s| - 1]);
      InsertSorted(key, Sort(key, s[..|s| - 1]), s[|s| - 1]);
    }
  }

  lemma SortedDistinctIsStrict<T(!new)>(key: T -> seq<int>, s: seq<T>)
    requires Sorted(key, s) && DistinctBy(key, s)
    ensures StrictlySorted(key, s)
  {
    forall i, j | 0 <= i < j < |s| ensures Less(key(s[i]), key(s[j])) {
      LessTotal(key(s[i]), key(s[j]));
    }
  }

  lemma {:induction false} InsertDistinct<T(!new)>(key: T -> seq<int>, s: seq<T>, x: T)
    requires DistinctBy(key, s) && forall y :: y in s ==> key(y) != key(x)
    ensures DistinctBy(key, Insert(key, s, x))
  {
    if s == [] || !Less(key(x), key(s[|s| - 1])) {
    } else {
      InsertDistinct(key, s[..|s| - 1], x);
      var r := Insert(key, s[..|s| - 1], x);
      forall i | 0 <= i < |r| ensures key(r[i]) != key(s[|s| - 1]) {
        assert r[i] in r;
        if r[i] != x {
          var j :| 0 <= j < |s| - 1 && s[j] == r[i];
        }
      }
    }
  }

  lemma {:induction false} SortDistinct<T(!new)>(key: T -> seq<int>, s: seq<T>)
    requires DistinctBy(key, s)
    ensures DistinctBy(key, Sort(key, s))
  {
    if s != [] {
      SortDistinct(key, s[..|s| - 1]);
      forall y | y in Sort(key, s[..|s| - 1]) ensures key(y) != key(s[|s| - 1]) {
        var j :| 0 <= j < |s| - 1 && s[j] == y;
      }
      InsertDistinct(key, Sort(key, s[..|s| - 1]), s[|s| - 1]);
    }
  }

  /** Sorting distinct keys gives a strictly increasing sequence. */
  lemma SortStrict<T(!new)>(key: T -> seq<int>, s: seq<T>)
    requires DistinctBy(key, s)
    ensures StrictlySorted(key, Sort(key, s))
  {
    SortSorted(key, s);
    SortDistinct(key, s);
    SortedDistinctIsStrict(key, Sort(key, s));
  }

  lemma LastOfSorted<T(!new)>(key: T -> seq<int>, s: seq<T>)
    requires s != [] && DistinctBy(key, s)
    ensures var top := Sort(key, s)[|s| - 1];
            top in s && forall r :: r in s && r != top ==> Less(key(r), key(top))
  {
    SortStrict(key, s);
    var sorted := Sort(key, s);
    var top := sorted[|s| - 1];
    assert top in sorted;
    forall r | r in s && r != top ensures Less(key(r), key(top)) {
      assert r in sorted;
      var k :| 0 <= k < |sorted| && sorted[k] == r;
    }
  }

  lemma FrontMembers<T(!new)>(key: T -> seq<int>, s: seq<T>)
    requires StrictlySorted(key, s) && s != []
    ensures forall x :: x in s[..|s| - 1] <==> x in s && x != s[|s| - 1]
  {
    var front, last := s[..|s| - 1], s[|s| - 1];
    assert s == front + [last];
    LessTotal(key(last), key(last));
  }

  /** A strictly increasing sequence is determined by its set of elements. */
  lemma {:induction false} StrictlySortedUnique<T(!new)>(key: T -> seq<int>, s: seq<T>, t: seq<T>)
    requires StrictlySorted(key, s) && StrictlySorted(key, t)
    requires forall x :: x in s <==> x in t
    ensures s == t
  {
    assert s != [] ==> s[0] in t;
    assert t != [] ==> t[0] in s;
    if s != [] && t != [] {
      var a, b := s[|s| - 1], t[|t| - 1];
      var s', t' := s[..|s| - 1], t[..|t| - 1];
      assert a in t && b in s;
      var i :| 0 <= i < |t| && t[i] == a;
      var j :| 0 <= j < |s| && s[j] == b;
      LessTotal(key(a), key(b));
      assert a == b;
      FrontMembers(key, s);
      FrontMembers(key, t);
      forall x ensures x in s' <==> x in t' {
        assert x in s' <==> x in s && x != a;
        assert x in t' <==> x in t && x != a;
      }
      StrictlySortedUnique(key, s', t');
      assert s == s' + [a] && t == t' + [b];
    }
  }

  /** The last element of a sequence, located in a permutation of it. */
  lemma PickPermuted<T>(a: seq<T>, b: seq<T>) returns (k: nat)
    requires a != [] && multiset(a) == multiset(b)
    ensures k < |b| && b[k] == a[|a| - 1]
    ensures multiset(b[..k] + b[k + 1..]) == multiset(a[..|a| - 1])
  {
    var front, last := a[..|a| - 1], a[|a| - 1];
    assert a == front + [last];
    assert last in multiset(b);
    k :| 0 <= k < |b| && b[k] == last;
    var left, right := b[..k], b[k + 1..];
    assert b == left + ([last] + right);
    Cancel(multiset(front), multiset([last]), multiset(left), multiset(right));
  }

  lemma Cancel<T>(a: multiset<T>, m: multiset<T>, left: multiset<T>, right: multiset<T>)
    requires a + m == left + (m + right)
    ensures a == left + right
  {
    assert a == (a + m) - m;
  }

  /** Rearranging keeps what holds of every element. */
  lemma AllPermuted<T>(p: T -> bool, a: seq<T>, b: seq<T>)
    requires (forall i :: 0 <= i < |a| ==> p(a[i])) && multiset(a) == multiset(b)
    ensures |a| == |b| && forall i :: 0 <= i < |b| ==> p(b[i])
  {
    assert |a| == |multiset(a)| == |multiset(b)| == |b|;
    forall i | 0 <= i < |b| ensures p(b[i]) {
      assert b[i] in multiset(b);
      assert b[i] in a;
    }
  }

  /** Rearranging keeps keys distinct. */
  lemma {:induction false} DistinctByPermuted<T, K(!new)>(key: T -> K, a: seq<T>, b: seq<T>)
    requires DistinctBy(key, a) && multiset(a) == multiset(b)
    ensures DistinctBy(key, b)
    decreases |a|
  {
    assert |multiset(a)| == |a| && |multiset(b)| == |b|;
    if a != [] {
      var k := PickPermuted(a, b);
      var front, rest := a[..|a| - 1], b[..k] + b[k + 1..];
      DistinctByPermuted(key, front, rest);
      forall i | 0 <= i < |rest| ensures key(rest[i]) != key(b[k]) {
        assert rest[i] in multiset(rest);
        var j :| 0 <= j < |front| && front[j] == rest[i];
        assert key(a[j]) != key(a[|a| - 1]);
      }
      DistinctByInserted(key, b, k, rest);
    }
  }

  lemma DistinctByInserted<T, K(!new)>(key: T -> K, b: seq<T>, k: nat, rest: seq<T>)
    requires k < |b| && rest == b[..k] + b[k + 1..] && DistinctBy(key, rest)
    requires forall i :: 0 <= i < |rest| ==> key(rest[i]) != key(b[k])
    ensures DistinctBy(key, b)
  {
    forall i, j | 0 <= i < j < |b| ensures key(b[i]) != key(b[j]) {
      var p, q := if i < k then i else i - 1, if j < k then j else j - 1;
      assert i != k ==> b[i] == rest[p];
      assert j != k ==> b[j] == rest[q];
    }
  }

  /** An element occurs twice in a multiset exactly when it stands at two places. */
  lemma {:induction false} OccursTwice<T(!new)>(s: seq<T>, x: T)
    ensures multiset(s)[x] >= 1 <==> exists i :: 0 <= i < |s| && s[i] == x
    ensures multiset(s)[x] >= 2 <==> exists i, j :: 0 <= i < j < |s| && s[i] == s[j] == x
  {
    if s != [] {
      var n := |s| - 1;
      var front, last := s[..n], s[n];
      assert s == front + [last];
      OccursTwice(front, x);
      if i :| 0 <= i < |front| && front[i] == x {
        assert s[i] == x;
      }
      if i, j :| 0 <= i < j < |front| && front[i] == front[j] == x {
        assert s[i] == s[j] == x;
      }
      if i, j :| 0 <= i < j < |s| && s[i] == s[j] == x {
        assert front[i] == x;
        if j < n { assert front[j] == x; }
      }
    }
  }

  /** Two places hold keys that are equal and not above any other. */
  ghost predicate Tied<T(!new)>(key: T -> seq<int>, s: seq<T>) {
    exists i, j :: 0 <= i < j < |s| && TiedAt(key, s, i, j)
  }

  ghost predicate TiedAt<T(!new)>(key: T -> seq<int>, s: seq<T>, i: nat, j: nat)
    requires i < |s| && j < |s|
  {
    key(s[i]) == key(s[j]) && forall x :: x in s ==> !Less(key(x), key(s[i]))
  }

  /** A permutation is tied when the original is. */
  lemma TiedPermuted<T(!new)>(key: T -> seq<int>, s: seq<T>, t: seq<T>)
    requires multiset(s) == multiset(t) && Tied(key, s)
    ensures Tied(key, t)
  {
    var i, j :| 0 <= i < j < |s| && TiedAt(key, s, i, j);
    var x, y := s[i], s[j];
    OccursTwice(s, x);
    OccursTwice(t, x);
    OccursTwice(s, y);
    OccursTwice(t, y);
    forall z | z in t ensures z in s {
      assert z in multiset(t);
    }
    if x == y {
      var p, q :| 0 <= p < q < |t| && t[p] == t[q] == x;
      assert TiedAt(key, t, p, q);
    } else {
      var p :| 0 <= p < |t| && t[p] == x;
      var q :| 0 <= q < |t| && t[q] == y;
      if p < q { assert TiedAt(key, t, p, q); } else { assert TiedAt(key, t, q, p); }
    }
  }

  /** In a sorted sequence a tie shows in the first two places. */
  lemma TiedSorted<T(!new)>(key: T -> seq<int>, t: seq<T>)
    requires Sorted(key, t)
    ensures Tied(key, t) <==> |t| > 1 && key(t[0]) == key(t[1])
  {
    if |t| > 1 && key(t[0]) == key(t[1]) {
      forall x | x in t ensures !Less(key(x), key(t[0])) {
        var k :| 0 <= k < |t| && t[k] == x;
        LessTotal(key(x), key(x));
      }
      assert TiedAt(key, t, 0, 1);
    }
    if Tied(key, t) {
      var i, j :| 0 <= i < j < |t| && TiedAt(key, t, i, j);
      assert t[0] in t && t[1] in t;
      LessTotal(key(t[0]), key(t[i]));
      LessTotal(key(t[1]), key(t[j]));
    }
  }

  /** Code points of a string: comparing these compares UTF-8 bytes. */
  function Codes(s: string): (r: seq<int>)
    ensures |r| == |s|
    ensures forall i :: 0 <= i < |s| ==> r[i] == s[i] as int
  {
    seq(|s|, i requires 0 <= i < |s| => s[i] as int)
  }

  lemma CodesInjective(a: string, b: string)
    requires Codes(a) == Codes(b)
    ensures a == b
  {
  }
}
