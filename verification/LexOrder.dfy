/** The default JavaScript sort order: lexicographic by code unit. */
module LexOrder {

  predicate Leq(a: seq<int>, b: seq<int>) {
    a == [] || (b != [] && (a[0] < b[0] || (a[0] == b[0] && Leq(a[1..], b[1..]))))
  }

  /** The order as dictionaries have it: a prefix comes first, else the first unit that differs decides. */
  lemma {:induction false} LeqIsLexicographic(a: seq<int>, b: seq<int>)
    ensures Leq(a, b) <==> a <= b || exists i :: 0 <= i < |a| && i < |b| && a[..i] == b[..i] && a[i] < b[i]
  {
    if a != [] && b != [] {
      var x, y := a[1..], b[1..];
      assert a == [a[0]] + x && b == [b[0]] + y;
      LeqIsLexicographic(x, y);
      if a[0] == b[0] {
        assert a <= b <==> x <= y;
        if i :| 0 <= i < |x| && i < |y| && x[..i] == y[..i] && x[i] < y[i] {
          assert a[..i + 1] == [a[0]] + x[..i] && b[..i + 1] == [b[0]] + y[..i];
          assert a[i + 1] < b[i + 1];
        }
        if i :| 0 <= i < |a| && i < |b| && a[..i] == b[..i] && a[i] < b[i] {
          assert x[..i - 1] == a[..i][1..] == b[..i][1..] == y[..i - 1];
          assert x[i - 1] < y[i - 1];
        }
      } else if a[0] < b[0] {
        assert a[..0] == b[..0];
      } else {
        forall i | 0 <= i < |a| && i < |b| ensures a[..i] == b[..i] ==> i == 0 {
          if i > 0 { assert a[..i][0] == a[0] && b[..i][0] == b[0]; }
        }
      }
    }
  }

  lemma {:induction false} LeqTotal(a: seq<int>, b: seq<int>)
    ensures Leq(a, b) || Leq(b, a)
  {
    if a != [] && b != [] { LeqTotal(a[1..], b[1..]); }
  }

  lemma {:induction false} LeqAntisymmetric(a: seq<int>, b: seq<int>)
    requires Leq(a, b) && Leq(b, a)
    ensures a == b
  {
    if a != [] {
      LeqAntisymmetric(a[1..], b[1..]);
      assert a == [a[0]] + a[1..] && b == [b[0]] + b[1..];
    }
  }

  lemma {:induction false} LeqTransitive(a: seq<int>, b: seq<int>, c: seq<int>)
    requires Leq(a, b) && Leq(b, c)
    ensures Leq(a, c)
  {
    if a != [] && a[0] == b[0] == c[0] { LeqTransitive(a[1..], b[1..], c[1..]); }
  }

  function Codes(s: string): seq<int> {
    seq(|s|, i requires 0 <= i < |s| => s[i] as int)
  }

  predicate StrLeq(a: string, b: string) {
    Leq(Codes(a), Codes(b))
  }

  /** The same for strings, by code unit. */
  lemma StrLeqIsLexicographic(a: string, b: string)
    ensures StrLeq(a, b) <==> a <= b || exists i :: 0 <= i < |a| && i < |b| && a[..i] == b[..i] && a[i] < b[i]
  {
    var x, y := Codes(a), Codes(b);
    LeqIsLexicographic(x, y);
    forall i | 0 <= i <= |a| && i <= |b| ensures a[..i] == b[..i] <==> x[..i] == y[..i] { SamePrefix(a, b, i); }
    if |a| <= |b| {
      assert a[..|a|] == a && x[..|a|] == x;
      assert a <= b <==> a[..|a|] == b[..|a|];
      assert x <= y <==> x[..|a|] == y[..|a|];
    }
  }

  lemma SamePrefix(a: string, b: string, i: nat)
    requires i <= |a| && i <= |b|
    ensures a[..i] == b[..i] <==> Codes(a)[..i] == Codes(b)[..i]
  {
    if Codes(a)[..i] == Codes(b)[..i] {
      forall j | 0 <= j < i ensures a[j] == b[j] {
        assert Codes(a)[..i][j] == Codes(b)[..i][j];
      }
    }
  }

  lemma StrLeqAntisymmetric(a: string, b: string)
    requires StrLeq(a, b) && StrLeq(b, a)
    ensures a == b
  {
    LeqAntisymmetric(Codes(a), Codes(b));
    forall i | 0 <= i < |a| ensures a[i] == b[i] { assert Codes(a)[i] == Codes(b)[i]; }
  }

  predicate IsLeast(k: string, keys: set<string>) {
    k in keys && forall j :: j in keys ==> StrLeq(k, j)
  }

  lemma {:induction false} LeastExists(keys: set<string>) returns (k: string)
    requires keys != {}
    ensures IsLeast(k, keys)
  {
    k :| k in keys;
    if keys != {k} {
      var m := LeastExists(keys - {k});
      LeqTotal(Codes(k), Codes(m));
      LeqTotal(Codes(k), Codes(k));
      forall j | j in keys ensures StrLeq(if StrLeq(k, m) then k else m, j) {
        if j != k { assert j in keys - {k}; }
        if j != k && StrLeq(k, m) { LeqTransitive(Codes(k), Codes(m), Codes(j)); }
      }
      if !StrLeq(k, m) { k := m; }
    } else {
      LeqTotal(Codes(k), Codes(k));
    }
  }

  lemma LeastIsUnique(keys: set<string>)
    ensures forall j, k :: IsLeast(j, keys) && IsLeast(k, keys) ==> j == k
  {
    forall j, k | IsLeast(j, keys) && IsLeast(k, keys) ensures j == k { StrLeqAntisymmetric(j, k); }
  }

  function Least(keys: set<string>): (k: string)
    requires keys != {}
    ensures IsLeast(k, keys)
  {
    LeastIsUnique(keys);
    assert exists k :: IsLeast(k, keys) by { var k := LeastExists(keys); }
    var k :| k in keys && IsLeast(k, keys);
    k
  }

  /** The keys in ascending order, each exactly once. */
  function SortedKeys(keys: set<string>): (r: seq<string>)
    ensures forall k :: k in r <==> k in keys
    ensures forall i, j :: 0 <= i < j < |r| ==> r[i] != r[j] && StrLeq(r[i], r[j])
  {
    if keys == {} then []
    else
      var k := Least(keys);
      [k] + SortedKeys(keys - {k})
  }
}
