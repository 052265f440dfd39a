/**
 * The order in which `os.ReadDir` lists a directory: entry names sorted
 * lexicographically. Characters compare by code point, which for UTF-8
 * names is the byte order Go sorts by.
 */
module NameOrder {

  /** Lexicographic "at most" on names. */
  predicate LexLeq(a: string, b: string) {
    a == [] || (b != [] && (a[0] < b[0] || (a[0] == b[0] && LexLeq(a[1..], b[1..]))))
  }

  lemma {:induction false} LexTotal(a: string, b: string)
    ensures LexLeq(a, b) || LexLeq(b, a)
  {
    if a != [] && b != [] && a[0] == b[0] {
      LexTotal(a[1..], b[1..]);
    }
  }

  lemma {:induction false} LexAntisymmetric(a: string, b: string)
    requires LexLeq(a, b) && LexLeq(b, a)
    ensures a == b
  {
    if a != [] && b != [] {
      LexAntisymmetric(a[1..], b[1..]);
      assert a == [a[0]] + a[1..];
      assert b == [b[0]] + b[1..];
    }
  }

  lemma {:induction false} LexTransitive(a: string, b: string, c: string)
    requires LexLeq(a, b) && LexLeq(b, c)
    ensures LexLeq(a, c)
  {
    if a != [] && b != [] && c != [] && a[0] == b[0] == c[0] {
      LexTransitive(a[1..], b[1..], c[1..]);
    }
  }

  /** `m` is the least name of `s`. */
  predicate IsLeast(m: string, s: set<string>) {
    m in s && forall x :: x in s ==> LexLeq(m, x)
  }

  lemma {:induction false} LeastExists(s: set<string>)
    requires s != {}
    ensures exists m :: IsLeast(m, s)
    decreases |s|
  {
    var x :| x in s;
    if s == {x} {
      assert LexLeq(x, x) by { LexTotal(x, x); }
      assert IsLeast(x, s);
    } else {
      LeastExists(s - {x});
      var m :| IsLeast(m, s - {x});
      LexTotal(m, x);
      if LexLeq(m, x) {
        assert IsLeast(m, s);
      } else {
        forall y | y in s ensures LexLeq(x, y) {
          if y == x { LexTotal(x, x); } else { LexTransitive(x, m, y); }
        }
        assert IsLeast(x, s);
      }
    }
  }

  lemma LeastUnique(m: string, m': string, s: set<string>)
    requires IsLeast(m, s) && IsLeast(m', s)
    ensures m == m'
  {
    LexAntisymmetric(m, m');
  }

  /** The least name of a non-empty set. */
  ghost function Least(s: set<string>): (m: string)
    requires s != {}
    ensures IsLeast(m, s)
  {
    LeastExists(s);
    var m :| IsLeast(m, s); m
  }

  /** The names of `s` in ascending order. */
  ghost function Sorted(s: set<string>): (r: seq<string>)
    ensures |r| == |s|
    ensures forall x :: x in s <==> x in r
    decreases |s|
  {
    if s == {} then []
    else
      var m := Least(s);
      [m] + Sorted(s - {m})
  }

  /** A name followed by more characters sorts after the name itself. */
  lemma {:induction false} ExtensionAfter(a: string, x: string)
    requires x != []
    ensures !LexLeq(a + x, a)
    decreases |a|
  {
    if a != [] {
      assert (a + x)[1..] == a[1..] + x;
      ExtensionAfter(a[1..], x);
    }
  }

  /** The listing is strictly ascending, so in particular it repeats no name. */
  lemma {:induction false} SortedAscending(s: set<string>)
    ensures forall i, j :: 0 <= i < j < |Sorted(s)| ==> LexLeq(Sorted(s)[i], Sorted(s)[j]) && Sorted(s)[i] != Sorted(s)[j]
    decreases |s|
  {
    if s != {} {
      var m := Least(s);
      var r := Sorted(s);
      var rest := Sorted(s - {m});
      SortedAscending(s - {m});
      assert r == [m] + rest;
      forall i, j | 0 <= i < j < |r| ensures LexLeq(r[i], r[j]) && r[i] != r[j] {
        if i > 0 {
          assert r[i] == rest[i - 1] && r[j] == rest[j - 1];
        } else {
          assert r[j] == rest[j - 1];
          assert r[j] in s - {m};
        }
      }
    }
  }

  /** Any least name of a set heads its sorted listing. */
  lemma SortedStep(s: set<string>, m: string)
    requires IsLeast(m, s)
    ensures Sorted(s) == [m] + Sorted(s - {m})
  {
    LeastUnique(m, Least(s), s);
  }

  /** One step of the sort: pick the least name still to be listed. */
  method TakeLeast(s: set<string>) returns (m: string)
    requires s != {}
    ensures IsLeast(m, s)
    ensures Sorted(s) == [m] + Sorted(s - {m})
  {
    LeastExists(s);
    m :| IsLeast(m, s);
    SortedStep(s, m);
  }

  lemma AppendStep(r: seq<string>, m: string, t: seq<string>)
    ensures (r + [m]) + t == r + ([m] + t)
  {
  }

  /** Sorting a set, as `os.ReadDir` does: repeatedly take the least remaining name. */
  method SortNames(s: set<string>) returns (r: seq<string>)
    ensures r == Sorted(s)
  {
    var rest := s;
    r := [];
    while rest != {}
      invariant r + Sorted(rest) == Sorted(s)
      decreases |rest|
    {
      var m := TakeLeast(rest);
      AppendStep(r, m, Sorted(rest - {m}));
      r := r + [m];
      rest := rest - {m};
    }
  }
}
