/**
 * The order in which `Dir.glob` reports names: Ruby sorts the matches by
 * their bytes, which for UTF-8 text is the lexicographic order of code
 * points used here.
 */
module StringOrder {

  /** a sorts strictly before b: a proper prefix, or smaller at the first difference. */
  predicate Below(a: string, b: string) {
    if a == [] then b != []
    else b != [] && (a[0] < b[0] || (a[0] == b[0] && Below(a[1..], b[1..])))
  }

  /** Strictly increasing, hence also free of duplicates. */
  predicate Ascending(xs: seq<string>) {
    forall i, j :: 0 <= i < j < |xs| ==> Below(xs[i], xs[j])
  }

  lemma {:induction false} BelowIrreflexive(a: string)
    ensures !Below(a, a)
    decreases |a|
  {
    if a != [] {
      BelowIrreflexive(a[1..]);
    }
  }

  lemma {:induction false} BelowTransitive(a: string, b: string, c: string)
    requires Below(a, b) && Below(b, c)
    ensures Below(a, c)
    decreases |a|
  {
    if a != [] && a[0] == b[0] && b[0] == c[0] {
      BelowTransitive(a[1..], b[1..], c[1..]);
    }
  }

  lemma {:induction false} BelowTotal(a: string, b: string)
    requires a != b
    ensures Below(a, b) || Below(b, a)
    decreases |a|
  {
    if a != [] && b != [] && a[0] == b[0] {
      assert a == [a[0]] + a[1..] && b == [b[0]] + b[1..];
      BelowTotal(a[1..], b[1..]);
    }
  }

  /** Every finite non-empty set of strings has a least element. */
  lemma {:induction false} LeastExists(s: set<string>)
    requires s != {}
    ensures exists m :: m in s && forall x :: x in s && x != m ==> Below(m, x)
    decreases |s|
  {
    var y :| y in s;
    var rest := s - {y};
    if rest == {} {
      assert s == {y};
    } else {
      LeastExists(rest);
      var m :| m in rest && forall x :: x in rest && x != m ==> Below(m, x);
      if Below(m, y) {
        forall x | x in s && x != m ensures Below(m, x) {
          if x != y {
            assert x in rest;
          }
        }
      } else {
        BelowTotal(m, y);
        forall x | x in s && x != y ensures Below(y, x) {
          if x != m {
            assert x in rest;
            BelowTransitive(y, m, x);
          }
        }
      }
    }
  }

  /** Two ascending sequences with the same elements are the same sequence. */
  lemma {:induction false} AscendingUnique(xs: seq<string>, ys: seq<string>)
    requires Ascending(xs) && Ascending(ys)
    requires forall z :: z in xs <==> z in ys
    ensures xs == ys
    decreases |xs|
  {
    assert forall i :: 0 <= i < |xs| ==> xs[i] in ys;
    assert forall i :: 0 <= i < |ys| ==> ys[i] in xs;
    if xs != [] && ys != [] {
      assert xs[0] in ys && ys[0] in xs;
      if xs[0] != ys[0] {
        var i :| 0 <= i < |ys| && ys[i] == xs[0];
        var j :| 0 <= j < |xs| && xs[j] == ys[0];
        assert i != 0 && j != 0;
        assert Below(ys[0], ys[i]) && Below(xs[0], xs[j]);
        BelowTransitive(xs[0], ys[0], xs[0]);
        BelowIrreflexive(xs[0]);
      }
      SameTails(xs, ys);
      AscendingUnique(xs[1..], ys[1..]);
    }
  }

  /** Once the least elements agree, the rests hold the same elements. */
  lemma SameTails(xs: seq<string>, ys: seq<string>)
    requires Ascending(xs) && Ascending(ys)
    requires forall z :: z in xs <==> z in ys
    requires xs != [] && ys != [] && xs[0] == ys[0]
    ensures forall z :: z in xs[1..] <==> z in ys[1..]
  {
    forall z ensures z in xs[1..] ==> z in ys[1..] {
      if z in xs[1..] {
        var i :| 1 <= i < |xs| && xs[i] == z;
        assert Below(xs[0], z);
        BelowIrreflexive(z);
        assert xs[i] in xs;
        var j :| 0 <= j < |ys| && ys[j] == z;
        assert j != 0;
      }
    }
    forall z ensures z in ys[1..] ==> z in xs[1..] {
      if z in ys[1..] {
        var i :| 1 <= i < |ys| && ys[i] == z;
        assert Below(ys[0], z);
        BelowIrreflexive(z);
        assert ys[i] in ys;
        var j :| 0 <= j < |xs| && xs[j] == z;
        assert j != 0;
      }
    }
  }
}
