/**
 The order `Array.prototype.sort` uses on strings when no comparator is given:
 character by character, a proper prefix first. `ls` sorts the names of a
 directory with it.
 */
module Order {

  /** `a` sorts at or before `b`. */
  predicate Below(a: string, b: string) {
    |a| == 0 || (|b| > 0 && (a[0] < b[0] || (a[0] == b[0] && Below(a[1..], b[1..]))))
  }

  lemma {:induction false} BelowReflexive(a: string)
    ensures Below(a, a)
  {
    if |a| > 0 {
      BelowReflexive(a[1..]);
    }
  }

  lemma {:induction false} BelowTotal(a: string, b: string)
    ensures Below(a, b) || Below(b, a)
  {
    if |a| > 0 && |b| > 0 && a[0] == b[0] {
      BelowTotal(a[1..], b[1..]);
    }
  }

  lemma {:induction false} BelowAntisymmetric(a: string, b: string)
    requires Below(a, b) && Below(b, a)
    ensures a == b
  {
    if |a| > 0 && |b| > 0 {
      BelowAntisymmetric(a[1..], b[1..]);
      assert a == [a[0]] + a[1..];
      assert b == [b[0]] + b[1..];
    }
  }

  lemma {:induction false} BelowTransitive(a: string, b: string, c: string)
    requires Below(a, b) && Below(b, c)
    ensures Below(a, c)
  {
    if |a| > 0 && |b| > 0 && |c| > 0 && a[0] == b[0] && b[0] == c[0] {
      BelowTransitive(a[1..], b[1..], c[1..]);
    }
  }

  /** `m` sorts at or before every member of `names`. */
  predicate IsLeast(m: string, names: set<string>) {
    m in names && forall x :: x in names ==> Below(m, x)
  }

  lemma {:induction false} LeastExists(names: set<string>)
    requires names != {}
    ensures exists m :: IsLeast(m, names)
    decreases |names|
  {
    var y :| y in names;
    if names == {y} {
      BelowReflexive(y);
      assert IsLeast(y, names);
    } else {
      LeastExists(names - {y});
      var m :| IsLeast(m, names - {y});
      BelowTotal(y, m);
      if Below(y, m) {
        forall x | x in names ensures Below(y, x) {
          if x == y { BelowReflexive(y); } else { BelowTransitive(y, m, x); }
        }
        assert IsLeast(y, names);
      } else {
        assert IsLeast(m, names);
      }
    }
  }

  lemma LeastUnique(m: string, n: string, names: set<string>)
    requires IsLeast(m, names) && IsLeast(n, names)
    ensures m == n
  {
    BelowAntisymmetric(m, n);
  }

  /** Strictly ascending: sorted, and no name twice. */
  predicate Ascending(names: seq<string>) {
    forall i, j :: 0 <= i < j < |names| ==> Below(names[i], names[j]) && names[i] != names[j]
  }

  /** `Array.from(names).sort()` for a set of distinct names. */
  function Sort(names: set<string>): (r: seq<string>)
    ensures |r| == |names|
    ensures forall x :: x in r <==> x in names
    ensures Ascending(r)
    decreases |names|
  {
    if names == {} then []
    else
      LeastExists(names);
      assert forall m, n :: IsLeast(m, names) && IsLeast(n, names) ==> m == n by {
        forall m, n | IsLeast(m, names) && IsLeast(n, names) ensures m == n {
          LeastUnique(m, n, names);
        }
      }
      var m :| IsLeast(m, names);
      [m] + Sort(names - {m})
  }

  /** There is only one strictly ascending listing of a set of names, so any
      such listing is the one `Sort` produces. */
  lemma {:induction false} AscendingUnique(a: seq<string>, b: seq<string>)
    requires Ascending(a) && Ascending(b)
    requires forall x :: x in a <==> x in b
    ensures a == b
    decreases |a|
  {
    assert |a| == 0 <==> |b| == 0 by {
      if |a| > 0 { assert a[0] in b; }
      if |b| > 0 { assert b[0] in a; }
    }
    if |a| > 0 {
      assert b[0] in a;
      assert a[0] in b;
      forall x | x in a ensures Below(a[0], x) {
        var i :| 0 <= i < |a| && a[i] == x;
        if i > 0 { assert Below(a[0], a[i]); } else { BelowReflexive(x); }
      }
      forall x | x in b ensures Below(b[0], x) {
        var i :| 0 <= i < |b| && b[i] == x;
        if i > 0 { assert Below(b[0], b[i]); } else { BelowReflexive(x); }
      }
      BelowAntisymmetric(a[0], b[0]);
      forall x ensures x in a[1..] <==> x in b[1..] {
        if x in a[1..] {
          var i :| 1 <= i < |a| && a[i] == x;
          assert x != a[0];
          assert x in a;
          assert x in b;
          var j :| 0 <= j < |b| && b[j] == x;
          assert j > 0 && b[1..][j - 1] == x;
        }
        if x in b[1..] {
          var i :| 1 <= i < |b| && b[i] == x;
          assert x != b[0];
          assert x in b;
          assert x in a;
          var j :| 0 <= j < |a| && a[j] == x;
          assert j > 0 && a[1..][j - 1] == x;
        }
      }
      AscendingUnique(a[1..], b[1..]);
      assert a == [a[0]] + a[1..];
      assert b == [b[0]] + b[1..];
    }
  }
}
