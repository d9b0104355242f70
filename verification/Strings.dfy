/** Facts about strings that the rest of the model stands on: decimal digits, splitting and joining on a
    separator, and the ordering Rust uses for `str`. */
module Strings {

  // ---------- decimal digits ----------

  const DIGITS := "0123456789"

  function OfNat(n: nat): (s: string)
    ensures s != ""
    ensures forall c <- s :: c in DIGITS
  {
    if n < 10 then [DIGITS[n]] else OfNat(n / 10) + [DIGITS[n % 10]]
  }

  function OfInt(n: int): string {
    if n < 0 then "-" + OfNat(-n) else OfNat(n)
  }

  lemma {:induction false} OfNatInjective(m: nat, n: nat)
    requires OfNat(m) == OfNat(n)
    ensures m == n
  {
    var s, t := OfNat(m), OfNat(n);
    assert s[|s| - 1] == DIGITS[m % 10] && t[|t| - 1] == DIGITS[n % 10];
    assert m % 10 == n % 10 by { DigitsDistinct(m % 10, n % 10); }
    if m < 10 && n < 10 {
    } else if m >= 10 && n >= 10 {
      assert OfNat(m / 10) == s[..|s| - 1] == t[..|t| - 1] == OfNat(n / 10);
      OfNatInjective(m / 10, n / 10);
    } else {
      assert false;
    }
  }

  /** The number that decimal digits stand for. */
  function DecimalValue(s: string): nat {
    if s == "" then 0 else 10 * DecimalValue(s[..|s| - 1]) + DigitValue(s[|s| - 1])
  }

  function DigitValue(c: char): nat {
    if '0' <= c <= '9' then c as nat - '0' as nat else 0
  }

  /** `OfNat` writes the number itself, and writes it in decimal. */
  lemma {:induction false} OfNatValue(n: nat)
    ensures DecimalValue(OfNat(n)) == n
  {
    var s := OfNat(n);
    assert DigitValue(DIGITS[n % 10]) == n % 10;
    if n < 10 {
      assert DecimalValue(s[..0]) == 0;
    } else {
      OfNatValue(n / 10);
      assert s[..|s| - 1] == OfNat(n / 10);
    }
  }

  lemma DigitsDistinct(i: nat, j: nat)
    requires i < 10 && j < 10 && DIGITS[i] == DIGITS[j]
    ensures i == j
  {}

  lemma NatHasNoSign(n: nat)
    ensures OfNat(n)[0] != '-'
  {
    assert OfNat(n)[0] in OfNat(n);
  }

  lemma OfIntInjective(m: int, n: int)
    requires OfInt(m) == OfInt(n)
    ensures m == n
  {
    if m < 0 && n < 0 {
      assert OfInt(m)[1..] == OfNat(-m) && OfInt(n)[1..] == OfNat(-n);
      OfNatInjective(-m, -n);
    } else if m >= 0 && n >= 0 {
      OfNatInjective(m, n);
    } else {
      NatHasNoSign(if m >= 0 then m else n);
      assert false;
    }
  }

  // ---------- splitting and joining ----------

  predicate Free(s: string, sep: char) {
    sep !in s
  }

  /** Rust's `str::split(char)`: always at least one segment. */
  function Split(s: string, sep: char): (segs: seq<string>)
    ensures segs != []
    ensures forall x <- segs :: Free(x, sep)
  {
    if s == "" then [""]
    else
      var rest := Split(s[1..], sep);
      assert Free(rest[0], sep) && forall x <- rest[1..] :: x in rest;
      if s[0] == sep then [""] + rest else [[s[0]] + rest[0]] + rest[1..]
  }

  function Join(segs: seq<string>, sep: char): string {
    if segs == [] then ""
    else if |segs| == 1 then segs[0]
    else segs[0] + [sep] + Join(segs[1..], sep)
  }

  lemma {:induction false} JoinSplit(s: string, sep: char)
    ensures Join(Split(s, sep), sep) == s
  {
    if s != "" {
      JoinSplit(s[1..], sep);
      var rest := Split(s[1..], sep);
      if s[0] == sep {
        assert ([""] + rest)[1..] == rest;
        assert "" + [sep] + s[1..] == s;
      } else {
        var segs := [[s[0]] + rest[0]] + rest[1..];
        assert segs[1..] == rest[1..];
        assert [s[0]] + s[1..] == s;
      }
    }
  }

  lemma {:induction false} SplitFree(s: string, sep: char)
    requires Free(s, sep)
    ensures Split(s, sep) == [s]
  {
    if s != "" {
      SplitFree(s[1..], sep);
      assert [s[0]] + s[1..] == s;
    }
  }

  lemma {:induction false} SplitAppend(a: string, b: string, sep: char)
    ensures Split(a + [sep] + b, sep) == Split(a, sep) + Split(b, sep)
  {
    var s, sb := a + [sep] + b, Split(b, sep);
    if a == "" {
      assert s[1..] == b;
    } else {
      var ra := Split(a[1..], sep);
      assert s[1..] == a[1..] + [sep] + b;
      assert s[0] == a[0];
      SplitAppend(a[1..], b, sep);
      if a[0] == sep {
        assert [""] + (ra + sb) == ([""] + ra) + sb;
      } else {
        assert [[a[0]] + ra[0]] + (ra + sb)[1..] == ([[a[0]] + ra[0]] + ra[1..]) + sb;
      }
    }
  }

  lemma {:induction false} SplitJoin(segs: seq<string>, sep: char)
    requires segs != [] && forall x <- segs :: Free(x, sep)
    ensures Split(Join(segs, sep), sep) == segs
  {
    SplitFree(segs[0], sep);
    if |segs| > 1 {
      SplitJoin(segs[1..], sep);
      SplitAppend(segs[0], Join(segs[1..], sep), sep);
      assert [segs[0]] + segs[1..] == segs;
    } else {
      assert segs == [segs[0]];
    }
  }

  lemma {:induction false} JoinAppend(a: seq<string>, b: seq<string>, sep: char)
    requires a != [] && b != []
    ensures Join(a + b, sep) == Join(a, sep) + [sep] + Join(b, sep)
  {
    if |a| == 1 {
      assert (a + b)[1..] == b;
    } else {
      assert (a + b)[1..] == a[1..] + b;
      JoinAppend(a[1..], b, sep);
      assert Join(a + b, sep) == a[0] + [sep] + (Join(a[1..], sep) + [sep] + Join(b, sep));
    }
  }

  /** Splitting is injective, because joining undoes it. */
  lemma SplitInjective(s: string, t: string, sep: char)
    requires Split(s, sep) == Split(t, sep)
    ensures s == t
  {
    JoinSplit(s, sep);
    JoinSplit(t, sep);
  }

  // ---------- the ordering of `str` ----------

  /** Code-point lexicographic order, which is the byte order of the UTF-8 text. */
  predicate Le(a: string, b: string) {
    a == "" || (b != "" && (a[0] < b[0] || (a[0] == b[0] && Le(a[1..], b[1..]))))
  }

  predicate Lt(a: string, b: string) {
    a != b && Le(a, b)
  }

  lemma {:induction false} LeAntisymmetric(a: string, b: string)
    requires Le(a, b) && Le(b, a)
    ensures a == b
  {
    if a != "" {
      LeAntisymmetric(a[1..], b[1..]);
      assert a == [a[0]] + a[1..] && b == [b[0]] + b[1..];
    }
  }

  lemma {:induction false} LeTotal(a: string, b: string)
    ensures Le(a, b) || Le(b, a)
  {
    if a != "" && b != "" {
      LeTotal(a[1..], b[1..]);
    }
  }

  lemma {:induction false} LeTransitive(a: string, b: string, c: string)
    requires Le(a, b) && Le(b, c)
    ensures Le(a, c)
  {
    if a != "" && a[0] == b[0] == c[0] {
      LeTransitive(a[1..], b[1..], c[1..]);
    }
  }

  /** `a` comes before `b` iff it is a proper prefix of it or has the smaller character where they first differ. */
  lemma {:induction false} LtExactly(a: string, b: string)
    ensures Lt(a, b) <==>
      (a <= b && a != b) || exists i: nat | i < |a| && i < |b| :: a[..i] == b[..i] && a[i] < b[i]
  {
    if a != "" && b != "" {
      assert a[..0] == b[..0];
      if a[0] == b[0] {
        LtExactly(a[1..], b[1..]);
        assert a == [a[0]] + a[1..] && b == [b[0]] + b[1..];
        if i: nat :| i < |a| && i < |b| && a[..i] == b[..i] && a[i] < b[i] {
          assert a[1..][..i - 1] == a[..i][1..] && b[1..][..i - 1] == b[..i][1..] && a[1..][i - 1] == a[i];
        }
        if i: nat :| i < |a[1..]| && i < |b[1..]| && a[1..][..i] == b[1..][..i] && a[1..][i] < b[1..][i] {
          assert a[..i + 1] == [a[0]] + a[1..][..i] && b[..i + 1] == [b[0]] + b[1..][..i];
          assert a[i + 1] < b[i + 1];
        }
      } else {
        forall i: nat | 0 < i < |a| && i < |b| ensures a[..i] != b[..i] {
          assert a[..i][0] == a[0] && b[..i][0] == b[0];
        }
      }
    }
  }

  predicate IsLeast(x: string, s: set<string>) {
    x in s && forall y <- s :: Le(x, y)
  }

  lemma LeastExists(s: set<string>)
    requires s != {}
    ensures exists x :: IsLeast(x, s)
  {
    var y :| y in s;
    if s == {y} {
      LeTotal(y, y);
      assert IsLeast(y, s);
    } else {
      var rest := s - {y};
      LeastExists(rest);
      var x :| IsLeast(x, rest);
      LeTotal(x, y);
      LeTotal(y, y);
      if Le(x, y) {
        assert IsLeast(x, s);
      } else {
        forall z <- s ensures Le(y, z) {
          if z != y { LeTransitive(y, x, z); }
        }
        assert IsLeast(y, s);
      }
    }
  }

  lemma LeastUnique(x: string, y: string, s: set<string>)
    requires IsLeast(x, s) && IsLeast(y, s)
    ensures x == y
  {
    LeAntisymmetric(x, y);
  }

  function Least(s: set<string>): (x: string)
    requires s != {}
    ensures IsLeast(x, s)
  {
    LeastExists(s);
    assert forall x, y | IsLeast(x, s) && IsLeast(y, s) :: x == y by {
      forall x, y | IsLeast(x, s) && IsLeast(y, s) ensures x == y { LeastUnique(x, y, s); }
    }
    var x :| x in s && IsLeast(x, s);
    x
  }

  predicate Ascending(keys: seq<string>) {
    forall i, j | 0 <= i < j < |keys| :: Lt(keys[i], keys[j])
  }

  /** The elements of `s` in ascending order: the iteration order of serde_json's map and the result of `sort`. */
  function Sorted(s: set<string>): (keys: seq<string>)
    ensures forall k :: k in keys <==> k in s
    ensures |keys| == |s|
    ensures Ascending(keys)
  {
    if s == {} then [] else
      var x := Least(s);
      [x] + Sorted(s - {x})
  }

  /** There is only one ascending listing of a set, so sorting any listing of it gives `Sorted`. */
  lemma {:induction false} SortedUnique(s: set<string>, keys: seq<string>)
    requires forall k :: k in keys <==> k in s
    requires Ascending(keys)
    ensures keys == Sorted(s)
  {
    if keys == [] {
      assert s == {};
    } else {
      assert keys[0] in s;
      forall y <- s ensures Le(keys[0], y) {
        var j :| 0 <= j < |keys| && keys[j] == y;
        LeTotal(y, y);
      }
      LeastUnique(keys[0], Least(s), s);
      forall k ensures k in keys[1..] <==> k in s - {keys[0]} {
        if k in keys && k != keys[0] {
          var j :| 0 <= j < |keys| && keys[j] == k;
          assert keys[1..][j - 1] == k;
        }
        if k in keys[1..] {
          var j :| 0 <= j < |keys[1..]| && keys[1..][j] == k;
          assert Lt(keys[0], keys[j + 1]);
        }
      }
      SortedUnique(s - {keys[0]}, keys[1..]);
      assert [keys[0]] + keys[1..] == keys;
    }
  }
}
