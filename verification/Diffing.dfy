/** The structural diff of two JSON values (src/compare/diff.rs). `Diff` and its companions say what the
    mutually recursive methods at the end of the module compute. */
module Diffing {
  import opened Json

  datatype Difference =
    | NoDifference(value: Value)
    | PrimitiveDifference(left: Value, right: Value)
    | ObjectDifference(fields: map<string, Difference>)
    | MissingField(value: Value)
    | ExtraField(value: Value)
    | IndexedDifference(elements: seq<Located>)
    | SeqSizeDifference(leftNotRight: seq<Value>, rightNotLeft: seq<Value>)
    | OrderingDifference
    | TypeDifference(leftValue: Value, rightValue: Value)

  /** An entry of an `IndexedDifference`. */
  datatype Located = Located(index: nat, diff: Difference)

  // ---------- specification ----------

  predicate SamePrimitive(l: Value, r: Value) {
    (l.Bool? && r.Bool?) || (l.Str? && r.Str?) || (l.Num? && r.Num?)
  }

  function Diff(l: Value, r: Value): (d: Difference)
    ensures d.NoDifference? <==> l == r
    ensures !d.MissingField? && !d.ExtraField?
    decreases l, 1, 0
  {
    if l == r then NoDifference(l)
    else if SamePrimitive(l, r) then PrimitiveDifference(l, r)
    else if l.Obj? && r.Obj? then ObjectDifference(DiffFields(l, r))
    else if l.Arr? && r.Arr? then DiffArrays(l, r)
    else TypeDifference(l, r)
  }

  /** What the object diff records for one key; `NoDifference` means nothing. */
  function FieldDifference(l: Value, r: Value, k: string): (d: Difference)
    requires l.Obj? && r.Obj? && (k in l.fields || k in r.fields)
    ensures d.NoDifference? <==> k in l.fields && k in r.fields && l.fields[k] == r.fields[k]
    ensures d.MissingField? <==> k !in r.fields
    ensures d.ExtraField? <==> k !in l.fields
    decreases l, 0, 0
  {
    if k !in r.fields then MissingField(l.fields[k])
    else if k !in l.fields then ExtraField(r.fields[k])
    else Diff(l.fields[k], r.fields[k])
  }

  function DiffFields(l: Value, r: Value): map<string, Difference>
    requires l.Obj? && r.Obj?
    decreases l, 0, 1
  {
    map k | k in l.fields.Keys + r.fields.Keys && !FieldDifference(l, r, k).NoDifference? :: FieldDifference(l, r, k)
  }

  function DiffArrays(l: Value, r: Value): Difference
    requires l.Arr? && r.Arr?
    decreases l, 0, |l.elems| + 1
  {
    if |l.elems| != |r.elems| then
      SeqSizeDifference(SetDifference(l.elems, r.elems), SetDifference(r.elems, l.elems))
    else if SetDifference(l.elems, r.elems) == [] then OrderingDifference
    else IndexedDifference(DiffElements(l, r, 0))
  }

  function DiffElements(l: Value, r: Value, i: nat): seq<Located>
    requires l.Arr? && r.Arr? && |l.elems| == |r.elems| && i <= |l.elems|
    decreases l, 0, |l.elems| - i
  {
    if i == |l.elems| then []
    else
      var d := Diff(l.elems[i], r.elems[i]);
      (if d.NoDifference? then [] else [Located(i, d)]) + DiffElements(l, r, i + 1)
  }

  lemma DiffElementsStep(l: Value, r: Value, i: nat)
    requires l.Arr? && r.Arr? && |l.elems| == |r.elems| && i < |l.elems|
    ensures DiffElements(l, r, i) ==
      if l.elems[i] == r.elems[i] then DiffElements(l, r, i + 1)
      else [Located(i, Diff(l.elems[i], r.elems[i]))] + DiffElements(l, r, i + 1)
  {
    var rest := DiffElements(l, r, i + 1);
    assert [] + rest == rest;
  }

  /** Walks `a`, letting every element use up one equal element of `budget`; what finds none is kept. */
  function Surplus(a: seq<Value>, budget: multiset<Value>): seq<Value> {
    if a == [] then []
    else if a[0] in budget then Surplus(a[1..], budget - multiset{a[0]})
    else [a[0]] + Surplus(a[1..], budget)
  }

  function SetDifference(a: seq<Value>, b: seq<Value>): seq<Value> {
    Surplus(a, multiset(b))
  }

  /** A key is reported iff the sides disagree on it. */
  lemma FieldReported(l: Value, r: Value, k: string)
    requires l.Obj? && r.Obj? && (k in l.fields || k in r.fields)
    ensures k in DiffFields(l, r) <==> k !in l.fields || k !in r.fields || l.fields[k] != r.fields[k]
    ensures k in DiffFields(l, r) ==> DiffFields(l, r)[k] == FieldDifference(l, r, k)
  {
    assert k in DiffFields(l, r) <==> !FieldDifference(l, r, k).NoDifference?;
  }

  // ---------- set_difference is exact ----------

  lemma {:induction false} SurplusMultiset(a: seq<Value>, budget: multiset<Value>)
    ensures multiset(Surplus(a, budget)) == multiset(a) - budget
  {
    if a == [] {
    } else {
      assert a == [a[0]] + a[1..];
      if a[0] in budget {
        SurplusMultiset(a[1..], budget - multiset{a[0]});
      } else {
        SurplusMultiset(a[1..], budget);
      }
    }
  }

  lemma SetDifferenceMultiset(a: seq<Value>, b: seq<Value>)
    ensures multiset(SetDifference(a, b)) == multiset(a) - multiset(b)
  {
    SurplusMultiset(a, multiset(b));
  }

  lemma MultisetSizes(x: multiset<Value>, y: multiset<Value>)
    ensures |x| - |x - y| == |y| - |y - x|
  {
    assert x == (x - y) + (x * y);
    assert y == (y - x) + (x * y);
  }

  /** The two leftovers account for exactly the difference in length. */
  lemma SetDifferenceLengths(a: seq<Value>, b: seq<Value>)
    ensures |a| - |SetDifference(a, b)| == |b| - |SetDifference(b, a)|
  {
    SetDifferenceMultiset(a, b);
    SetDifferenceMultiset(b, a);
    MultisetSizes(multiset(a), multiset(b));
    assert |multiset(SetDifference(a, b))| == |SetDifference(a, b)|;
    assert |multiset(SetDifference(b, a))| == |SetDifference(b, a)|;
  }

  /** The elements of `a` from position `i` on that are preceded, in all of `a`, by at least as many equal
      elements as `b` holds: in order, and of each value the last surplus occurrences. */
  function LateOccurrences(a: seq<Value>, b: seq<Value>, i: nat): seq<Value>
    requires i <= |a|
    decreases |a| - i
  {
    if i == |a| then []
    else (if multiset(a[..i])[a[i]] >= multiset(b)[a[i]] then [a[i]] else []) + LateOccurrences(a, b, i + 1)
  }

  lemma BudgetAfter(b: multiset<Value>, seen: multiset<Value>, x: Value)
    ensures b - (seen + multiset{x}) == if x in b - seen then b - seen - multiset{x} else b - seen
    ensures x in b - seen <==> seen[x] < b[x]
  {}

  lemma {:induction false} SurplusIsLate(a: seq<Value>, b: seq<Value>, i: nat)
    requires i <= |a|
    ensures Surplus(a[i..], multiset(b) - multiset(a[..i])) == LateOccurrences(a, b, i)
    decreases |a| - i
  {
    if i < |a| {
      var budget := multiset(b) - multiset(a[..i]);
      assert a[i..][1..] == a[i + 1..];
      assert a[..i + 1] == a[..i] + [a[i]];
      SurplusIsLate(a, b, i + 1);
      BudgetAfter(multiset(b), multiset(a[..i]), a[i]);
      assert multiset(a[..i + 1]) == multiset(a[..i]) + multiset{a[i]};
    }
  }

  lemma SetDifferenceKeepsLast(a: seq<Value>, b: seq<Value>)
    ensures SetDifference(a, b) == LateOccurrences(a, b, 0)
  {
    SurplusIsLate(a, b, 0);
    assert a[0..] == a && multiset(b) - multiset(a[..0]) == multiset(b);
  }

  // ---------- array classification is exact ----------

  /** At equal length the one-sided emptiness test decides whether the arrays are permutations. */
  lemma OneSidedTestSuffices(a: seq<Value>, b: seq<Value>)
    requires |a| == |b|
    ensures SetDifference(a, b) == [] <==> multiset(a) == multiset(b)
  {
    SetDifferenceMultiset(a, b);
    SetDifferenceMultiset(b, a);
    SetDifferenceLengths(a, b);
    var x, y := multiset(a), multiset(b);
    if SetDifference(a, b) == [] {
      assert SetDifference(b, a) == [];
      assert x - y == multiset{} && y - x == multiset{};
      forall v ensures x[v] == y[v] {
        assert (x - y)[v] == 0 && (y - x)[v] == 0;
      }
    } else {
      assert SetDifference(a, b)[0] in multiset(SetDifference(a, b));
    }
  }

  /** `e` reports a position at which the arrays differ, together with the diff found there. */
  predicate ReportsPosition(l: Value, r: Value, e: Located)
    requires l.Arr? && r.Arr? && |l.elems| == |r.elems|
  {
    e.index < |l.elems| && l.elems[e.index] != r.elems[e.index] && e.diff == Diff(l.elems[e.index], r.elems[e.index])
  }

  /** Every entry of the report, from position `i` on, is a differing position. */
  lemma {:induction false} DiffElementsSound(l: Value, r: Value, i: nat, m: nat)
    requires l.Arr? && r.Arr? && |l.elems| == |r.elems| && i <= |l.elems| && m < |DiffElements(l, r, i)|
    ensures i <= DiffElements(l, r, i)[m].index && ReportsPosition(l, r, DiffElements(l, r, i)[m])
    decreases |l.elems| - i
  {
    var all, rest := DiffElements(l, r, i), DiffElements(l, r, i + 1);
    DiffElementsStep(l, r, i);
    if l.elems[i] == r.elems[i] {
      assert all == rest;
      DiffElementsSound(l, r, i + 1, m);
    } else if m > 0 {
      assert all[m] == rest[m - 1];
      DiffElementsSound(l, r, i + 1, m - 1);
    }
  }

  /** The report is in ascending order. */
  lemma {:induction false} DiffElementsAscend(l: Value, r: Value, i: nat, m: nat, n: nat)
    requires l.Arr? && r.Arr? && |l.elems| == |r.elems| && i <= |l.elems| && m < n < |DiffElements(l, r, i)|
    ensures DiffElements(l, r, i)[m].index < DiffElements(l, r, i)[n].index
    decreases |l.elems| - i
  {
    var all, rest := DiffElements(l, r, i), DiffElements(l, r, i + 1);
    DiffElementsStep(l, r, i);
    if l.elems[i] == r.elems[i] {
      assert all == rest;
      DiffElementsAscend(l, r, i + 1, m, n);
    } else {
      assert all[n] == rest[n - 1];
      if m > 0 {
        assert all[m] == rest[m - 1];
        DiffElementsAscend(l, r, i + 1, m - 1, n - 1);
      } else {
        assert all[m].index == i;
        DiffElementsSound(l, r, i + 1, n - 1);
      }
    }
  }

  lemma {:induction false} DiffElementsIndex(l: Value, r: Value, i: nat, j: nat) returns (m: nat)
    requires l.Arr? && r.Arr? && |l.elems| == |r.elems|
    requires i <= j < |l.elems| && l.elems[j] != r.elems[j]
    ensures m < |DiffElements(l, r, i)| && DiffElements(l, r, i)[m] == Located(j, Diff(l.elems[j], r.elems[j]))
    decreases j - i
  {
    var all, rest := DiffElements(l, r, i), DiffElements(l, r, i + 1);
    DiffElementsStep(l, r, i);
    if i == j {
      m := 0;
    } else {
      m := DiffElementsIndex(l, r, i + 1, j);
      if l.elems[i] == r.elems[i] {
        assert all == rest;
      } else {
        assert all[m + 1] == rest[m];
        m := m + 1;
      }
    }
  }

  /** The report omits no differing position. */
  lemma DiffElementsComplete(l: Value, r: Value, j: nat)
    requires l.Arr? && r.Arr? && |l.elems| == |r.elems| && j < |l.elems| && l.elems[j] != r.elems[j]
    ensures Located(j, Diff(l.elems[j], r.elems[j])) in DiffElements(l, r, 0)
  {
    var m := DiffElementsIndex(l, r, 0, j);
  }

  /** Which of the three array reports is made, and that the index report lists the differing positions,
      all of them and in order. */
  lemma ArrayClassification(l: Value, r: Value)
    requires l.Arr? && r.Arr? && l != r
    ensures Diff(l, r).SeqSizeDifference? <==> |l.elems| != |r.elems|
    ensures Diff(l, r).OrderingDifference? <==> multiset(l.elems) == multiset(r.elems)
    ensures Diff(l, r).IndexedDifference? <==> |l.elems| == |r.elems| && multiset(l.elems) != multiset(r.elems)
    ensures Diff(l, r).IndexedDifference? ==>
      var es := Diff(l, r).elements;
      && es != []
      && (forall m | 0 <= m < |es| :: ReportsPosition(l, r, es[m]))
      && (forall m, n | 0 <= m < n < |es| :: es[m].index < es[n].index)
      && (forall j | 0 <= j < |l.elems| && l.elems[j] != r.elems[j] :: Located(j, Diff(l.elems[j], r.elems[j])) in es)
  {
    assert |multiset(l.elems)| == |l.elems| && |multiset(r.elems)| == |r.elems|;
    if |l.elems| == |r.elems| {
      OneSidedTestSuffices(l.elems, r.elems);
      forall m | 0 <= m < |DiffElements(l, r, 0)| ensures ReportsPosition(l, r, DiffElements(l, r, 0)[m]) {
        DiffElementsSound(l, r, 0, m);
      }
      forall m, n | 0 <= m < n < |DiffElements(l, r, 0)|
        ensures DiffElements(l, r, 0)[m].index < DiffElements(l, r, 0)[n].index
      {
        DiffElementsAscend(l, r, 0, m, n);
      }
      forall j | 0 <= j < |l.elems| && l.elems[j] != r.elems[j] { DiffElementsComplete(l, r, j); }
      var j :| 0 <= j < |l.elems| && l.elems[j] != r.elems[j];
    }
  }

  // ---------- the methods ----------

  method ComputeDiff(l: Value, r: Value) returns (d: Difference)
    ensures d == Diff(l, r)
    decreases l, 1, 0
  {
    if l == r {
      return NoDifference(l);
    }
    match (l, r) {
      case (Bool(_), Bool(_)) => d := PrimitiveDifference(l, r);
      case (Str(_), Str(_)) => d := PrimitiveDifference(l, r);
      case (Num(_), Num(_)) => d := PrimitiveDifference(l, r);
      case (Obj(_), Obj(_)) => d := ComputeDiffObjects(l, r);
      case (Arr(_), Arr(_)) => d := ComputeDiffArrays(l, r);
      case _ => d := TypeDifference(l, r);
    }
  }

  /** `fields` agrees with `want` on the keys in `done` and has no others. */
  ghost predicate Filled(fields: map<string, Difference>, want: map<string, Difference>, done: set<string>) {
    forall k :: (k in fields <==> k in want && k in done) && (k in fields ==> fields[k] == want[k])
  }

  lemma FillKey(fields: map<string, Difference>, l: Value, r: Value, done: set<string>, k: string)
    requires l.Obj? && r.Obj? && (k in l.fields || k in r.fields)
    requires Filled(fields, DiffFields(l, r), done)
    ensures var d := FieldDifference(l, r, k);
      Filled(if d.NoDifference? then fields else fields[k := d], DiffFields(l, r), done + {k})
  {}

  lemma FilledCompletely(fields: map<string, Difference>, l: Value, r: Value)
    requires l.Obj? && r.Obj?
    requires Filled(fields, DiffFields(l, r), l.fields.Keys + r.fields.Keys)
    ensures fields == DiffFields(l, r)
  {}

  /** Both loops take the keys in an arbitrary order, so the result does not depend on map iteration order. */
  method ComputeDiffObjects(l: Value, r: Value) returns (d: Difference)
    requires l.Obj? && r.Obj?
    ensures d == ObjectDifference(DiffFields(l, r))
    decreases l, 0, 1
  {
    var fields: map<string, Difference> := map[];
    ghost var done: set<string> := {};
    var pending := l.fields.Keys;
    while pending != {}
      invariant pending <= l.fields.Keys && done == l.fields.Keys - pending
      invariant Filled(fields, DiffFields(l, r), done)
    {
      var key :| key in pending;
      FillKey(fields, l, r, done, key);
      if key in r.fields {
        var child := ComputeDiff(l.fields[key], r.fields[key]);
        if !child.NoDifference? {
          fields := fields[key := child];
        }
      } else {
        fields := fields[key := MissingField(l.fields[key])];
      }
      pending, done := pending - {key}, done + {key};
    }
    pending := r.fields.Keys;
    while pending != {}
      invariant pending <= r.fields.Keys && done == l.fields.Keys + (r.fields.Keys - pending)
      invariant Filled(fields, DiffFields(l, r), done)
    {
      var key :| key in pending;
      if key !in l.fields {
        FillKey(fields, l, r, done, key);
        fields := fields[key := ExtraField(r.fields[key])];
      }
      pending, done := pending - {key}, done + {key};
    }
    assert done == l.fields.Keys + r.fields.Keys;
    FilledCompletely(fields, l, r);
    d := ObjectDifference(fields);
  }

  method ComputeDiffArrays(l: Value, r: Value) returns (d: Difference)
    requires l.Arr? && r.Arr?
    ensures d == DiffArrays(l, r)
    decreases l, 0, 1
  {
    if |l.elems| != |r.elems| {
      var leftNotRight := ComputeSetDifference(l.elems, r.elems);
      var rightNotLeft := ComputeSetDifference(r.elems, l.elems);
      return SeqSizeDifference(leftNotRight, rightNotLeft);
    }
    var surplus := ComputeSetDifference(l.elems, r.elems);
    if surplus == [] {
      return OrderingDifference;
    }
    var elements := ComputeDiffElements(l, r);
    d := IndexedDifference(elements);
  }

  method ComputeDiffElements(l: Value, r: Value) returns (elements: seq<Located>)
    requires l.Arr? && r.Arr? && |l.elems| == |r.elems|
    ensures elements == DiffElements(l, r, 0)
    decreases l, 0, 0
  {
    elements := [];
    for i := 0 to |l.elems|
      invariant elements + DiffElements(l, r, i) == DiffElements(l, r, 0)
    {
      var child := ComputeDiff(l.elems[i], r.elems[i]);
      DiffElementsStep(l, r, i);
      if !child.NoDifference? {
        KeepOne(elements, Located(i, child), DiffElements(l, r, i + 1));
        elements := elements + [Located(i, child)];
      }
    }
  }

  lemma KeepOne<T>(a: seq<T>, x: T, b: seq<T>)
    ensures a + ([x] + b) == (a + [x]) + b
  {}

  function CountOf(counts: map<string, nat>, key: string): nat {
    if key in counts then counts[key] else 0
  }

  /** The counting map, keyed by text, stands for a multiset of values. */
  ghost predicate Stands(counts: map<string, nat>, m: multiset<Value>) {
    forall v :: CountOf(counts, Text(v)) == m[v]
  }

  lemma StandsUpdated(counts: map<string, nat>, m: multiset<Value>, x: Value, n: nat)
    requires Stands(counts, m)
    ensures Stands(counts[Text(x) := n], m[x := n])
  {
    forall v ensures CountOf(counts[Text(x) := n], Text(v)) == m[x := n][v] {
      if Text(v) == Text(x) { TextInjective(v, x); }
    }
  }

  method ComputeSetDifference(a: seq<Value>, b: seq<Value>) returns (kept: seq<Value>)
    ensures kept == SetDifference(a, b)
  {
    var counts: map<string, nat> := map[];
    for i := 0 to |b|
      invariant Stands(counts, multiset(b[..i]))
    {
      var key := Text(b[i]);
      StandsUpdated(counts, multiset(b[..i]), b[i], CountOf(counts, key) + 1);
      counts := counts[key := CountOf(counts, key) + 1];
      assert b[..i + 1] == b[..i] + [b[i]];
      assert multiset(b[..i + 1]) == multiset(b[..i])[b[i] := multiset(b[..i])[b[i]] + 1];
    }
    assert b[..|b|] == b;
    ghost var budget := multiset(b);
    kept := [];
    for i := 0 to |a|
      invariant Stands(counts, budget)
      invariant kept + Surplus(a[i..], budget) == SetDifference(a, b)
    {
      var key := Text(a[i]);
      assert a[i..][1..] == a[i + 1..];
      assert CountOf(counts, key) == budget[a[i]];
      if key in counts && counts[key] > 0 {
        StandsUpdated(counts, budget, a[i], counts[key] - 1);
        counts := counts[key := counts[key] - 1];
        assert budget - multiset{a[i]} == budget[a[i] := budget[a[i]] - 1];
        budget := budget - multiset{a[i]};
      } else {
        KeepOne(kept, a[i], Surplus(a[i + 1..], budget));
        kept := kept + [a[i]];
      }
    }
  }
}
