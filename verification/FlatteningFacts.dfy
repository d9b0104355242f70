/** What the flattened map says about the two values that were compared. */
module FlatteningFacts {
  import opened Wrappers
  import opened Strings
  import opened Json
  import opened Diffing
  import opened Flattening

  // ---------- the leaves of the diff of two values ----------

  /** How a leaf of `Diff(l, r)` continues one level down. */
  lemma LeafOfObject(l: Value, r: Value, x: Leaf)
    requires l.Obj? && r.Obj? && l != r && x in Leaves(Diff(l, r))
    ensures x.segs != [] && x.segs[0] in DiffFields(l, r)
    ensures Leaf(x.segs[1..], x.diff) in Leaves(DiffFields(l, r)[x.segs[0]])
    ensures DiffFields(l, r)[x.segs[0]] == FieldDifference(l, r, x.segs[0])
  {
    var fs := DiffFields(l, r);
    var k :| k in fs && x in Under(k, Leaves(fs[k]));
    var y :| y in Leaves(fs[k]) && x == Leaf([k] + y.segs, y.diff);
    assert y == Leaf(x.segs[1..], x.diff);
    FieldReported(l, r, k);
  }

  lemma LeafOfArrays(l: Value, r: Value, x: Leaf) returns (j: nat)
    requires l.Arr? && r.Arr? && Diff(l, r).IndexedDifference? && x in Leaves(Diff(l, r))
    ensures j < |l.elems| == |r.elems| && l.elems[j] != r.elems[j]
    ensures x.segs != [] && x.segs[0] == OfNat(j)
    ensures Leaf(x.segs[1..], x.diff) in Leaves(Diff(l.elems[j], r.elems[j]))
  {
    ArrayClassification(l, r);
    var es := Diff(l, r).elements;
    var i: nat :| i < |es| && x in Under(OfNat(es[i].index), Leaves(es[i].diff));
    var y :| y in Leaves(es[i].diff) && x == Leaf([OfNat(es[i].index)] + y.segs, y.diff);
    assert y == Leaf(x.segs[1..], x.diff);
    j := es[i].index;
    assert ReportsPosition(l, r, es[i]);
  }

  lemma FieldLeaf(l: Value, r: Value, k: string, y: Leaf)
    requires l.Obj? && r.Obj? && k in DiffFields(l, r) && y in Leaves(DiffFields(l, r)[k])
    ensures l != r && Leaf([k] + y.segs, y.diff) in Leaves(Diff(l, r))
  {
    assert Leaf([k] + y.segs, y.diff) in Under(k, Leaves(DiffFields(l, r)[k]));
    FieldReported(l, r, k);
  }

  /** A leaf below a key that both sides have. */
  lemma SharedFieldLeaf(l: Value, r: Value, k: string, y: Leaf)
    requires l.Obj? && r.Obj? && k in l.fields && k in r.fields && l.fields[k] != r.fields[k]
    requires y in Leaves(Diff(l.fields[k], r.fields[k]))
    ensures l != r && Leaf([k] + y.segs, y.diff) in Leaves(Diff(l, r))
  {
    FieldReported(l, r, k);
    FieldLeaf(l, r, k, y);
  }

  lemma ElementLeaf(l: Value, r: Value, j: nat, y: Leaf)
    requires l.Arr? && r.Arr? && Diff(l, r).IndexedDifference? && j < |l.elems| && j < |r.elems|
    requires l.elems[j] != r.elems[j] && y in Leaves(Diff(l.elems[j], r.elems[j]))
    ensures Leaf([OfNat(j)] + y.segs, y.diff) in Leaves(Diff(l, r))
  {
    ArrayClassification(l, r);
    var es, e := Diff(l, r).elements, Located(j, Diff(l.elems[j], r.elems[j]));
    assert e in es;
    var i :| 0 <= i < |es| && es[i] == e;
    assert Leaf([OfNat(j)] + y.segs, y.diff) in Under(OfNat(es[i].index), Leaves(es[i].diff));
  }

  /** When neither object keys nor array positions are compared, the root itself is the only leaf. */
  lemma RootLeaf(l: Value, r: Value)
    requires l != r && !(l.Obj? && r.Obj?) && !(l.Arr? && r.Arr? && Diff(l, r).IndexedDifference?)
    ensures IsLeaf(Diff(l, r)) && Leaves(Diff(l, r)) == {Leaf([], LeafDiff(Diff(l, r)))}
  {
    if l.Arr? && r.Arr? {
      ArrayClassification(l, r);
    }
  }

  // ---------- walking a path ----------

  function IndexOf(seg: string, n: nat): (i: Option<nat>)
    ensures i.Some? ==> i.value < n && OfNat(i.value) == seg
    ensures i.None? ==> forall j: nat | j < n :: OfNat(j) != seg
  {
    if n == 0 then None else if OfNat(n - 1) == seg then Some(n - 1) else IndexOf(seg, n - 1)
  }

  /** The value found by following object keys and array indices from `v`. */
  function Walk(v: Value, segs: seq<string>): Option<Value>
    decreases |segs|
  {
    if segs == [] then Some(v)
    else if v.Obj? then
      if segs[0] in v.fields then Walk(v.fields[segs[0]], segs[1..]) else None
    else if v.Arr? then
      var i := IndexOf(segs[0], |v.elems|);
      if i.Some? then Walk(v.elems[i.value], segs[1..]) else None
    else None
  }

  lemma WalkElement(v: Value, j: nat, segs: seq<string>)
    requires v.Arr? && j < |v.elems| && segs != [] && segs[0] == OfNat(j)
    ensures Walk(v, segs) == Walk(v.elems[j], segs[1..])
  {
    var i := IndexOf(segs[0], |v.elems|);
    if i.Some? { OfNatInjective(i.value, j); }
  }

  lemma {:induction false} WalkFurther(v: Value, a: seq<string>, b: seq<string>)
    ensures Walk(v, a + b) == if Walk(v, a).Some? then Walk(Walk(v, a).value, b) else None
    decreases |a|
  {
    if a == [] {
      assert a + b == b;
    } else {
      assert (a + b)[1..] == a[1..] + b;
      if v.Obj? && a[0] in v.fields {
        WalkFurther(v.fields[a[0]], a[1..], b);
      } else if v.Arr? && IndexOf(a[0], |v.elems|).Some? {
        WalkFurther(v.elems[IndexOf(a[0], |v.elems|).value], a[1..], b);
      }
    }
  }

  // ---------- soundness ----------

  /** The two values have the same JSON type. */
  predicate SameType(l: Value, r: Value) {
    match (l, r)
    case (Null, Null) => true
    case (Bool(_), Bool(_)) => true
    case (Num(_), Num(_)) => true
    case (Str(_), Str(_)) => true
    case (Arr(_), Arr(_)) => true
    case (Obj(_), Obj(_)) => true
    case _ => false
  }

  /** `fd` is a true and complete account of what the two sides hold at one place. */
  predicate Describes(fd: FieldDiff, l: Option<Value>, r: Option<Value>) {
    match fd.diffType
    case Primitive =>
      && fd.left == l && fd.right == r && l.Some? && r.Some? && l != r && SameType(l.value, r.value)
      && !l.value.Arr? && !l.value.Obj?
    case TypeMismatch => fd.left == l && fd.right == r && l.Some? && r.Some? && !SameType(l.value, r.value)
    case MissingField => fd.left == l && l.Some? && fd.right == r == None
    case ExtraField => fd.left == l == None && fd.right == r && r.Some?
    case SeqSize =>
      && l.Some? && r.Some? && l.value.Arr? && r.value.Arr? && |l.value.elems| != |r.value.elems|
      && fd.left == Some(Arr(LateOccurrences(l.value.elems, r.value.elems, 0)))
      && fd.right == Some(Arr(LateOccurrences(r.value.elems, l.value.elems, 0)))
    case Ordering =>
      && l.Some? && r.Some? && l.value.Arr? && r.value.Arr? && l != r && fd.left == fd.right == None
      && multiset(l.value.elems) == multiset(r.value.elems)
    case StatusMismatch => false
  }

  lemma RootDescribes(l: Value, r: Value)
    requires l != r && IsLeaf(Diff(l, r))
    ensures Describes(LeafDiff(Diff(l, r)), Some(l), Some(r))
  {
    if l.Arr? && r.Arr? {
      ArrayClassification(l, r);
      SetDifferenceKeepsLast(l.elems, r.elems);
      SetDifferenceKeepsLast(r.elems, l.elems);
    }
  }

  lemma SameLength(l: Value, r: Value)
    requires l.Arr? && r.Arr? && multiset(l.elems) == multiset(r.elems)
    ensures |l.elems| == |r.elems|
  {
    assert |multiset(l.elems)| == |l.elems| && |multiset(r.elems)| == |r.elems|;
  }

  lemma DescribesDiffers(fd: FieldDiff, l: Option<Value>, r: Option<Value>)
    requires Describes(fd, l, r)
    ensures l != r
  {}

  /** What the two sides hold leaves no choice of account. */
  lemma DescribesUnique(f: FieldDiff, g: FieldDiff, l: Option<Value>, r: Option<Value>)
    requires Describes(f, l, r) && Describes(g, l, r)
    ensures f == g
  {
    if f.diffType.Ordering? || g.diffType.Ordering? { SameLength(l.value, r.value); }
  }

  /** Every leaf truly describes what both values hold at its position. */
  lemma {:induction false} LeavesSound(l: Value, r: Value, x: Leaf)
    requires x in Leaves(Diff(l, r))
    ensures Describes(x.diff, Walk(l, x.segs), Walk(r, x.segs))
    decreases l
  {
    if l.Obj? && r.Obj? {
      LeafOfObject(l, r, x);
      var k, y := x.segs[0], Leaf(x.segs[1..], x.diff);
      if k in l.fields && k in r.fields {
        LeavesSound(l.fields[k], r.fields[k], y);
      } else {
        assert y.segs == [];
      }
    } else if l.Arr? && r.Arr? && Diff(l, r).IndexedDifference? {
      var j := LeafOfArrays(l, r, x);
      WalkElement(l, j, x.segs);
      WalkElement(r, j, x.segs);
      LeavesSound(l.elems[j], r.elems[j], Leaf(x.segs[1..], x.diff));
    } else {
      RootLeaf(l, r);
      RootDescribes(l, r);
    }
  }

  // ---------- where exactly the leaves are ----------

  /** What is found one step on. */
  function Step(v: Option<Value>, seg: string): Option<Value> {
    if v.Some? then Walk(v.value, [seg]) else None
  }

  /** The two sides are compared piece by piece: both are objects, or arrays of one length that are no permutations
      of each other. */
  predicate ComparedInside(l: Option<Value>, r: Option<Value>) {
    && l.Some? && r.Some? && l != r
    && ((l.value.Obj? && r.value.Obj?)
        || (l.value.Arr? && r.value.Arr? && |l.value.elems| == |r.value.elems|
            && multiset(l.value.elems) != multiset(r.value.elems)))
  }

  /** `segs` leads to a place where the sides differ and are not compared any further, through places where they are. */
  ghost predicate LeafPlace(l: Option<Value>, r: Option<Value>, segs: seq<string>)
    decreases |segs|
  {
    if segs == [] then l != r && !ComparedInside(l, r)
    else ComparedInside(l, r) && LeafPlace(Step(l, segs[0]), Step(r, segs[0]), segs[1..])
  }

  ghost predicate LeafAt(l: Value, r: Value, segs: seq<string>) {
    exists x <- Leaves(Diff(l, r)) :: x.segs == segs
  }

  lemma StepInto(v: Value, seg: string)
    ensures v.Obj? ==> Step(Some(v), seg) == if seg in v.fields then Some(v.fields[seg]) else None
    ensures v.Arr? ==>
      var i := IndexOf(seg, |v.elems|);
      Step(Some(v), seg) == if i.Some? then Some(v.elems[i.value]) else None
  {
    assert [seg][1..] == [];
    if v.Obj? && seg in v.fields {
      assert Walk(v.fields[seg], [seg][1..]) == Some(v.fields[seg]);
    } else if v.Arr? && IndexOf(seg, |v.elems|).Some? {
      var x := v.elems[IndexOf(seg, |v.elems|).value];
      assert Walk(x, [seg][1..]) == Some(x);
    }
  }

  lemma OneSidedPlace(l: Option<Value>, r: Option<Value>, segs: seq<string>)
    requires l.None? || r.None?
    ensures LeafPlace(l, r, segs) <==> segs == [] && l != r
  {}

  lemma NothingToCompare(v: Option<Value>, segs: seq<string>)
    ensures !LeafPlace(v, v, segs)
  {}

  /** The children under one key, as far as they are there. */
  lemma {:induction false} FieldPlace(l: Value, r: Value, segs: seq<string>)
    requires l.Obj? && r.Obj? && l != r && segs != []
    requires segs[0] in l.fields && segs[0] in r.fields ==>
      (LeafAt(l.fields[segs[0]], r.fields[segs[0]], segs[1..]) <==>
        LeafPlace(Some(l.fields[segs[0]]), Some(r.fields[segs[0]]), segs[1..]))
    ensures LeafAt(l, r, segs) <==> LeafPlace(Some(l), Some(r), segs)
  {
    var k, rest := segs[0], segs[1..];
    StepInto(l, k);
    StepInto(r, k);
    assert segs == [k] + rest;
    if !(k in l.fields && k in r.fields) { OneSidedPlace(Step(Some(l), k), Step(Some(r), k), rest); }
    if k in l.fields || k in r.fields {
      FieldReported(l, r, k);
      if x :| x in Leaves(Diff(l, r)) && x.segs == segs {
        LeafOfObject(l, r, x);
        if k in l.fields && k in r.fields {
          assert LeafAt(l.fields[k], r.fields[k], rest) by {
            assert Leaf(rest, x.diff) in Leaves(Diff(l.fields[k], r.fields[k]));
          }
        }
      }
      if LeafPlace(Some(l), Some(r), segs) { PlacedField(l, r, segs); }
    } else {
      NothingToCompare(None, rest);
      if x :| x in Leaves(Diff(l, r)) && x.segs == segs { LeafOfObject(l, r, x); }
    }
  }

  lemma LeafDiffers(l: Value, r: Value, segs: seq<string>)
    requires LeafAt(l, r, segs)
    ensures l != r
  {}

  lemma PlacedField(l: Value, r: Value, segs: seq<string>)
    requires l.Obj? && r.Obj? && l != r && segs != [] && (segs[0] in l.fields || segs[0] in r.fields)
    requires segs[0] in l.fields && segs[0] in r.fields ==> LeafAt(l.fields[segs[0]], r.fields[segs[0]], segs[1..])
    requires !(segs[0] in l.fields && segs[0] in r.fields) ==> segs[1..] == []
    ensures LeafAt(l, r, segs)
  {
    var k := segs[0];
    var y: Leaf;
    if k in l.fields && k in r.fields {
      LeafDiffers(l.fields[k], r.fields[k], segs[1..]);
      y :| y in Leaves(Diff(l.fields[k], r.fields[k])) && y.segs == segs[1..];
    } else {
      y := Leaf([], LeafDiff(FieldDifference(l, r, k)));
    }
    FieldReported(l, r, k);
    FieldLeaf(l, r, k, y);
    assert [k] + y.segs == segs;
  }

  /** The elements at one position, if the arrays are compared position by position. */
  lemma {:induction false} ElementPlace(l: Value, r: Value, segs: seq<string>)
    requires l.Arr? && r.Arr? && Diff(l, r).IndexedDifference? && segs != [] && |l.elems| == |r.elems|
    requires var i := IndexOf(segs[0], |l.elems|);
      i.Some? ==> (LeafAt(l.elems[i.value], r.elems[i.value], segs[1..]) <==>
                     LeafPlace(Some(l.elems[i.value]), Some(r.elems[i.value]), segs[1..]))
    ensures LeafAt(l, r, segs) <==> LeafPlace(Some(l), Some(r), segs)
  {
    var i, rest := IndexOf(segs[0], |l.elems|), segs[1..];
    ArrayClassification(l, r);
    assert segs == [segs[0]] + rest;
    StepInto(l, segs[0]);
    StepInto(r, segs[0]);
    if i.None? { NothingToCompare(None, rest); }
    if x :| x in Leaves(Diff(l, r)) && x.segs == segs {
      var j := LeafOfArrays(l, r, x);
      OfNatInjective(i.value, j);
      assert LeafAt(l.elems[j], r.elems[j], rest) by {
        assert Leaf(rest, x.diff) in Leaves(Diff(l.elems[j], r.elems[j]));
      }
    }
    if i.Some? && LeafAt(l.elems[i.value], r.elems[i.value], rest) {
      LeafDiffers(l.elems[i.value], r.elems[i.value], rest);
      var y :| y in Leaves(Diff(l.elems[i.value], r.elems[i.value])) && y.segs == rest;
      ElementLeaf(l, r, i.value, y);
    }
  }

  /** The leaves are exactly where the sides differ and are not compared any further. */
  lemma {:induction false} LeavesExactly(l: Value, r: Value, segs: seq<string>)
    ensures LeafAt(l, r, segs) <==> LeafPlace(Some(l), Some(r), segs)
    decreases |segs|
  {
    if l == r {
      NothingToCompare(Some(l), segs);
    } else if l.Obj? && r.Obj? {
      if segs == [] {
        if x :| x in Leaves(Diff(l, r)) && x.segs == segs { LeafOfObject(l, r, x); }
      } else {
        var k := segs[0];
        if k in l.fields && k in r.fields { LeavesExactly(l.fields[k], r.fields[k], segs[1..]); }
        FieldPlace(l, r, segs);
      }
    } else if l.Arr? && r.Arr? && Diff(l, r).IndexedDifference? {
      ArrayClassification(l, r);
      if segs == [] {
        if x :| x in Leaves(Diff(l, r)) && x.segs == segs { var j := LeafOfArrays(l, r, x); }
      } else {
        var i := IndexOf(segs[0], |l.elems|);
        if i.Some? { LeavesExactly(l.elems[i.value], r.elems[i.value], segs[1..]); }
        ElementPlace(l, r, segs);
      }
    } else {
      RootLeaf(l, r);
      if l.Arr? && r.Arr? { ArrayClassification(l, r); }
      assert LeafAt(l, r, segs) <==> segs == [];
    }
  }

  /** The leaves of a diff are the places where the sides are compared no further, each with its full account. */
  lemma {:induction false} LeafExactly(l: Value, r: Value, x: Leaf)
    ensures x in Leaves(Diff(l, r)) <==>
      LeafPlace(Some(l), Some(r), x.segs) && Describes(x.diff, Walk(l, x.segs), Walk(r, x.segs))
  {
    LeavesExactly(l, r, x.segs);
    if x in Leaves(Diff(l, r)) {
      LeavesSound(l, r, x);
    }
    if y :| y in Leaves(Diff(l, r)) && y.segs == x.segs {
      LeavesSound(l, r, y);
      if Describes(x.diff, Walk(l, x.segs), Walk(r, x.segs)) {
        DescribesUnique(x.diff, y.diff, Walk(l, x.segs), Walk(r, x.segs));
        assert x == y;
      }
    }
  }

  // ---------- completeness ----------

  predicate Comparable(a: seq<string>, b: seq<string>) {
    a <= b || b <= a
  }

  lemma ExtendLeaf(seg: string, y: Leaf, segs: seq<string>)
    requires segs != [] && segs[0] == seg && Comparable(y.segs, segs[1..])
    ensures Comparable([seg] + y.segs, segs)
  {
    assert segs == [seg] + segs[1..];
  }

  /** Wherever the values disagree there is a leaf at that position, above it or below it. */
  lemma {:induction false} LeavesComplete(l: Value, r: Value, segs: seq<string>) returns (x: Leaf)
    requires Walk(l, segs) != Walk(r, segs)
    ensures x in Leaves(Diff(l, r)) && Comparable(x.segs, segs)
    decreases l, |segs|
  {
    if l.Obj? && r.Obj? {
      var k := DifferingKey(l, r);
      if segs != [] { k := segs[0]; }
      FieldReported(l, r, k);
      var y: Leaf;
      if k in l.fields && k in r.fields {
        y := LeavesComplete(l.fields[k], r.fields[k], if segs != [] then segs[1..] else []);
      } else {
        y := Leaf([], LeafDiff(FieldDifference(l, r, k)));
      }
      FieldLeaf(l, r, k, y);
      x := Leaf([k] + y.segs, y.diff);
      if segs != [] { ExtendLeaf(k, y, segs); }
    } else if l.Arr? && r.Arr? && Diff(l, r).IndexedDifference? {
      ArrayClassification(l, r);
      var j: nat;
      if segs == [] {
        j :| 0 <= j < |l.elems| && l.elems[j] != r.elems[j];
      } else {
        j := IndexOf(segs[0], |l.elems|).value;
      }
      var y := LeavesComplete(l.elems[j], r.elems[j], if segs != [] then segs[1..] else []);
      ElementLeaf(l, r, j, y);
      x := Leaf([OfNat(j)] + y.segs, y.diff);
      if segs != [] { ExtendLeaf(OfNat(j), y, segs); }
    } else {
      RootLeaf(l, r);
      x := Leaf([], LeafDiff(Diff(l, r)));
    }
  }

  lemma DifferingKey(l: Value, r: Value) returns (k: string)
    requires l.Obj? && r.Obj? && l != r
    ensures k in l.fields || k in r.fields
    ensures k in l.fields && k in r.fields ==> l.fields[k] != r.fields[k]
  {
    if l.fields.Keys != r.fields.Keys {
      k :| (k in l.fields.Keys) != (k in r.fields.Keys);
    } else {
      assert l.fields != r.fields;
      k :| k in l.fields && l.fields[k] != r.fields[k];
    }
  }

  /** A leaf at or below a position proves that the values disagree there. */
  lemma LeafBelowDisagrees(l: Value, r: Value, x: Leaf, segs: seq<string>)
    requires x in Leaves(Diff(l, r)) && segs <= x.segs
    ensures Walk(l, segs) != Walk(r, segs)
  {
    assert Walk(l, x.segs) != Walk(r, x.segs) by {
      LeavesSound(l, r, x);
      DescribesDiffers(x.diff, Walk(l, x.segs), Walk(r, x.segs));
    }
    var rest := x.segs[|segs|..];
    assert x.segs == segs + rest;
    WalkFurther(l, segs, rest);
    WalkFurther(r, segs, rest);
  }

  /** No diff is reported iff the values are equal. No assumption on keys is needed. */
  lemma EmptyIffEqual(l: Value, r: Value)
    ensures DiffPaths(l, r) == {} <==> l == r
  {
    if l != r {
      var x := LeavesComplete(l, r, []);
      assert PathFrom("", x.segs) in DiffPaths(l, r);
    }
  }
}
