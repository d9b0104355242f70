/** A diff is a complete patch: applied to the left value it rebuilds the right one, and mirrored it
    is the diff taken the other way round. */
module Patching {
  import opened Json
  import opened Diffing

  // ---------- applying a diff ----------

  function Patch(l: Value, d: Difference): Value
    decreases d, 1
  {
    match d
    case NoDifference(_) | OrderingDifference | MissingField(_) => l
    case PrimitiveDifference(_, right) => right
    case TypeDifference(_, right) => right
    case ExtraField(value) => value
    case SeqSizeDifference(gone, added) => if l.Arr? then Arr(SetDifference(l.elems, gone) + added) else l
    case IndexedDifference(es) => if l.Arr? then Arr(PatchElements(l.elems, es)) else l
    case ObjectDifference(fs) =>
      if l.Obj? then
        Obj(map k | k in l.fields.Keys + fs.Keys && !(k in fs && fs[k].MissingField?) ::
              if k in fs then Patch(if k in l.fields then l.fields[k] else Null, fs[k]) else l.fields[k])
      else l
  }

  function PatchElements(a: seq<Value>, es: seq<Located>): (r: seq<Value>)
    ensures |r| == |a|
    decreases es, 0
  {
    if es == [] then a
    else
      assert es[0].diff < es[0];
      if es[0].index < |a| then PatchElements(a[es[0].index := Patch(a[es[0].index], es[0].diff)], es[1..])
    else PatchElements(a, es[1..])
  }

  /** `p` is `r` up to the order of elements in the arrays that `d` reports by content only. */
  predicate EqualUpToOrder(d: Difference, p: Value, r: Value) {
    match d
    case SeqSizeDifference(_, _) | OrderingDifference => p.Arr? && r.Arr? && multiset(p.elems) == multiset(r.elems)
    case ObjectDifference(fs) =>
      && p.Obj? && r.Obj? && p.fields.Keys == r.fields.Keys
      && forall k <- p.fields :: if k in fs then EqualUpToOrder(fs[k], p.fields[k], r.fields[k])
           else p.fields[k] == r.fields[k]
    case IndexedDifference(es) =>
      && p.Arr? && r.Arr? && |p.elems| == |r.elems|
      && (forall e <- es :: e.index < |p.elems| && EqualUpToOrder(e.diff, p.elems[e.index], r.elems[e.index]))
      && (forall j | 0 <= j < |p.elems| && (forall e <- es :: e.index != j) :: p.elems[j] == r.elems[j])
    case _ => p == r
  }

  /** No array of the tree is reported by content only. */
  predicate KeepsOrder(d: Difference) {
    match d
    case SeqSizeDifference(_, _) | OrderingDifference => false
    case ObjectDifference(fs) => forall k <- fs :: KeepsOrder(fs[k])
    case IndexedDifference(es) => forall e <- es :: KeepsOrder(e.diff)
    case _ => true
  }

  // ---------- the patch theorem ----------

  lemma SizePatch(a: seq<Value>, b: seq<Value>)
    ensures multiset(SetDifference(a, SetDifference(a, b)) + SetDifference(b, a)) == multiset(b)
  {
    var x, y := multiset(a), multiset(b);
    SetDifferenceMultiset(a, b);
    SetDifferenceMultiset(b, a);
    SetDifferenceMultiset(a, SetDifference(a, b));
    assert (x - (x - y)) + (y - x) == y;
  }

  lemma PatchElementsStep(a: seq<Value>, e: Located, es: seq<Located>)
    requires e.index < |a|
    ensures PatchElements(a, [e] + es) == PatchElements(a[e.index := Patch(a[e.index], e.diff)], es)
  {
    assert ([e] + es)[1..] == es;
  }

  /** A position that no entry names keeps its element. */
  lemma {:induction false} PatchUnreported(a: seq<Value>, es: seq<Located>, j: nat)
    requires j < |a| && forall m | 0 <= m < |es| :: es[m].index != j
    ensures PatchElements(a, es)[j] == a[j]
    decreases |es|
  {
    if es != [] {
      assert [es[0]] + es[1..] == es;
      if es[0].index < |a| {
        PatchElementsStep(a, es[0], es[1..]);
        PatchUnreported(a[es[0].index := Patch(a[es[0].index], es[0].diff)], es[1..], j);
      } else {
        PatchUnreported(a, es[1..], j);
      }
    }
  }

  /** A position that one entry names holds the element patched by that entry. */
  lemma {:induction false} PatchReported(a: seq<Value>, es: seq<Located>, m: nat)
    requires m < |es| && es[m].index < |a|
    requires forall n | 0 <= n < |es| && n != m :: es[n].index != es[m].index
    ensures PatchElements(a, es)[es[m].index] == Patch(a[es[m].index], es[m].diff)
    decreases |es|
  {
    assert [es[0]] + es[1..] == es;
    if es[0].index < |a| {
      var b := a[es[0].index := Patch(a[es[0].index], es[0].diff)];
      PatchElementsStep(a, es[0], es[1..]);
      if m == 0 { PatchUnreported(b, es[1..], es[0].index); }
      else { PatchReported(b, es[1..], m - 1); }
    } else {
      PatchReported(a, es[1..], m - 1);
    }
  }

  /** Patching element `j` rebuilds the element on the right, up to order. */
  ghost predicate ElementRebuilt(l: Value, r: Value, j: nat)
    requires l.Arr? && r.Arr? && j < |l.elems| && j < |r.elems|
  {
    EqualUpToOrder(Diff(l.elems[j], r.elems[j]), Patch(l.elems[j], Diff(l.elems[j], r.elems[j])), r.elems[j])
  }

  lemma PatchedEntry(l: Value, r: Value, m: nat)
    requires l.Arr? && r.Arr? && |l.elems| == |r.elems| && m < |DiffElements(l, r, 0)|
    requires forall j: nat | j < |l.elems| :: ElementRebuilt(l, r, j)
    ensures var e, p := DiffElements(l, r, 0)[m], PatchElements(l.elems, DiffElements(l, r, 0));
      e.index < |p| && EqualUpToOrder(e.diff, p[e.index], r.elems[e.index])
  {
    var es := DiffElements(l, r, 0);
    DiffElementsSound(l, r, 0, m);
    forall n | 0 <= n < |es| && n != m ensures es[n].index != es[m].index {
      if n < m { DiffElementsAscend(l, r, 0, n, m); } else { DiffElementsAscend(l, r, 0, m, n); }
    }
    PatchReported(l.elems, es, m);
    assert ElementRebuilt(l, r, es[m].index);
  }

  lemma UnreportedElement(l: Value, r: Value, j: nat)
    requires l.Arr? && r.Arr? && |l.elems| == |r.elems| && j < |l.elems|
    requires forall e <- DiffElements(l, r, 0) :: e.index != j
    ensures PatchElements(l.elems, DiffElements(l, r, 0))[j] == r.elems[j]
  {
    if l.elems[j] != r.elems[j] { DiffElementsComplete(l, r, j); }
    PatchUnreported(l.elems, DiffElements(l, r, 0), j);
  }

  lemma IndexedEqual(es: seq<Located>, p: seq<Value>, r: seq<Value>)
    requires |p| == |r|
    requires forall m | 0 <= m < |es| :: es[m].index < |p| && EqualUpToOrder(es[m].diff, p[es[m].index], r[es[m].index])
    requires forall j | 0 <= j < |p| && (forall e <- es :: e.index != j) :: p[j] == r[j]
    ensures EqualUpToOrder(IndexedDifference(es), Arr(p), Arr(r))
  {
    assert forall e <- es :: e.index < |p| && EqualUpToOrder(e.diff, p[e.index], r[e.index]);
  }

  lemma PatchIndexed(l: Value, r: Value)
    requires l.Arr? && r.Arr? && |l.elems| == |r.elems|
    requires forall j: nat | j < |l.elems| :: ElementRebuilt(l, r, j)
    ensures var d := IndexedDifference(DiffElements(l, r, 0)); EqualUpToOrder(d, Patch(l, d), r)
  {
    var es := DiffElements(l, r, 0);
    var p := PatchElements(l.elems, es);
    forall m | 0 <= m < |es|
      ensures es[m].index < |p| && EqualUpToOrder(es[m].diff, p[es[m].index], r.elems[es[m].index])
    {
      PatchedEntry(l, r, m);
    }
    forall j | 0 <= j < |p| && (forall e <- es :: e.index != j) ensures p[j] == r.elems[j] {
      UnreportedElement(l, r, j);
    }
    IndexedEqual(es, p, r.elems);
  }

  lemma PatchArrays(l: Value, r: Value)
    requires l.Arr? && r.Arr? && l != r
    requires |l.elems| == |r.elems| ==> forall j: nat | j < |l.elems| :: ElementRebuilt(l, r, j)
    ensures EqualUpToOrder(Diff(l, r), Patch(l, Diff(l, r)), r)
  {
    assert Diff(l, r) == DiffArrays(l, r);
    if |l.elems| != |r.elems| {
      SizePatch(l.elems, r.elems);
    } else {
      OneSidedTestSuffices(l.elems, r.elems);
      PatchIndexed(l, r);
    }
  }

  lemma {:induction false} PatchObject(l: Value, r: Value)
    requires l.Obj? && r.Obj? && l != r
    requires forall k | k in l.fields && k in r.fields ::
      EqualUpToOrder(Diff(l.fields[k], r.fields[k]), Patch(l.fields[k], Diff(l.fields[k], r.fields[k])), r.fields[k])
    ensures EqualUpToOrder(Diff(l, r), Patch(l, Diff(l, r)), r)
  {
    var fs, p := DiffFields(l, r), Patch(l, Diff(l, r)).fields;
    forall k ensures k in p <==> k in r.fields {
      if k in l.fields || k in r.fields { FieldReported(l, r, k); }
    }
    forall k | k in p
      ensures if k in fs then EqualUpToOrder(fs[k], p[k], r.fields[k]) else p[k] == r.fields[k]
    {
      FieldReported(l, r, k);
      if k !in l.fields {
        assert fs[k] == ExtraField(r.fields[k]);
        assert Patch(Null, fs[k]) == r.fields[k];
      }
    }
  }

  /** Patching the left value with the diff gives the right value, up to order where order is not reported. */
  lemma {:induction false} PatchRebuildsRight(l: Value, r: Value)
    ensures EqualUpToOrder(Diff(l, r), Patch(l, Diff(l, r)), r)
    decreases l
  {
    if l != r {
      if l.Obj? && r.Obj? {
        forall k | k in l.fields && k in r.fields { PatchRebuildsRight(l.fields[k], r.fields[k]); }
        PatchObject(l, r);
      } else if l.Arr? && r.Arr? {
        if |l.elems| == |r.elems| {
          forall j: nat | j < |l.elems| ensures ElementRebuilt(l, r, j) { PatchRebuildsRight(l.elems[j], r.elems[j]); }
        }
        PatchArrays(l, r);
      }
    }
  }

  lemma {:induction false} ExactWhenOrderKept(d: Difference, p: Value, r: Value)
    requires KeepsOrder(d) && EqualUpToOrder(d, p, r)
    ensures p == r
  {
    match d {
      case ObjectDifference(fs) =>
        forall k | k in p.fields && k in fs { ExactWhenOrderKept(fs[k], p.fields[k], r.fields[k]); }
        assert p.fields == r.fields;
      case IndexedDifference(es) =>
        forall e | e in es { ExactWhenOrderKept(e.diff, p.elems[e.index], r.elems[e.index]); }
        assert p.elems == r.elems;
      case _ =>
    }
  }

  /** With no size or ordering node in the tree the patch is exact, so the tree determines the right value. */
  lemma {:induction false} PatchIsExact(l: Value, r: Value)
    requires KeepsOrder(Diff(l, r))
    ensures Patch(l, Diff(l, r)) == r
  {
    PatchRebuildsRight(l, r);
    ExactWhenOrderKept(Diff(l, r), Patch(l, Diff(l, r)), r);
  }

  // ---------- the diff taken the other way round ----------

  function Mirror(d: Difference): Difference
    decreases d, 1
  {
    match d
    case NoDifference(value) => NoDifference(value)
    case PrimitiveDifference(left, right) => PrimitiveDifference(right, left)
    case ObjectDifference(fs) => ObjectDifference(map k | k in fs :: Mirror(fs[k]))
    case MissingField(value) => ExtraField(value)
    case ExtraField(value) => MissingField(value)
    case IndexedDifference(es) => IndexedDifference(MirrorElements(es))
    case SeqSizeDifference(l, r) => SeqSizeDifference(r, l)
    case OrderingDifference => OrderingDifference
    case TypeDifference(left, right) => TypeDifference(right, left)
  }

  function MirrorElements(es: seq<Located>): seq<Located>
    decreases es, 0
  {
    if es == [] then []
    else
      assert es[0].diff < es[0];
      [Located(es[0].index, Mirror(es[0].diff))] + MirrorElements(es[1..])
  }

  ghost predicate ElementMirrored(l: Value, r: Value, j: nat)
    requires l.Arr? && r.Arr? && j < |l.elems| && j < |r.elems|
  {
    Diff(r.elems[j], l.elems[j]) == Mirror(Diff(l.elems[j], r.elems[j]))
  }

  /** Both directions report the same positions. */
  lemma {:induction false} SamePositions(l: Value, r: Value, i: nat, m: nat)
    requires l.Arr? && r.Arr? && |l.elems| == |r.elems| && i <= |l.elems|
    ensures |DiffElements(l, r, i)| == |DiffElements(r, l, i)|
    ensures m < |DiffElements(l, r, i)| ==> DiffElements(l, r, i)[m].index == DiffElements(r, l, i)[m].index
    decreases |l.elems| - i
  {
    if i < |l.elems| {
      DiffElementsStep(l, r, i);
      DiffElementsStep(r, l, i);
      SamePositions(l, r, i + 1, if l.elems[i] != r.elems[i] && m > 0 then m - 1 else m);
    }
  }

  lemma {:induction false} MirrorElementsAt(es: seq<Located>, fs: seq<Located>)
    requires |es| == |fs| && forall m | 0 <= m < |es| :: fs[m] == Located(es[m].index, Mirror(es[m].diff))
    ensures MirrorElements(es) == fs
  {
    if es != [] {
      MirrorElementsAt(es[1..], fs[1..]);
      assert fs == [fs[0]] + fs[1..];
    }
  }

  lemma MirrorElementsOfDiff(l: Value, r: Value)
    requires l.Arr? && r.Arr? && |l.elems| == |r.elems|
    requires forall j: nat | j < |l.elems| :: ElementMirrored(l, r, j)
    ensures MirrorElements(DiffElements(l, r, 0)) == DiffElements(r, l, 0)
  {
    var es, fs := DiffElements(l, r, 0), DiffElements(r, l, 0);
    SamePositions(l, r, 0, 0);
    forall m | 0 <= m < |es| ensures fs[m] == Located(es[m].index, Mirror(es[m].diff)) {
      SamePositions(l, r, 0, m);
      DiffElementsSound(l, r, 0, m);
      DiffElementsSound(r, l, 0, m);
      assert ElementMirrored(l, r, es[m].index);
    }
    MirrorElementsAt(es, fs);
  }

  lemma MirrorObject(l: Value, r: Value)
    requires l.Obj? && r.Obj?
    requires forall k | k in l.fields && k in r.fields ::
      Diff(r.fields[k], l.fields[k]) == Mirror(Diff(l.fields[k], r.fields[k]))
    ensures Mirror(ObjectDifference(DiffFields(l, r))) == ObjectDifference(DiffFields(r, l))
  {
    var fs, gs := DiffFields(l, r), DiffFields(r, l);
    forall k ensures (k in fs <==> k in gs) && (k in fs ==> gs[k] == Mirror(fs[k])) {
      if k in l.fields || k in r.fields {
        FieldReported(l, r, k);
        FieldReported(r, l, k);
      }
    }
    assert gs == map k | k in fs :: Mirror(fs[k]);
  }

  lemma MirrorArrays(l: Value, r: Value)
    requires l.Arr? && r.Arr? && l != r
    requires |l.elems| == |r.elems| ==> MirrorElements(DiffElements(l, r, 0)) == DiffElements(r, l, 0)
    ensures Mirror(Diff(l, r)) == Diff(r, l)
  {
    assert Diff(l, r) == DiffArrays(l, r) && Diff(r, l) == DiffArrays(r, l);
    if |l.elems| == |r.elems| {
      OneSidedTestSuffices(l.elems, r.elems);
      OneSidedTestSuffices(r.elems, l.elems);
      assert SetDifference(l.elems, r.elems) == [] <==> SetDifference(r.elems, l.elems) == [];
    } else {
      assert Diff(l, r) == SeqSizeDifference(SetDifference(l.elems, r.elems), SetDifference(r.elems, l.elems));
      assert Diff(r, l) == SeqSizeDifference(SetDifference(r.elems, l.elems), SetDifference(l.elems, r.elems));
    }
  }

  /** Swapping the sides mirrors the tree at every depth. */
  lemma {:induction false} DiffMirrored(l: Value, r: Value)
    ensures Diff(r, l) == Mirror(Diff(l, r))
    decreases l
  {
    if l != r {
      if l.Obj? && r.Obj? {
        forall k | k in l.fields && k in r.fields { DiffMirrored(l.fields[k], r.fields[k]); }
        MirrorObject(l, r);
      } else if l.Arr? && r.Arr? {
        if |l.elems| == |r.elems| {
          forall j: nat | j < |l.elems| ensures ElementMirrored(l, r, j) { DiffMirrored(l.elems[j], r.elems[j]); }
          MirrorElementsOfDiff(l, r);
        }
        MirrorArrays(l, r);
      }
    }
  }
}
