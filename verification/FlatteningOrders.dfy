/** What a flattened map owes to the order in which hash maps hand out their keys: how many leaves it loses, which
    leaf wins a path that several share, and when the order does not matter. */
module FlatteningOrders {
  import opened Wrappers
  import opened Strings
  import opened Json
  import opened Diffing
  import opened Flattening
  import opened FlatteningFacts
  import opened FlatteningPaths

  // ---------- how many leaves are lost ----------

  ghost predicate PathsInjective(leaves: set<Leaf>) {
    forall x, y | x in leaves && y in leaves && PathFrom("", x.segs) == PathFrom("", y.segs) :: x == y
  }

  /** No two leaves lead to one path. */
  ghost predicate LosesNoLeaf(l: Value, r: Value) {
    PathsInjective(Leaves(Diff(l, r)))
  }

  lemma {:induction false} ImageNoLarger(leaves: set<Leaf>)
    ensures |PathsFrom("", leaves)| <= |leaves|
  {
    if leaves != {} {
      var x :| x in leaves;
      ImageNoLarger(leaves - {x});
      assert PathsFrom("", leaves) == PathsFrom("", leaves - {x}) + {PathFrom("", x.segs)};
    }
  }

  lemma ImageSize(leaves: set<Leaf>)
    ensures |PathsFrom("", leaves)| <= |leaves|
    ensures |PathsFrom("", leaves)| == |leaves| <==> PathsInjective(leaves)
  {
    ImageNoLarger(leaves);
    if PathsInjective(leaves) {
      InjectiveImage(leaves);
    } else {
      var x, y :| x in leaves && y in leaves && PathFrom("", x.segs) == PathFrom("", y.segs) && x != y;
      ImageNoLarger(leaves - {x});
      assert y in leaves - {x};
      assert PathsFrom("", leaves) == PathsFrom("", leaves - {x});
    }
  }

  /** A flattened map has an entry for every leaf iff no two leaves lead to one path; otherwise it has fewer. */
  lemma {:induction false} LeafLostExactly(l: Value, r: Value, m: map<string, FieldDiff>)
    requires IsFlattening(Diff(l, r), "", m)
    ensures |m| <= |Leaves(Diff(l, r))|
    ensures |m| == |Leaves(Diff(l, r))| <==> LosesNoLeaf(l, r)
  {
    FlatteningPathSet(l, r, m);
    ImageSize(Leaves(Diff(l, r)));
    assert |m| == |m.Keys|;
  }

  // ---------- array positions never share a path ----------

  lemma PiecesAssoc(before: seq<string>, piece: string, after: seq<string>)
    ensures before + ([piece] + after) == before + [piece] + after
  {}

  lemma IndexPieces(prefix: string, i: nat, a: seq<string>)
    ensures Split(PathFrom(prefix, [OfNat(i)] + a), '.') ==
      (if prefix == "" then [] else Split(prefix, '.')) + [OfNat(i)] + Pieces(a)
  {
    var n, segs := OfNat(i), [OfNat(i)] + a;
    assert segs[1..] == a;
    SplitFree(n, '.');
    if prefix == "" {
      PathPieces(n, a);
      assert [] + [n] == [n];
    } else {
      PathPieces(prefix, segs);
      PiecesAssoc(Split(prefix, '.'), n, Pieces(a));
    }
  }

  /** Whatever follows, two positions of one array lead to different paths. */
  lemma IndexPathsDiffer(prefix: string, i: nat, a: seq<string>, j: nat, b: seq<string>)
    requires i != j
    ensures PathFrom(prefix, [OfNat(i)] + a) != PathFrom(prefix, [OfNat(j)] + b)
  {
    if OfNat(i) == OfNat(j) { OfNatInjective(i, j); }
    IndexPieces(prefix, i, a);
    IndexPieces(prefix, j, b);
    var n := |if prefix == "" then [] else Split(prefix, '.')|;
    assert Split(PathFrom(prefix, [OfNat(i)] + a), '.')[n] == OfNat(i);
    assert Split(PathFrom(prefix, [OfNat(j)] + b), '.')[n] == OfNat(j);
  }

  // ---------- any leaf can win its path ----------

  /** An order in which, all along the way down `segs`, the key on the way comes last. */
  ghost function Favouring(d: Difference, segs: seq<string>): Visits {
    match d
    case ObjectDifference(fs) =>
      FieldVisits(KeysFavouring(fs.Keys, segs), map k | k in fs :: Favouring(fs[k], Beyond(segs, k)))
    case IndexedDifference(es) =>
      ElementVisits(seq(|es|, i requires 0 <= i < |es| => Favouring(es[i].diff, Beyond(segs, OfNat(es[i].index)))))
    case _ => NoVisits
  }

  function Beyond(segs: seq<string>, seg: string): seq<string> {
    if segs != [] && segs[0] == seg then segs[1..] else []
  }

  ghost function KeysFavouring(keys: set<string>, segs: seq<string>): (order: seq<string>)
    ensures Lists(order, keys)
    ensures segs != [] && segs[0] in keys ==> order != [] && order[|order| - 1] == segs[0]
  {
    if segs != [] && segs[0] in keys then Sorted(keys - {segs[0]}) + [segs[0]] else Sorted(keys)
  }

  lemma {:induction false} FavouringFollows(d: Difference, segs: seq<string>)
    ensures Follows(Favouring(d, segs), d)
  {
    match d {
      case ObjectDifference(fs) =>
        forall k | k in fs { FavouringFollows(fs[k], Beyond(segs, k)); }
      case IndexedDifference(es) =>
        forall i | 0 <= i < |es| { FavouringFollows(es[i].diff, Beyond(segs, OfNat(es[i].index))); }
      case _ =>
    }
  }

  /** What `flatten_into` makes of `before` when `segs` is favoured. */
  ghost function FlattenFavouring(d: Difference, path: string, segs: seq<string>,
                                  before: map<string, FieldDiff>): map<string, FieldDiff>
  {
    FavouringFollows(d, segs);
    FlattenBy(d, path, Favouring(d, segs), before)
  }

  lemma LastKeyLast(d: Difference, path: string, v: Visits, before: map<string, FieldDiff>)
      returns (mid: map<string, FieldDiff>)
    requires d.ObjectDifference? && Follows(v, d) && v.keys != []
    ensures var k := v.keys[|v.keys| - 1];
      FlattenBy(d, path, v, before) == FlattenBy(d.fields[k], JoinPath(path, k), v.fields[k], mid)
  {
    assert KeysFollow(d, v.keys, v.fields) && KeysFollow(d, v.keys[..|v.keys| - 1], v.fields);
    mid := FlattenKeys(d, path, v.keys[..|v.keys| - 1], v.fields, before);
  }

  lemma FavouredFieldLast(d: Difference, path: string, segs: seq<string>, before: map<string, FieldDiff>)
      returns (mid: map<string, FieldDiff>)
    requires d.ObjectDifference? && segs != [] && segs[0] in d.fields
    ensures FlattenFavouring(d, path, segs, before) ==
      FlattenFavouring(d.fields[segs[0]], JoinPath(path, segs[0]), segs[1..], mid)
  {
    FavouringFollows(d, segs);
    FavouringFollows(d.fields[segs[0]], segs[1..]);
    mid := LastKeyLast(d, path, Favouring(d, segs), before);
  }

  lemma InsertingKeeps(d: Difference, path: string, v: Visits, before: map<string, FieldDiff>, p: string)
    requires Follows(v, d) && p in before && p !in PathsFrom(path, Leaves(d))
    ensures p in FlattenBy(d, path, v, before) && FlattenBy(d, path, v, before)[p] == before[p]
  {
    FlattenByInserts(d, path, v, before);
  }

  /** Nothing below position `i` leads to `p`. */
  ghost predicate Avoids(d: Difference, path: string, i: nat, p: string)
    requires d.IndexedDifference? && i < |d.elements|
  {
    p !in PathsFrom(JoinPath(path, OfNat(d.elements[i].index)), Leaves(d.elements[i].diff))
  }

  ghost predicate StillAt(a: map<string, FieldDiff>, b: map<string, FieldDiff>, p: string) {
    p in a && p in b && a[p] == b[p]
  }

  lemma OneElementKeeps(d: Difference, path: string, visits: seq<Visits>, p: string, before: map<string, FieldDiff>)
    requires visits != [] && ElementsFollow(d, visits)
    requires Avoids(d, path, |visits| - 1, p) && p in FlattenElements(d, path, visits[..|visits| - 1], before)
    ensures StillAt(FlattenElements(d, path, visits[..|visits| - 1], before), FlattenElements(d, path, visits, before),
        p)
  {
    var n := |visits| - 1;
    InsertingKeeps(d.elements[n].diff, JoinPath(path, OfNat(d.elements[n].index)), visits[n],
                   FlattenElements(d, path, visits[..n], before), p);
  }

  /** Elements that come later do not overwrite what was inserted below an earlier position. */
  lemma {:induction false} LaterElementsKeep(d: Difference, path: string, visits: seq<Visits>, n: nat, p: string,
                                             before: map<string, FieldDiff>)
    requires ElementsFollow(d, visits) && n <= |visits|
    requires forall i | n <= i < |visits| :: Avoids(d, path, i, p)
    requires p in FlattenElements(d, path, visits[..n], before)
    ensures StillAt(FlattenElements(d, path, visits[..n], before), FlattenElements(d, path, visits, before), p)
    decreases |visits|
  {
    if n == |visits| {
      assert visits[..n] == visits;
    } else {
      var fewer := visits[..|visits| - 1];
      assert fewer[..n] == visits[..n];
      var a, b := FlattenElements(d, path, visits[..n], before), FlattenElements(d, path, fewer, before);
      var c := FlattenElements(d, path, visits, before);
      assert StillAt(a, b, p) by { LaterElementsKeep(d, path, fewer, n, p, before); }
      assert StillAt(b, c, p) by { OneElementKeeps(d, path, visits, p, before); }
    }
  }

  lemma LastElementFlattens(d: Difference, path: string, visits: seq<Visits>, n: nat, before: map<string, FieldDiff>)
    requires ElementsFollow(d, visits) && n < |visits|
    ensures FlattenElements(d, path, visits[..n + 1], before) ==
      FlattenBy(d.elements[n].diff, JoinPath(path, OfNat(d.elements[n].index)), visits[n],
                FlattenElements(d, path, visits[..n], before))
  {
    assert visits[..n + 1][..n] == visits[..n];
  }

  /** What is inserted below the favoured position stays, if no later position leads to the same path. */
  lemma FavouredElementKept(d: Difference, path: string, segs: seq<string>, before: map<string, FieldDiff>, i: nat,
                            p: string)
      returns (mid: map<string, FieldDiff>)
    requires d.IndexedDifference? && i < |d.elements| && segs != [] && segs[0] == OfNat(d.elements[i].index)
    requires forall m | i < m < |d.elements| :: Avoids(d, path, m, p)
    ensures var below := FlattenFavouring(d.elements[i].diff, JoinPath(path, segs[0]), segs[1..], mid);
      p in below ==>
        p in FlattenFavouring(d, path, segs, before) && FlattenFavouring(d, path, segs, before)[p] == below[p]
  {
    FavouringFollows(d, segs);
    var v := Favouring(d, segs).elements;
    mid := FlattenElements(d, path, v[..i], before);
    var a, c := FlattenElements(d, path, v[..i + 1], before), FlattenElements(d, path, v, before);
    assert a == FlattenFavouring(d.elements[i].diff, JoinPath(path, segs[0]), segs[1..], mid) by {
      LastElementFlattens(d, path, v, i, before);
    }
    if p in a {
      assert StillAt(a, c, p) by { LaterElementsKeep(d, path, v, i + 1, p, before); }
    }
  }

  lemma OtherPositions(path: string, x: Leaf, j: nat, i: nat, leaves: set<Leaf>)
    requires x.segs != [] && x.segs[0] == OfNat(j) && i != j
    ensures PathFrom(path, x.segs) !in PathsFrom(JoinPath(path, OfNat(i)), leaves)
  {
    forall y | y in leaves ensures PathFrom(JoinPath(path, OfNat(i)), y.segs) != PathFrom(path, x.segs) {
      assert x.segs == [OfNat(j)] + x.segs[1..];
      assert ([OfNat(i)] + y.segs)[1..] == y.segs;
      IndexPathsDiffer(path, i, y.segs, j, x.segs[1..]);
    }
  }

  /** The position that `x` goes through, among the elements of an index report. */
  lemma PositionOf(l: Value, r: Value, x: Leaf) returns (j: nat, i: nat)
    requires l.Arr? && r.Arr? && Diff(l, r).IndexedDifference? && x in Leaves(Diff(l, r))
    ensures j < |l.elems| == |r.elems| && x.segs != [] && x.segs[0] == OfNat(j)
    ensures Leaf(x.segs[1..], x.diff) in Leaves(Diff(l.elems[j], r.elems[j]))
    ensures i < |Diff(l, r).elements| && Diff(l, r).elements[i] == Located(j, Diff(l.elems[j], r.elems[j]))
    ensures forall m | i < m < |Diff(l, r).elements| :: Diff(l, r).elements[m].index != j
  {
    j := LeafOfArrays(l, r, x);
    ArrayClassification(l, r);
    var es := Diff(l, r).elements;
    i :| 0 <= i < |es| && es[i] == Located(j, Diff(l.elems[j], r.elems[j]));
  }

  /** Whatever leaf is favoured ends up at its path. */
  lemma {:induction false} FavouredWins(l: Value, r: Value, x: Leaf, path: string, before: map<string, FieldDiff>)
    requires x in Leaves(Diff(l, r))
    ensures var out := FlattenFavouring(Diff(l, r), path, x.segs, before);
      PathFrom(path, x.segs) in out && out[PathFrom(path, x.segs)] == x.diff
    decreases l
  {
    var d, y := Diff(l, r), if x.segs != [] then Leaf(x.segs[1..], x.diff) else x;
    if l.Obj? && r.Obj? {
      LeafOfObject(l, r, x);
      var k := x.segs[0];
      var mid := FavouredFieldLast(d, path, x.segs, before);
      if k in l.fields && k in r.fields {
        FavouredWins(l.fields[k], r.fields[k], y, JoinPath(path, k), mid);
      } else {
        assert y.segs == [];
      }
    } else if l.Arr? && r.Arr? && d.IndexedDifference? {
      var j, i := PositionOf(l, r, x);
      forall m | i < m < |d.elements| ensures Avoids(d, path, m, PathFrom(path, x.segs)) {
        OtherPositions(path, x, j, d.elements[m].index, Leaves(d.elements[m].diff));
      }
      var mid := FavouredElementKept(d, path, x.segs, before, i, PathFrom(path, x.segs));
      FavouredWins(l.elems[j], r.elems[j], y, JoinPath(path, OfNat(j)), mid);
    } else {
      RootLeaf(l, r);
    }
  }

  /** Of the leaves that lead to one path any can be the one whose diff is recorded there. */
  lemma {:induction false} AnyLeafCanWin(l: Value, r: Value, x: Leaf) returns (m: map<string, FieldDiff>)
    requires x in Leaves(Diff(l, r))
    ensures IsFlattening(Diff(l, r), "", m)
    ensures PathFrom("", x.segs) in m && m[PathFrom("", x.segs)] == x.diff
  {
    m := FlattenFavouring(Diff(l, r), "", x.segs, map[]);
    FavouringFollows(Diff(l, r), x.segs);
    FavouredWins(l, r, x, "", map[]);
  }

  // ---------- when the order does not matter ----------

  ghost predicate OrderIrrelevant(l: Value, r: Value) {
    forall m, n | IsFlattening(Diff(l, r), "", m) && IsFlattening(Diff(l, r), "", n) :: m == n
  }

  /** Leaves that lead to one path record the same there. */
  ghost predicate SharersAgree(l: Value, r: Value) {
    forall x, y | x in Leaves(Diff(l, r)) && y in Leaves(Diff(l, r)) && PathFrom("", x.segs) == PathFrom("", y.segs) ::
      x.diff == y.diff
  }

  /** The flattened map is independent of the order in which keys come iff leaves that share a path record the same. */
  lemma {:induction false} OrderIrrelevantExactly(l: Value, r: Value)
    ensures OrderIrrelevant(l, r) <==> SharersAgree(l, r)
  {
    if SharersAgree(l, r) {
      forall m, n | IsFlattening(Diff(l, r), "", m) && IsFlattening(Diff(l, r), "", n) ensures m == n {
        AgreeingFlattenings(l, r, m, n);
      }
    } else {
      var x, y :| x in Leaves(Diff(l, r)) && y in Leaves(Diff(l, r)) && PathFrom("", x.segs) == PathFrom("", y.segs)
        && x.diff != y.diff;
      var m := AnyLeafCanWin(l, r, x);
      var n := AnyLeafCanWin(l, r, y);
    }
  }

  lemma SameEntry(l: Value, r: Value, m: map<string, FieldDiff>, n: map<string, FieldDiff>, p: string)
    requires SharersAgree(l, r) && IsFlattening(Diff(l, r), "", m) && IsFlattening(Diff(l, r), "", n)
    requires p in m && p in n
    ensures m[p] == n[p]
  {
    var x := FlatteningEntry(l, r, m, p);
    var y := FlatteningEntry(l, r, n, p);
  }

  lemma AgreeingFlattenings(l: Value, r: Value, m: map<string, FieldDiff>, n: map<string, FieldDiff>)
    requires SharersAgree(l, r) && IsFlattening(Diff(l, r), "", m) && IsFlattening(Diff(l, r), "", n)
    ensures m == n
  {
    FlatteningPathSet(l, r, m);
    FlatteningPathSet(l, r, n);
    forall p | p in m ensures m[p] == n[p] {
      assert p in n.Keys;
      SameEntry(l, r, m, n, p);
    }
  }

  // ---------- a dotted key loses a leaf ----------

  // {"a": {"b": 1}, "a.b": null} against {"a": {"b": 2}, "a.b": 1}
  const ONE := Num(Integer(1))
  const TWO := Num(Integer(2))
  const DOTTED_LEFT := Obj(map["a" := Obj(map["b" := ONE]), "a.b" := Null])
  const DOTTED_RIGHT := Obj(map["a" := Obj(map["b" := TWO]), "a.b" := ONE])
  const NESTED_LEAF := Leaf(["a", "b"], FieldDiff(Some(ONE), Some(TWO), Primitive))
  const DOTTED_LEAF := Leaf(["a.b"], FieldDiff(Some(Null), Some(ONE), TypeMismatch))

  lemma DottedLeavesPresent()
    ensures {NESTED_LEAF, DOTTED_LEAF} <= Leaves(Diff(DOTTED_LEFT, DOTTED_RIGHT))
  {
    var l, r := DOTTED_LEFT, DOTTED_RIGHT;
    RootLeaf(ONE, TWO);
    RootLeaf(Null, ONE);
    SharedFieldLeaf(l.fields["a"], r.fields["a"], "b", Leaf([], NESTED_LEAF.diff));
    assert ["b"] + [] == ["b"];
    SharedFieldLeaf(l, r, "a", Leaf(["b"], NESTED_LEAF.diff));
    SharedFieldLeaf(l, r, "a.b", Leaf([], DOTTED_LEAF.diff));
    assert ["a"] + ["b"] == NESTED_LEAF.segs && ["a.b"] + [] == DOTTED_LEAF.segs;
  }

  lemma DottedLeavesOnly(z: Leaf)
    requires z in Leaves(Diff(DOTTED_LEFT, DOTTED_RIGHT))
    ensures z == NESTED_LEAF || z == DOTTED_LEAF
  {
    var l, r := DOTTED_LEFT, DOTTED_RIGHT;
    LeafOfObject(l, r, z);
    var y := Leaf(z.segs[1..], z.diff);
    assert z.segs == [z.segs[0]] + y.segs;
    if z.segs[0] == "a" {
      LeafOfObject(l.fields["a"], r.fields["a"], y);
      assert y.segs == [y.segs[0]] + y.segs[1..];
      RootLeaf(ONE, TWO);
    } else {
      RootLeaf(Null, ONE);
    }
  }

  lemma DottedLeavesShare()
    ensures Leaves(Diff(DOTTED_LEFT, DOTTED_RIGHT)) == {NESTED_LEAF, DOTTED_LEAF}
    ensures PathFrom("", NESTED_LEAF.segs) == "a.b" == PathFrom("", DOTTED_LEAF.segs)
  {
    DottedLeavesPresent();
    forall z | z in Leaves(Diff(DOTTED_LEFT, DOTTED_RIGHT)) { DottedLeavesOnly(z); }
    assert NESTED_LEAF.segs[1..] == ["b"] && ["b"][1..] == [];
    assert PathFrom("", NESTED_LEAF.segs) == PathFrom("a", ["b"]) == PathFrom("a.b", []);
    assert DOTTED_LEAF.segs[1..] == [];
  }

  /** Whatever the order, one of two differences is lost to a dotted key, and which one depends on the order: `m` and
      `n` are the results for two orders of the keys. */
  lemma {:induction false} DottedKeyLosesLeaf() returns (m: map<string, FieldDiff>, n: map<string, FieldDiff>)
    ensures forall f | IsFlattening(Diff(DOTTED_LEFT, DOTTED_RIGHT), "", f) ::
      |f| < |Leaves(Diff(DOTTED_LEFT, DOTTED_RIGHT))|
    ensures IsFlattening(Diff(DOTTED_LEFT, DOTTED_RIGHT), "", m) && m == map["a.b" := NESTED_LEAF.diff]
    ensures IsFlattening(Diff(DOTTED_LEFT, DOTTED_RIGHT), "", n) && n == map["a.b" := DOTTED_LEAF.diff]
  {
    DottedAlwaysLoses();
    DottedLeavesShare();
    m := AnyLeafCanWin(DOTTED_LEFT, DOTTED_RIGHT, NESTED_LEAF);
    n := AnyLeafCanWin(DOTTED_LEFT, DOTTED_RIGHT, DOTTED_LEAF);
    DottedFlattening(m);
    DottedFlattening(n);
  }

  lemma TwoLeavesOneEntry(x: Leaf, y: Leaf, p: string, f: map<string, FieldDiff>)
    requires x != y && PathFrom("", x.segs) == p == PathFrom("", y.segs) && Inserted(map[], {x, y}, "", f)
    ensures p in f && f == map[p := f[p]] && |f| < |{x, y}|
  {
    assert PathsFrom("", {x, y}) == {p};
    assert |f| == |f.Keys| == 1;
    assert {x, y} - {x} == {y};
  }

  lemma DottedFlattening(f: map<string, FieldDiff>)
    requires IsFlattening(Diff(DOTTED_LEFT, DOTTED_RIGHT), "", f)
    ensures "a.b" in f && f == map["a.b" := f["a.b"]] && |f| < |Leaves(Diff(DOTTED_LEFT, DOTTED_RIGHT))|
  {
    DottedLeavesShare();
    FlatteningInserts(Diff(DOTTED_LEFT, DOTTED_RIGHT), "", f);
    TwoLeavesOneEntry(NESTED_LEAF, DOTTED_LEAF, "a.b", f);
  }

  lemma DottedAlwaysLoses()
    ensures forall f | IsFlattening(Diff(DOTTED_LEFT, DOTTED_RIGHT), "", f) ::
      |f| < |Leaves(Diff(DOTTED_LEFT, DOTTED_RIGHT))|
  {
    forall f | IsFlattening(Diff(DOTTED_LEFT, DOTTED_RIGHT), "", f) { DottedFlattening(f); }
  }
}
