/** Dot-paths as names of positions: when they are unambiguous, and what may start with the reserved ':'. */
module FlatteningPaths {
  import opened Wrappers
  import opened Strings
  import opened Json
  import opened Diffing
  import opened Patching
  import opened Flattening
  import opened FlatteningFacts

  // ---------- clean segments ----------

  predicate CleanKey(k: string) {
    k != "" && Free(k, '.')
  }

  predicate CleanSegs(segs: seq<string>) {
    forall s <- segs :: CleanKey(s)
  }

  /** Every object key of `v`, at every depth, satisfies `ok`. */
  predicate AllKeys(v: Value, ok: string -> bool) {
    match v
    case Obj(m) => forall k <- m :: ok(k) && AllKeys(m[k], ok)
    case Arr(a) => forall x <- a :: AllKeys(x, ok)
    case _ => true
  }

  /** Every object key, at every depth, is non-empty and contains no dot. */
  predicate CleanKeys(v: Value) {
    AllKeys(v, CleanKey)
  }

  lemma {:induction false} LeafSegsSatisfy(l: Value, r: Value, ok: string -> bool, x: Leaf)
    requires (forall n: nat :: ok(OfNat(n))) && AllKeys(l, ok) && AllKeys(r, ok) && x in Leaves(Diff(l, r))
    ensures forall s <- x.segs :: ok(s)
    decreases l
  {
    var y := if x.segs != [] then Leaf(x.segs[1..], x.diff) else x;
    if l.Obj? && r.Obj? {
      LeafOfObject(l, r, x);
      var k := x.segs[0];
      if k in l.fields && k in r.fields {
        LeafSegsSatisfy(l.fields[k], r.fields[k], ok, y);
      } else {
        assert y.segs == [];
      }
      assert x.segs == [k] + y.segs;
    } else if l.Arr? && r.Arr? && Diff(l, r).IndexedDifference? {
      var j := LeafOfArrays(l, r, x);
      LeafSegsSatisfy(l.elems[j], r.elems[j], ok, y);
      assert x.segs == [OfNat(j)] + y.segs;
    } else {
      RootLeaf(l, r);
    }
  }

  lemma IndicesClean()
    ensures forall n: nat :: CleanKey(OfNat(n))
  {}

  lemma LeafSegsClean(l: Value, r: Value, x: Leaf)
    requires CleanKeys(l) && CleanKeys(r) && x in Leaves(Diff(l, r))
    ensures CleanSegs(x.segs)
  {
    IndicesClean();
    LeafSegsSatisfy(l, r, CleanKey, x);
  }

  // ---------- paths and segments ----------

  /** The segments a path spells out; the root is the empty path. */
  function Segments(p: string): seq<string> {
    if p == "" then [] else Split(p, '.')
  }

  lemma {:induction false} PathFromNonEmpty(prefix: string, segs: seq<string>)
    requires prefix != "" && segs != []
    ensures PathFrom(prefix, segs) == prefix + "." + Join(segs, '.')
    decreases |segs|
  {
    var next := prefix + "." + segs[0];
    assert PathFrom(prefix, segs) == PathFrom(next, segs[1..]);
    if |segs| > 1 {
      PathFromNonEmpty(next, segs[1..]);
      assert next + "." + Join(segs[1..], '.') == prefix + "." + (segs[0] + "." + Join(segs[1..], '.'));
    }
  }

  lemma PathOfSegs(segs: seq<string>)
    requires CleanSegs(segs)
    ensures PathFrom("", segs) == Join(segs, '.')
    ensures Segments(PathFrom("", segs)) == segs
  {
    if segs != [] {
      assert segs[0] in segs;
      assert PathFrom("", segs) == PathFrom(segs[0], segs[1..]);
      if |segs| > 1 {
        PathFromNonEmpty(segs[0], segs[1..]);
      }
      SplitJoin(segs, '.');
    }
  }

  /** The dot-free pieces that a sequence of segments spells. */
  function Pieces(segs: seq<string>): seq<string> {
    if segs == [] then [] else Split(segs[0], '.') + Pieces(segs[1..])
  }

  lemma {:induction false} PathPieces(prefix: string, segs: seq<string>)
    requires prefix != ""
    ensures Split(PathFrom(prefix, segs), '.') == Split(prefix, '.') + Pieces(segs)
    decreases |segs|
  {
    if segs == [] {
      assert Split(prefix, '.') + [] == Split(prefix, '.');
    } else {
      var next := prefix + "." + segs[0];
      SplitAppend(prefix, segs[0], '.');
      PathPieces(next, segs[1..]);
      var first, later := Split(segs[0], '.'), Pieces(segs[1..]);
      assert (Split(prefix, '.') + first) + later == Split(prefix, '.') + (first + later);
    }
  }

  lemma PathSplitsIntoPieces(segs: seq<string>)
    requires segs != [] && segs[0] != ""
    ensures PathFrom("", segs) != "" && Split(PathFrom("", segs), '.') == Pieces(segs)
  {
    PathStart(segs);
    PathPieces(segs[0], segs[1..]);
  }

  // ---------- flattening loses no leaf ----------

  /** No leaf lies at or below another. */
  lemma {:induction false} LeavesPrefixFree(l: Value, r: Value, x: Leaf, y: Leaf)
    requires x in Leaves(Diff(l, r)) && y in Leaves(Diff(l, r)) && x.segs <= y.segs
    ensures x == y
    decreases l
  {
    if l.Obj? && r.Obj? {
      LeafOfObject(l, r, x);
      LeafOfObject(l, r, y);
      var k, x', y' := x.segs[0], Leaf(x.segs[1..], x.diff), Leaf(y.segs[1..], y.diff);
      assert x'.segs <= y'.segs;
      if k in l.fields && k in r.fields {
        LeavesPrefixFree(l.fields[k], r.fields[k], x', y');
      }
      assert x.segs == [k] + x'.segs && y.segs == [k] + y'.segs;
    } else if l.Arr? && r.Arr? && Diff(l, r).IndexedDifference? {
      var i := LeafOfArrays(l, r, x);
      var j := LeafOfArrays(l, r, y);
      OfNatInjective(i, j);
      var x', y' := Leaf(x.segs[1..], x.diff), Leaf(y.segs[1..], y.diff);
      assert x'.segs <= y'.segs;
      LeavesPrefixFree(l.elems[i], r.elems[i], x', y');
      assert x.segs == [OfNat(i)] + x'.segs && y.segs == [OfNat(i)] + y'.segs;
    } else {
      RootLeaf(l, r);
    }
  }

  /** `p` names a place strictly above the one `q` names. */
  predicate Ancestor(p: string, q: string) {
    p != q && (p == "" || p + "." <= q)
  }

  lemma AncestorSegments(p: string, q: string)
    requires Ancestor(p, q)
    ensures Segments(p) <= Segments(q)
  {
    if p != "" {
      var rest := q[|p| + 1..];
      assert q == p + "." + rest;
      SplitAppend(p, rest, '.');
    }
  }

  /** With clean keys, distinct leaves get distinct paths and none is reported above another. */
  lemma {:induction false} PathsDistinct(l: Value, r: Value, x: Leaf, y: Leaf)
    requires CleanKeys(l) && CleanKeys(r) && x in Leaves(Diff(l, r)) && y in Leaves(Diff(l, r))
    ensures PathFrom("", x.segs) == PathFrom("", y.segs) ==> x == y
    ensures !Ancestor(PathFrom("", x.segs), PathFrom("", y.segs))
  {
    LeafSegsClean(l, r, x);
    LeafSegsClean(l, r, y);
    PathOfSegs(x.segs);
    PathOfSegs(y.segs);
    var p, q := PathFrom("", x.segs), PathFrom("", y.segs);
    if p == q || Ancestor(p, q) {
      if p != q { AncestorSegments(p, q); }
      LeavesPrefixFree(l, r, x, y);
    }
  }

  lemma {:induction false} InjectiveImage(s: set<Leaf>)
    requires forall x, y | x in s && y in s && PathFrom("", x.segs) == PathFrom("", y.segs) :: x == y
    ensures |PathsFrom("", s)| == |s|
  {
    if s != {} {
      var x :| x in s;
      InjectiveImage(s - {x});
      assert PathsFrom("", s) == PathsFrom("", s - {x}) + {PathFrom("", x.segs)};
    }
  }

  /** Every entry of a flattening is one of the leaves that lead to its path. */
  lemma FlatteningEntry(l: Value, r: Value, m: map<string, FieldDiff>, p: string) returns (y: Leaf)
    requires IsFlattening(Diff(l, r), "", m) && p in m
    ensures y in Leaves(Diff(l, r)) && PathFrom("", y.segs) == p && y.diff == m[p]
  {
    FlatteningInserts(Diff(l, r), "", m);
    assert Hits(Leaves(Diff(l, r)), "", p, m[p]);
    y :| y in Leaves(Diff(l, r)) && PathFrom("", y.segs) == p && y.diff == m[p];
  }

  /** A flattening has an entry at the path of every leaf, and at no other. */
  lemma FlatteningPathSet(l: Value, r: Value, m: map<string, FieldDiff>)
    requires IsFlattening(Diff(l, r), "", m)
    ensures m.Keys == DiffPaths(l, r)
  {
    FlatteningInserts(Diff(l, r), "", m);
  }

  lemma {:induction false} LeafKept(l: Value, r: Value, m: map<string, FieldDiff>, x: Leaf)
    requires CleanKeys(l) && CleanKeys(r) && IsFlattening(Diff(l, r), "", m) && x in Leaves(Diff(l, r))
    ensures PathFrom("", x.segs) in m && m[PathFrom("", x.segs)] == x.diff
  {
    var p := PathFrom("", x.segs);
    FlatteningPathSet(l, r, m);
    assert p in DiffPaths(l, r);
    var y := FlatteningEntry(l, r, m, p);
    PathsDistinct(l, r, x, y);
  }

  lemma {:induction false} EntryIsLeaf(l: Value, r: Value, m: map<string, FieldDiff>, p: string)
    requires CleanKeys(l) && CleanKeys(r) && IsFlattening(Diff(l, r), "", m) && p in m
    ensures Leaf(Segments(p), m[p]) in Leaves(Diff(l, r)) && PathFrom("", Segments(p)) == p
  {
    var y := FlatteningEntry(l, r, m, p);
    LeafSegsClean(l, r, y);
    PathOfSegs(y.segs);
    assert y == Leaf(Segments(p), m[p]);
  }

  lemma {:induction false} OnePathPerLeaf(l: Value, r: Value)
    requires CleanKeys(l) && CleanKeys(r)
    ensures |DiffPaths(l, r)| == |Leaves(Diff(l, r))|
  {
    var leaves := Leaves(Diff(l, r));
    forall x, y | x in leaves && y in leaves && PathFrom("", x.segs) == PathFrom("", y.segs) ensures x == y {
      PathsDistinct(l, r, x, y);
    }
    InjectiveImage(leaves);
  }

  /** With clean keys the map holds every leaf, under its own path, and nothing else. */
  lemma {:induction false} NoLeafLost(l: Value, r: Value, m: map<string, FieldDiff>)
    requires CleanKeys(l) && CleanKeys(r) && IsFlattening(Diff(l, r), "", m)
    ensures forall x <- Leaves(Diff(l, r)) :: PathFrom("", x.segs) in m && m[PathFrom("", x.segs)] == x.diff
    ensures forall p <- m :: Leaf(Segments(p), m[p]) in Leaves(Diff(l, r)) && PathFrom("", Segments(p)) == p
    ensures |m| == |Leaves(Diff(l, r))|
  {
    forall x | x in Leaves(Diff(l, r)) { LeafKept(l, r, m, x); }
    forall p | p in m { EntryIsLeaf(l, r, m, p); }
    OnePathPerLeaf(l, r);
    FlatteningPathSet(l, r, m);
    assert |m| == |m.Keys|;
  }

  /** With clean keys the whole map is independent of the order in which hash maps are iterated. */
  lemma {:induction false} FlatteningUnique(l: Value, r: Value, m: map<string, FieldDiff>, n: map<string, FieldDiff>)
    requires CleanKeys(l) && CleanKeys(r) && IsFlattening(Diff(l, r), "", m) && IsFlattening(Diff(l, r), "", n)
    ensures m == n
  {
    FlatteningPathSet(l, r, m);
    FlatteningPathSet(l, r, n);
    forall p | p in m ensures m[p] == n[p] {
      EntryIsLeaf(l, r, m, p);
      LeafKept(l, r, n, Leaf(Segments(p), m[p]));
    }
  }

  // ---------- what exactly the entries are ----------

  lemma {:induction false} PlaceOfPath(l: Value, r: Value, p: string)
    requires CleanKeys(l) && CleanKeys(r) && LeafPlace(Some(l), Some(r), Segments(p))
    ensures PathFrom("", Segments(p)) == p
  {
    LeavesExactly(l, r, Segments(p));
    var x :| x in Leaves(Diff(l, r)) && x.segs == Segments(p);
    LeafSegsClean(l, r, x);
    PathOfSegs(Segments(p));
    if p != "" { JoinSplit(p, '.'); }
  }

  /** With clean keys an entry is a path that names a place where the values differ and are compared no further, with
      the full account of what is there; and every such place has its entry. */
  lemma {:induction false} FlatteningExactly(l: Value, r: Value, m: map<string, FieldDiff>, p: string, fd: FieldDiff)
    requires CleanKeys(l) && CleanKeys(r) && IsFlattening(Diff(l, r), "", m)
    ensures p in m && m[p] == fd <==>
      LeafPlace(Some(l), Some(r), Segments(p)) && Describes(fd, Walk(l, Segments(p)), Walk(r, Segments(p)))
  {
    var x := Leaf(Segments(p), fd);
    LeafExactly(l, r, x);
    if p in m && m[p] == fd { EntryIsLeaf(l, r, m, p); }
    if x in Leaves(Diff(l, r)) {
      PlaceOfPath(l, r, p);
      LeafKept(l, r, m, x);
    }
  }

  // ---------- entries are true, and none is missing ----------

  /** With clean keys every entry of the map truly describes the place its path names in both values. */
  lemma {:induction false} EntriesSound(l: Value, r: Value, m: map<string, FieldDiff>, p: string)
    requires CleanKeys(l) && CleanKeys(r) && IsFlattening(Diff(l, r), "", m) && p in m
    ensures Describes(m[p], Walk(l, Segments(p)), Walk(r, Segments(p)))
    ensures forall segs | segs <= Segments(p) :: Walk(l, segs) != Walk(r, segs)
  {
    NoLeafLost(l, r, m);
    var x := Leaf(Segments(p), m[p]);
    LeavesSound(l, r, x);
    forall segs | segs <= Segments(p) ensures Walk(l, segs) != Walk(r, segs) {
      LeafBelowDisagrees(l, r, x, segs);
    }
  }

  /** Wherever the values disagree the map has an entry for that place, a place above it or a place below it. */
  lemma {:induction false} EntriesComplete(l: Value, r: Value, m: map<string, FieldDiff>, segs: seq<string>)
    requires CleanKeys(l) && CleanKeys(r) && IsFlattening(Diff(l, r), "", m)
    requires Walk(l, segs) != Walk(r, segs)
    ensures exists p :: p in m && Comparable(Segments(p), segs)
  {
    var x := LeavesComplete(l, r, segs);
    NoLeafLost(l, r, m);
    LeafSegsClean(l, r, x);
    PathOfSegs(x.segs);
    assert PathFrom("", x.segs) in m;
  }

  // ---------- symmetry ----------

  function FlipType(t: DiffType): DiffType {
    match t
    case MissingField => DiffType.ExtraField
    case ExtraField => DiffType.MissingField
    case _ => t
  }

  function Flip(fd: FieldDiff): FieldDiff {
    FieldDiff(fd.right, fd.left, FlipType(fd.diffType))
  }

  lemma RootFlipped(l: Value, r: Value)
    requires l != r && IsLeaf(Diff(l, r))
    ensures IsLeaf(Diff(r, l)) && LeafDiff(Diff(r, l)) == Flip(LeafDiff(Diff(l, r)))
  {
    DiffMirrored(l, r);
  }

  lemma OneSidedFlipped(l: Value, r: Value, k: string)
    requires l.Obj? && r.Obj? && (k in l.fields) != (k in r.fields)
    ensures Leaves(FieldDifference(l, r, k)) == {Leaf([], LeafDiff(FieldDifference(l, r, k)))}
    ensures Leaves(FieldDifference(r, l, k)) == {Leaf([], Flip(LeafDiff(FieldDifference(l, r, k))))}
  {}

  lemma {:induction false} LeafFlipped(l: Value, r: Value, x: Leaf)
    requires x in Leaves(Diff(l, r))
    ensures Leaf(x.segs, Flip(x.diff)) in Leaves(Diff(r, l))
    decreases l
  {
    if l.Obj? && r.Obj? {
      LeafOfObject(l, r, x);
      var k, y := x.segs[0], Leaf(x.segs[1..], x.diff);
      FieldReported(l, r, k);
      FieldReported(r, l, k);
      if k in l.fields && k in r.fields {
        LeafFlipped(l.fields[k], r.fields[k], y);
      } else {
        OneSidedFlipped(l, r, k);
      }
      FieldLeaf(r, l, k, Leaf(y.segs, Flip(y.diff)));
      assert x.segs == [k] + y.segs;
    } else if l.Arr? && r.Arr? && Diff(l, r).IndexedDifference? {
      var j := LeafOfArrays(l, r, x);
      var y := Leaf(x.segs[1..], x.diff);
      LeafFlipped(l.elems[j], r.elems[j], y);
      IndexedBothWays(l, r);
      ElementLeaf(r, l, j, Leaf(y.segs, Flip(y.diff)));
      assert x.segs == [OfNat(j)] + y.segs;
    } else {
      RootLeaf(l, r);
      RootFlipped(l, r);
      RootLeaf(r, l);
    }
  }

  lemma IndexedBothWays(l: Value, r: Value)
    requires l.Arr? && r.Arr? && Diff(l, r).IndexedDifference?
    ensures Diff(r, l).IndexedDifference?
  {
    ArrayClassification(l, r);
    ArrayClassification(r, l);
  }

  /** The same paths are reported whichever value is put first. */
  lemma {:induction false} DiffPathsSymmetric(l: Value, r: Value)
    ensures DiffPaths(l, r) == DiffPaths(r, l)
  {
    forall p ensures p in DiffPaths(l, r) <==> p in DiffPaths(r, l) {
      if p in DiffPaths(l, r) {
        var x :| x in Leaves(Diff(l, r)) && PathFrom("", x.segs) == p;
        LeafFlipped(l, r, x);
        assert PathFrom("", Leaf(x.segs, Flip(x.diff)).segs) == p;
      }
      if p in DiffPaths(r, l) {
        var x :| x in Leaves(Diff(r, l)) && PathFrom("", x.segs) == p;
        LeafFlipped(r, l, x);
        assert PathFrom("", Leaf(x.segs, Flip(x.diff)).segs) == p;
      }
    }
  }

  // ---------- the reserved ':' ----------

  predicate StartsWithColon(p: string) {
    p != "" && p[0] == ':'
  }

  /** A key starting with ':' sits at the top, or below top keys that are empty and so add nothing to a path. */
  predicate ColonKey(v: Value) {
    v.Obj? && exists k <- v.fields :: StartsWithColon(k) || (k == "" && ColonKey(v.fields[k]))
  }

  lemma {:induction false} PathKeepsPrefix(prefix: string, segs: seq<string>)
    requires prefix != ""
    ensures prefix <= PathFrom(prefix, segs)
    decreases |segs|
  {
    if segs != [] {
      PathKeepsPrefix(JoinPath(prefix, segs[0]), segs[1..]);
    }
  }

  lemma PathStart(segs: seq<string>)
    requires segs != []
    ensures segs[0] == "" ==> PathFrom("", segs) == PathFrom("", segs[1..])
    ensures segs[0] != "" ==> PathFrom("", segs) != "" && PathFrom("", segs)[0] == segs[0][0]
  {
    if segs[0] != "" {
      PathKeepsPrefix(segs[0], segs[1..]);
    }
  }

  lemma {:induction false} NoColonPath(l: Value, r: Value, x: Leaf)
    requires !ColonKey(l) && !ColonKey(r) && x in Leaves(Diff(l, r))
    ensures !StartsWithColon(PathFrom("", x.segs))
    decreases l
  {
    if l.Obj? && r.Obj? {
      LeafOfObject(l, r, x);
      PathStart(x.segs);
      var k, y := x.segs[0], Leaf(x.segs[1..], x.diff);
      if k in l.fields && k in r.fields {
        if k == "" { NoColonPath(l.fields[k], r.fields[k], y); }
      } else {
        assert y.segs == [];
      }
    } else if l.Arr? && r.Arr? && Diff(l, r).IndexedDifference? {
      var j := LeafOfArrays(l, r, x);
      PathStart(x.segs);
      assert OfNat(j)[0] in OfNat(j);
    } else {
      RootLeaf(l, r);
    }
  }

  /** A value with such a key is reported at a path starting with ':' against some value without one. */
  lemma {:induction false} ColonPathExists(l: Value) returns (r: Value, x: Leaf)
    requires ColonKey(l)
    ensures !ColonKey(r) && x in Leaves(Diff(l, r)) && StartsWithColon(PathFrom("", x.segs))
  {
    var k :| k in l.fields && (StartsWithColon(k) || (k == "" && ColonKey(l.fields[k])));
    var y: Leaf;
    if StartsWithColon(k) {
      r := Obj(map[]);
      y := Leaf([], LeafDiff(FieldDifference(l, r, k)));
    } else {
      var r';
      r', y := ColonPathExists(l.fields[k]);
      r := Obj(map[k := r']);
    }
    FieldReported(l, r, k);
    FieldLeaf(l, r, k, y);
    x := Leaf([k] + y.segs, y.diff);
    PathStart(x.segs);
    assert x.segs[1..] == y.segs;
  }

  /** The ':' namespace is safe from a body, whatever it is compared with, iff the body has no such key. */
  lemma {:induction false} ColonNamespaceSafe(l: Value)
    ensures (forall r, p | !ColonKey(r) && p in DiffPaths(l, r) :: !StartsWithColon(p)) <==> !ColonKey(l)
  {
    if ColonKey(l) {
      var r, x := ColonPathExists(l);
      assert PathFrom("", x.segs) in DiffPaths(l, r);
    } else {
      forall r, p | !ColonKey(r) && p in DiffPaths(l, r) ensures !StartsWithColon(p) {
        var x :| x in Leaves(Diff(l, r)) && PathFrom("", x.segs) == p;
        NoColonPath(l, r, x);
      }
    }
  }
}
