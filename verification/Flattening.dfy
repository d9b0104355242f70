/** Flattening a diff tree into a map from dot-paths to field diffs (src/compare/flatten.rs). */
module Flattening {
  import opened Wrappers
  import opened Strings
  import opened Json
  import opened Diffing

  datatype DiffType = Primitive | MissingField | ExtraField | SeqSize | Ordering | TypeMismatch | StatusMismatch

  datatype FieldDiff = FieldDiff(left: Option<Value>, right: Option<Value>, diffType: DiffType)

  const STATUS_FIELD := ":status"
  const HEADER_FIELD_PREFIX := ":headers"

  function JoinPath(prefix: string, segment: string): string {
    if prefix == "" then segment else prefix + "." + segment
  }

  // ---------- the leaves of a tree ----------

  /** A reported difference: the segments that lead to it from the root, and what is recorded there. */
  datatype Leaf = Leaf(segs: seq<string>, diff: FieldDiff)

  predicate IsLeaf(d: Difference) {
    !d.NoDifference? && !d.ObjectDifference? && !d.IndexedDifference?
  }

  function LeafDiff(d: Difference): FieldDiff
    requires IsLeaf(d)
  {
    match d
    case PrimitiveDifference(left, right) => FieldDiff(Some(left), Some(right), Primitive)
    case MissingField(value) => FieldDiff(Some(value), None, DiffType.MissingField)
    case ExtraField(value) => FieldDiff(None, Some(value), DiffType.ExtraField)
    case SeqSizeDifference(left, right) => FieldDiff(Some(Arr(left)), Some(Arr(right)), SeqSize)
    case OrderingDifference => FieldDiff(None, None, Ordering)
    case TypeDifference(left, right) => FieldDiff(Some(left), Some(right), TypeMismatch)
  }

  function Under(seg: string, leaves: set<Leaf>): set<Leaf> {
    set x <- leaves :: Leaf([seg] + x.segs, x.diff)
  }

  function Leaves(d: Difference): set<Leaf> {
    match d
    case NoDifference(_) => {}
    case ObjectDifference(fs) => set k, x | k in fs && x in Under(k, Leaves(fs[k])) :: x
    case IndexedDifference(es) =>
      set i: nat, x | i < |es| && x in Under(OfNat(es[i].index), Leaves(es[i].diff)) :: x
    case _ => {Leaf([], LeafDiff(d))}
  }

  /** The path at which `flatten_into` records a leaf when it starts from `prefix`. */
  function PathFrom(prefix: string, segs: seq<string>): string
    decreases |segs|
  {
    if segs == [] then prefix else PathFrom(JoinPath(prefix, segs[0]), segs[1..])
  }

  function PathsFrom(prefix: string, leaves: set<Leaf>): set<string> {
    set x <- leaves :: PathFrom(prefix, x.segs)
  }

  // ---------- what inserting leaves into a map may do ----------

  ghost predicate Hits(leaves: set<Leaf>, prefix: string, p: string, fd: FieldDiff) {
    exists x <- leaves :: PathFrom(prefix, x.segs) == p && x.diff == fd
  }

  /** Every path of `leaves` holds the diff of one of the leaves that lead there, and no other entry of `before`
      has changed. */
  ghost predicate Inserted(before: map<string, FieldDiff>, leaves: set<Leaf>, prefix: string,
                           after: map<string, FieldDiff>)
  {
    && after.Keys == before.Keys + PathsFrom(prefix, leaves)
    && forall p <- after :: if p in PathsFrom(prefix, leaves) then Hits(leaves, prefix, p, after[p])
         else after[p] == before[p]
  }

  lemma InsertedTwice(a: map<string, FieldDiff>, x: set<Leaf>, b: map<string, FieldDiff>, y: set<Leaf>,
                      c: map<string, FieldDiff>, prefix: string)
    requires Inserted(a, x, prefix, b) && Inserted(b, y, prefix, c)
    ensures Inserted(a, x + y, prefix, c)
  {
    assert PathsFrom(prefix, x + y) == PathsFrom(prefix, x) + PathsFrom(prefix, y);
    forall p | p in c
      ensures if p in PathsFrom(prefix, x + y) then Hits(x + y, prefix, p, c[p]) else c[p] == a[p]
    {
      if p in PathsFrom(prefix, y) {
        assert Hits(y, prefix, p, c[p]);
      } else if p in PathsFrom(prefix, x) {
        assert Hits(x, prefix, p, b[p]);
      }
    }
  }

  lemma InsertedUnder(a: map<string, FieldDiff>, x: set<Leaf>, prefix: string, seg: string, b: map<string, FieldDiff>)
    requires Inserted(a, x, JoinPath(prefix, seg), b)
    ensures Inserted(a, Under(seg, x), prefix, b)
  {
    var deep := JoinPath(prefix, seg);
    forall l | l in x
      ensures PathFrom(prefix, [seg] + l.segs) == PathFrom(deep, l.segs)
        && Leaf([seg] + l.segs, l.diff) in Under(seg, x)
    {
      assert ([seg] + l.segs)[1..] == l.segs;
    }
    forall p ensures p in PathsFrom(deep, x) <==> p in PathsFrom(prefix, Under(seg, x)) {
      if p in PathsFrom(deep, x) {
        var l :| l in x && p == PathFrom(deep, l.segs);
        assert PathFrom(prefix, Leaf([seg] + l.segs, l.diff).segs) == p;
      }
    }
    forall p | p in b && p in PathsFrom(prefix, Under(seg, x)) ensures Hits(Under(seg, x), prefix, p, b[p]) {
      var l :| l in x && PathFrom(deep, l.segs) == p && l.diff == b[p];
      assert PathFrom(prefix, Leaf([seg] + l.segs, l.diff).segs) == p;
    }
  }

  lemma InsertedOne(a: map<string, FieldDiff>, d: Difference, prefix: string)
    requires IsLeaf(d)
    ensures Inserted(a, Leaves(d), prefix, a[prefix := LeafDiff(d)])
  {
    var x := Leaf([], LeafDiff(d));
    assert Leaves(d) == {x} && PathFrom(prefix, x.segs) == prefix;
    assert PathsFrom(prefix, Leaves(d)) == {prefix};
  }

  // ---------- flattening in a given order ----------

  /** The order in which the hash map of every object node hands out its keys. */
  datatype Visits =
    | NoVisits
    | FieldVisits(keys: seq<string>, fields: map<string, Visits>)
    | ElementVisits(elements: seq<Visits>)

  /** `keys` lists the elements of `s`, each once. */
  ghost predicate Lists(keys: seq<string>, s: set<string>) {
    (forall k :: k in keys <==> k in s) && forall i, j | 0 <= i < j < |keys| :: keys[i] != keys[j]
  }

  /** `v` gives an order to every object node of `d`. */
  ghost predicate Follows(v: Visits, d: Difference) {
    match d
    case ObjectDifference(fs) =>
      && v.FieldVisits? && Lists(v.keys, fs.Keys) && v.fields.Keys == fs.Keys
      && forall k <- fs :: Follows(v.fields[k], fs[k])
    case IndexedDifference(es) =>
      && v.ElementVisits? && |v.elements| == |es|
      && forall i | 0 <= i < |es| :: Follows(v.elements[i], es[i].diff)
    case _ => v.NoVisits?
  }

  /** What `flatten_into` makes of `before` when the keys come in the order `v`. */
  ghost function FlattenBy(d: Difference, path: string, v: Visits,
                           before: map<string, FieldDiff>): map<string, FieldDiff>
    requires Follows(v, d)
    decreases d, 1, 0
  {
    match d
    case NoDifference(_) => before
    case ObjectDifference(_) => FlattenKeys(d, path, v.keys, v.fields, before)
    case IndexedDifference(_) => FlattenElements(d, path, v.elements, before)
    case _ => before[path := LeafDiff(d)]
  }

  /** `fields` gives an order below each of these keys. */
  ghost predicate KeysFollow(d: Difference, keys: seq<string>, fields: map<string, Visits>) {
    d.ObjectDifference? && forall k <- keys :: k in d.fields && k in fields && Follows(fields[k], d.fields[k])
  }

  /** The fields of these keys, in this order. */
  ghost function FlattenKeys(d: Difference, path: string, keys: seq<string>, fields: map<string, Visits>,
                             before: map<string, FieldDiff>): map<string, FieldDiff>
    requires KeysFollow(d, keys, fields)
    decreases d, 0, |keys|
  {
    if keys == [] then before
    else
      var k := keys[|keys| - 1];
      FlattenBy(d.fields[k], JoinPath(path, k), fields[k], FlattenKeys(d, path, keys[..|keys| - 1], fields, before))
  }

  /** `visits` gives an order below each of the first elements, as many as it has. */
  ghost predicate ElementsFollow(d: Difference, visits: seq<Visits>) {
    && d.IndexedDifference? && |visits| <= |d.elements|
    && forall i | 0 <= i < |visits| :: Follows(visits[i], d.elements[i].diff)
  }

  /** The first elements, as many as there are in `visits`. */
  ghost function FlattenElements(d: Difference, path: string, visits: seq<Visits>,
                                 before: map<string, FieldDiff>): map<string, FieldDiff>
    requires ElementsFollow(d, visits)
    decreases d, 0, |visits|
  {
    if visits == [] then before
    else
      var n := |visits| - 1;
      FlattenBy(d.elements[n].diff, JoinPath(path, OfNat(d.elements[n].index)), visits[n],
                FlattenElements(d, path, visits[..n], before))
  }

  /** `m` is a possible result of flattening `d` from `prefix`: the result for some order. */
  ghost predicate IsFlattening(d: Difference, prefix: string, m: map<string, FieldDiff>) {
    exists v :: Follows(v, d) && m == FlattenBy(d, prefix, v, map[])
  }

  // ---------- whatever the order, exactly the leaves are inserted ----------

  function LeavesOfKeys(fs: map<string, Difference>, done: set<string>): set<Leaf> {
    set k, x | k in fs && k in done && x in Under(k, Leaves(fs[k])) :: x
  }

  function LeavesOfElements(es: seq<Located>, n: nat): set<Leaf> {
    set i: nat, x | i < |es| && i < n && x in Under(OfNat(es[i].index), Leaves(es[i].diff)) :: x
  }

  lemma InsertedField(before: map<string, FieldDiff>, fs: map<string, Difference>, done: set<string>, k: string,
                      mid: map<string, FieldDiff>, out: map<string, FieldDiff>, path: string)
    requires k in fs && Inserted(before, LeavesOfKeys(fs, done), path, mid)
    requires Inserted(mid, Leaves(fs[k]), JoinPath(path, k), out)
    ensures Inserted(before, LeavesOfKeys(fs, done + {k}), path, out)
  {
    InsertedUnder(mid, Leaves(fs[k]), path, k, out);
    InsertedTwice(before, LeavesOfKeys(fs, done), mid, Under(k, Leaves(fs[k])), out, path);
    LeavesOfOneMoreKey(fs, done, k);
  }

  lemma LeavesOfOneMoreKey(fs: map<string, Difference>, done: set<string>, k: string)
    requires k in fs
    ensures LeavesOfKeys(fs, done + {k}) == LeavesOfKeys(fs, done) + Under(k, Leaves(fs[k]))
  {}

  lemma LeavesOfOneMoreElement(es: seq<Located>, i: nat)
    requires i < |es|
    ensures LeavesOfElements(es, i + 1) == LeavesOfElements(es, i) + Under(OfNat(es[i].index), Leaves(es[i].diff))
  {
    var more := Under(OfNat(es[i].index), Leaves(es[i].diff));
    forall x ensures x in LeavesOfElements(es, i + 1) <==> x in LeavesOfElements(es, i) || x in more {
      if x in LeavesOfElements(es, i + 1) {
        var j: nat :| j < |es| && j < i + 1 && x in Under(OfNat(es[j].index), Leaves(es[j].diff));
        if j < i { assert x in LeavesOfElements(es, i); }
      }
    }
  }

  lemma InsertedElement(before: map<string, FieldDiff>, es: seq<Located>, i: nat,
                        mid: map<string, FieldDiff>, out: map<string, FieldDiff>, path: string)
    requires i < |es| && Inserted(before, LeavesOfElements(es, i), path, mid)
    requires Inserted(mid, Leaves(es[i].diff), JoinPath(path, OfNat(es[i].index)), out)
    ensures Inserted(before, LeavesOfElements(es, i + 1), path, out)
  {
    var seg := OfNat(es[i].index);
    InsertedUnder(mid, Leaves(es[i].diff), path, seg, out);
    InsertedTwice(before, LeavesOfElements(es, i), mid, Under(seg, Leaves(es[i].diff)), out, path);
    LeavesOfOneMoreElement(es, i);
  }

  lemma AllLeaves(d: Difference)
    ensures d.ObjectDifference? ==>
      LeavesOfKeys(d.fields, d.fields.Keys) == Leaves(d) && LeavesOfKeys(d.fields, {}) == {}
    ensures d.IndexedDifference? ==>
      LeavesOfElements(d.elements, |d.elements|) == Leaves(d) && LeavesOfElements(d.elements, 0) == {}
  {}

  lemma {:induction false} FlattenByInserts(d: Difference, path: string, v: Visits, before: map<string, FieldDiff>)
    requires Follows(v, d)
    ensures Inserted(before, Leaves(d), path, FlattenBy(d, path, v, before))
    decreases d, 1, 0
  {
    AllLeaves(d);
    match d {
      case NoDifference(_) =>
      case ObjectDifference(fs) =>
        FlattenKeysInserts(d, path, v.keys, v.fields, before);
        assert (set k <- v.keys) == fs.Keys;
      case IndexedDifference(_) => FlattenElementsInserts(d, path, v.elements, before);
      case _ => InsertedOne(before, d, path);
    }
  }

  lemma {:induction false} FlattenKeysInserts(d: Difference, path: string, keys: seq<string>,
                                              fields: map<string, Visits>, before: map<string, FieldDiff>)
    requires KeysFollow(d, keys, fields)
    ensures Inserted(before, LeavesOfKeys(d.fields, set k <- keys), path, FlattenKeys(d, path, keys, fields, before))
    decreases d, 0, |keys|
  {
    AllLeaves(d);
    if keys == [] {
      assert (set k <- keys) == {};
    } else {
      var n := |keys| - 1;
      var k, mid := keys[n], FlattenKeys(d, path, keys[..n], fields, before);
      FlattenKeysInserts(d, path, keys[..n], fields, before);
      FlattenByInserts(d.fields[k], JoinPath(path, k), fields[k], mid);
      InsertedField(before, d.fields, (set q <- keys[..n]), k, mid, FlattenKeys(d, path, keys, fields, before), path);
      assert (set q <- keys) == (set q <- keys[..n]) + {k};
    }
  }

  lemma {:induction false} FlattenElementsInserts(d: Difference, path: string, visits: seq<Visits>,
                                                  before: map<string, FieldDiff>)
    requires ElementsFollow(d, visits)
    ensures Inserted(before, LeavesOfElements(d.elements, |visits|), path, FlattenElements(d, path, visits, before))
    decreases d, 0, |visits|
  {
    AllLeaves(d);
    if visits != [] {
      var n := |visits| - 1;
      var mid, e := FlattenElements(d, path, visits[..n], before), d.elements[n];
      FlattenElementsInserts(d, path, visits[..n], before);
      FlattenByInserts(e.diff, JoinPath(path, OfNat(e.index)), visits[n], mid);
      InsertedElement(before, d.elements, n, mid, FlattenElements(d, path, visits, before), path);
    }
  }

  lemma FlatteningInserts(d: Difference, prefix: string, m: map<string, FieldDiff>)
    requires IsFlattening(d, prefix, m)
    ensures Inserted(map[], Leaves(d), prefix, m)
  {
    var v :| Follows(v, d) && m == FlattenBy(d, prefix, v, map[]);
    FlattenByInserts(d, prefix, v, map[]);
  }

  // ---------- the method ----------

  /** A key not visited yet may still be given its order. */
  lemma {:induction false} OrderOneMore(d: Difference, path: string, keys: seq<string>, fields: map<string, Visits>,
                                        before: map<string, FieldDiff>, k: string, v: Visits)
    requires KeysFollow(d, keys, fields)
    requires k !in keys
    ensures FlattenKeys(d, path, keys, fields[k := v], before) == FlattenKeys(d, path, keys, fields, before)
  {
    if keys != [] {
      OrderOneMore(d, path, keys[..|keys| - 1], fields, before, k, v);
    }
  }

  /** `out` is what the fields visited so far make of `before`. */
  ghost predicate FieldsDone(d: Difference, path: string, before: map<string, FieldDiff>, keys: seq<string>,
                             fields: map<string, Visits>, out: map<string, FieldDiff>)
    requires d.ObjectDifference?
  {
    && fields.Keys <= d.fields.Keys && Lists(keys, fields.Keys)
    && (forall k <- fields :: Follows(fields[k], d.fields[k]))
    && out == FlattenKeys(d, path, keys, fields, before)
  }

  lemma FieldDone(d: Difference, path: string, before: map<string, FieldDiff>, keys: seq<string>,
                  fields: map<string, Visits>, mid: map<string, FieldDiff>, k: string, v: Visits)
    requires d.ObjectDifference? && FieldsDone(d, path, before, keys, fields, mid)
    requires k in d.fields && k !in fields && Follows(v, d.fields[k])
    ensures FieldsDone(d, path, before, keys + [k], fields[k := v], FlattenBy(d.fields[k], JoinPath(path, k), v, mid))
  {
    OrderOneMore(d, path, keys, fields, before, k, v);
    assert (keys + [k])[..|keys|] == keys;
  }

  /** `out` is what the elements visited so far make of `before`. */
  ghost predicate ElementsDone(d: Difference, path: string, before: map<string, FieldDiff>, visits: seq<Visits>,
                               out: map<string, FieldDiff>)
  {
    ElementsFollow(d, visits) && out == FlattenElements(d, path, visits, before)
  }

  lemma ElementDone(d: Difference, path: string, before: map<string, FieldDiff>, visits: seq<Visits>,
                    mid: map<string, FieldDiff>, v: Visits)
    requires ElementsDone(d, path, before, visits, mid) && |visits| < |d.elements|
      && Follows(v, d.elements[|visits|].diff)
    ensures var e := d.elements[|visits|];
      ElementsDone(d, path, before, visits + [v], FlattenBy(e.diff, JoinPath(path, OfNat(e.index)), v, mid))
  {
    var more := visits + [v];
    assert more[..|visits|] == visits && more[|visits|] == v;
    forall i | 0 <= i < |more| ensures Follows(more[i], d.elements[i].diff) {
      if i < |visits| { assert more[i] == visits[i]; }
    }
  }

  /** Fields are visited in an arbitrary order, as a hash map does; `visits` is the order taken. */
  method FlattenInto(d: Difference, path: string, before: map<string, FieldDiff>)
      returns (out: map<string, FieldDiff>, ghost visits: Visits)
    ensures Follows(visits, d) && out == FlattenBy(d, path, visits, before)
    ensures Inserted(before, Leaves(d), path, out)
    decreases d
  {
    out, visits := before, NoVisits;
    match d {
      case NoDifference(_) =>
      case ObjectDifference(fs) =>
        var pending := fs.Keys;
        ghost var keys: seq<string>, fields: map<string, Visits> := [], map[];
        while pending != {}
          invariant pending <= fs.Keys && fields.Keys == fs.Keys - pending
          invariant FieldsDone(d, path, before, keys, fields, out)
        {
          var k :| k in pending;
          ghost var mid, below := out, NoVisits;
          out, below := FlattenInto(fs[k], JoinPath(path, k), out);
          FieldDone(d, path, before, keys, fields, mid, k, below);
          keys, fields := keys + [k], fields[k := below];
          pending := pending - {k};
        }
        visits := FieldVisits(keys, fields);
      case IndexedDifference(es) =>
        ghost var elements: seq<Visits> := [];
        for i := 0 to |es|
          invariant |elements| == i && ElementsDone(d, path, before, elements, out)
        {
          ghost var mid, below := out, NoVisits;
          out, below := FlattenInto(es[i].diff, JoinPath(path, OfNat(es[i].index)), out);
          ElementDone(d, path, before, elements, mid, below);
          elements := elements + [below];
        }
        visits := ElementVisits(elements);
      case _ =>
        out := before[path := LeafDiff(d)];
    }
    FlattenByInserts(d, path, visits, before);
  }

  method Flatten(d: Difference, prefix: string) returns (out: map<string, FieldDiff>)
    ensures IsFlattening(d, prefix, out)
  {
    ghost var visits;
    out, visits := FlattenInto(d, prefix, map[]);
  }

  /** The paths at which `flatten_value` reports two values to differ. */
  function DiffPaths(l: Value, r: Value): set<string> {
    PathsFrom("", Leaves(Diff(l, r)))
  }

  method FlattenValue(l: Value, r: Value) returns (out: map<string, FieldDiff>)
    ensures IsFlattening(Diff(l, r), "", out)
    ensures out.Keys == DiffPaths(l, r) && forall p <- out :: Hits(Leaves(Diff(l, r)), "", p, out[p])
  {
    var d := ComputeDiff(l, r);
    out := Flatten(d, "");
    FlatteningInserts(d, "", out);
  }
}
