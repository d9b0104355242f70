/** Which object keys can be used together without two leaves ever sharing a path. */
module FlatteningKeys {
  import opened Wrappers
  import opened Strings
  import opened Json
  import opened Diffing
  import opened Flattening
  import opened FlatteningFacts
  import opened FlatteningPaths
  import opened FlatteningOrders

  // ---------- a vocabulary of keys ----------

  ghost predicate IsIndex(t: string) {
    exists n: nat :: OfNat(n) == t
  }

  /** What may stand between two dots besides: a key of the vocabulary or the index of an array position. */
  ghost predicate Token(ok: string -> bool, t: string) {
    ok(t) || IsIndex(t)
  }

  ghost predicate Tokens(ok: string -> bool, segs: seq<string>) {
    forall t <- segs :: Token(ok, t)
  }

  /** Two ways down that part at two different keys of one object, after `i` steps in common. */
  ghost predicate PartAtKeys(ok: string -> bool, a: seq<string>, b: seq<string>, i: nat) {
    && i < |a| && i < |b| && a[..i] == b[..i]
    && a[i] != b[i] && ok(a[i]) && ok(b[i])
  }

  ghost predicate Clash(ok: string -> bool, a: seq<string>, b: seq<string>, i: nat) {
    Tokens(ok, a) && Tokens(ok, b) && PartAtKeys(ok, a, b, i) && PathFrom("", a) == PathFrom("", b)
  }

  /** Two ways down that part at two different keys spell the same path. */
  ghost predicate Ambiguous(ok: string -> bool) {
    exists a, b, i :: Clash(ok, a, b, i)
  }

  ghost predicate NeverLosesLeaf(ok: string -> bool) {
    forall l, r | AllKeys(l, ok) && AllKeys(r, ok) :: LosesNoLeaf(l, r)
  }

  // ---------- an unambiguous vocabulary loses nothing ----------

  lemma {:induction false} AllKeysWeaken(v: Value, ok: string -> bool, more: string -> bool)
    requires AllKeys(v, ok) && forall k | ok(k) :: more(k)
    ensures AllKeys(v, more)
    decreases v
  {
    match v {
      case Obj(m) => forall k | k in m { AllKeysWeaken(m[k], ok, more); }
      case Arr(a) => forall x | x in a { AllKeysWeaken(x, ok, more); }
      case _ =>
    }
  }

  lemma LeafTokens(l: Value, r: Value, ok: string -> bool, x: Leaf)
    requires AllKeys(l, ok) && AllKeys(r, ok) && x in Leaves(Diff(l, r))
    ensures Tokens(ok, x.segs)
  {
    var token: string -> bool := t => Token(ok, t);
    AllKeysWeaken(l, ok, token);
    AllKeysWeaken(r, ok, token);
    LeafSegsSatisfy(l, r, token, x);
  }

  /** Two ways down part after `i` steps, at two keys of one object or at two positions of one array. */
  ghost predicate PartAt(ok: string -> bool, a: seq<string>, b: seq<string>, i: nat) {
    && i < |a| && i < |b| && a[..i] == b[..i] && a[i] != b[i]
    && ((ok(a[i]) && ok(b[i])) || (IsIndex(a[i]) && IsIndex(b[i])))
  }

  lemma PartBelow(ok: string -> bool, a: seq<string>, b: seq<string>, i: nat)
    requires a != [] && b != [] && a[0] == b[0] && PartAt(ok, a[1..], b[1..], i)
    ensures PartAt(ok, a, b, i + 1)
  {
    assert a[..i + 1] == [a[0]] + a[1..][..i] && b[..i + 1] == [b[0]] + b[1..][..i];
  }

  lemma KeyOfLeaf(l: Value, r: Value, ok: string -> bool, x: Leaf)
    requires l.Obj? && r.Obj? && AllKeys(l, ok) && AllKeys(r, ok) && x in Leaves(Diff(l, r))
    ensures x.segs != [] && ok(x.segs[0])
    ensures x.segs[0] in l.fields && x.segs[0] in r.fields ==>
      Leaf(x.segs[1..], x.diff) in Leaves(Diff(l.fields[x.segs[0]], r.fields[x.segs[0]]))
    ensures !(x.segs[0] in l.fields && x.segs[0] in r.fields) ==>
      x == Leaf([x.segs[0]], LeafDiff(DiffFields(l, r)[x.segs[0]]))
  {
    LeafOfObject(l, r, x);
    assert x.segs == [x.segs[0]] + x.segs[1..];
  }

  /** Any two leaves part somewhere. */
  lemma {:induction false} LeavesPart(l: Value, r: Value, ok: string -> bool, x: Leaf, y: Leaf) returns (i: nat)
    requires AllKeys(l, ok) && AllKeys(r, ok) && x in Leaves(Diff(l, r)) && y in Leaves(Diff(l, r)) && x != y
    ensures PartAt(ok, x.segs, y.segs, i)
    decreases l
  {
    i := 0;
    if l.Obj? && r.Obj? {
      KeyOfLeaf(l, r, ok, x);
      KeyOfLeaf(l, r, ok, y);
      if x.segs[0] == y.segs[0] {
        var k, x', y' := x.segs[0], Leaf(x.segs[1..], x.diff), Leaf(y.segs[1..], y.diff);
        assert x.segs == [k] + x'.segs && y.segs == [k] + y'.segs;
        i := LeavesPart(l.fields[k], r.fields[k], ok, x', y');
        PartBelow(ok, x.segs, y.segs, i);
        i := i + 1;
      }
    } else if l.Arr? && r.Arr? && Diff(l, r).IndexedDifference? {
      i := ElementLeavesPart(l, r, ok, x, y);
    } else {
      RootLeaf(l, r);
    }
  }

  lemma {:induction false} ElementLeavesPart(l: Value, r: Value, ok: string -> bool, x: Leaf, y: Leaf) returns (i: nat)
    requires l.Arr? && r.Arr? && Diff(l, r).IndexedDifference? && AllKeys(l, ok) && AllKeys(r, ok)
    requires x in Leaves(Diff(l, r)) && y in Leaves(Diff(l, r)) && x != y
    ensures PartAt(ok, x.segs, y.segs, i)
    decreases l, 0
  {
    i := 0;
    var j := LeafOfArrays(l, r, x);
    var m := LeafOfArrays(l, r, y);
    if j == m {
      var x', y' := Leaf(x.segs[1..], x.diff), Leaf(y.segs[1..], y.diff);
      assert x.segs == [OfNat(j)] + x'.segs && y.segs == [OfNat(j)] + y'.segs;
      i := LeavesPart(l.elems[j], r.elems[j], ok, x', y');
      PartBelow(ok, x.segs, y.segs, i);
      i := i + 1;
    } else if OfNat(j) == OfNat(m) {
      OfNatInjective(j, m);
    }
  }

  lemma {:induction false} PathFromAppend(prefix: string, a: seq<string>, b: seq<string>)
    ensures PathFrom(prefix, a + b) == PathFrom(PathFrom(prefix, a), b)
    decreases |a|
  {
    if a == [] {
      assert a + b == b;
    } else {
      assert (a + b)[1..] == a[1..] + b;
      PathFromAppend(JoinPath(prefix, a[0]), a[1..], b);
    }
  }

  lemma PathFromStep(a: seq<string>, i: nat)
    requires i < |a|
    ensures PathFrom("", a) == PathFrom(PathFrom("", a[..i]), [a[i]] + a[i + 1..])
  {
    PathFromAppend("", a[..i], [a[i]] + a[i + 1..]);
    assert a == a[..i] + ([a[i]] + a[i + 1..]);
  }

  lemma PartAtIndices(a: seq<string>, b: seq<string>, i: nat)
    requires i < |a| && i < |b| && a[..i] == b[..i] && a[i] != b[i] && IsIndex(a[i]) && IsIndex(b[i])
    ensures PathFrom("", a) != PathFrom("", b)
  {
    var m: nat, n: nat :| OfNat(m) == a[i] && OfNat(n) == b[i];
    PathFromStep(a, i);
    PathFromStep(b, i);
    IndexPathsDiffer(PathFrom("", a[..i]), m, a[i + 1..], n, b[i + 1..]);
  }

  lemma {:induction false} UnambiguousLosesNoLeaf(l: Value, r: Value, ok: string -> bool)
    requires !Ambiguous(ok) && AllKeys(l, ok) && AllKeys(r, ok)
    ensures LosesNoLeaf(l, r)
  {
    forall x, y | x in Leaves(Diff(l, r)) && y in Leaves(Diff(l, r)) && x != y
      ensures PathFrom("", x.segs) != PathFrom("", y.segs)
    {
      LeafTokens(l, r, ok, x);
      LeafTokens(l, r, ok, y);
      var i := LeavesPart(l, r, ok, x, y);
      assert !Clash(ok, x.segs, y.segs, i);
      if !PartAtKeys(ok, x.segs, y.segs, i) { PartAtIndices(x.segs, y.segs, i); }
    }
  }

  // ---------- an ambiguous vocabulary can lose a leaf ----------

  ghost function IndexFor(t: string): (n: nat)
    requires IsIndex(t)
    ensures OfNat(n) == t
  {
    var n: nat :| OfNat(n) == t;
    n
  }

  /** An array with `v` at position `n` and nothing of note before it. */
  function Padded(n: nat, v: Value): Value {
    Arr(seq(n, i requires 0 <= i < n => Null) + [v])
  }

  /** A value that holds `v` one step down. */
  ghost function Wrap(ok: string -> bool, t: string, v: Value): Value
    requires Token(ok, t)
  {
    if ok(t) then Obj(map[t := v]) else Padded(IndexFor(t), v)
  }

  /** `leaf`, wrapped once for every step of `segs`. */
  ghost function Nest(ok: string -> bool, segs: seq<string>, leaf: Value): Value
    requires Tokens(ok, segs)
  {
    if segs == [] then leaf else Nest(ok, segs[..|segs| - 1], Wrap(ok, segs[|segs| - 1], leaf))
  }

  lemma PaddedLeaf(n: nat, l: Value, r: Value, y: Leaf)
    requires y in Leaves(Diff(l, r)) && l != r
    ensures Padded(n, l) != Padded(n, r)
    ensures Leaf([OfNat(n)] + y.segs, y.diff) in Leaves(Diff(Padded(n, l), Padded(n, r)))
  {
    var pad := seq(n, i requires 0 <= i < n => Null);
    var a, b := Padded(n, l), Padded(n, r);
    assert a.elems == pad + [l] && b.elems == pad + [r];
    assert a.elems[n] == l && b.elems[n] == r;
    assert multiset(a.elems) == multiset(pad) + multiset{l} && multiset(b.elems) == multiset(pad) + multiset{r};
    assert multiset(a.elems)[l] == multiset(pad)[l] + 1 && multiset(b.elems)[l] == multiset(pad)[l];
    ArrayClassification(a, b);
    ElementLeaf(a, b, n, y);
  }

  lemma WrappedLeaf(ok: string -> bool, t: string, l: Value, r: Value, y: Leaf)
    requires Token(ok, t) && y in Leaves(Diff(l, r)) && l != r
    ensures Wrap(ok, t, l) != Wrap(ok, t, r)
    ensures Leaf([t] + y.segs, y.diff) in Leaves(Diff(Wrap(ok, t, l), Wrap(ok, t, r)))
  {
    if ok(t) {
      assert map[t := l][t] != map[t := r][t];
      FieldReported(Obj(map[t := l]), Obj(map[t := r]), t);
      FieldLeaf(Obj(map[t := l]), Obj(map[t := r]), t, y);
    } else {
      PaddedLeaf(IndexFor(t), l, r, y);
    }
  }

  lemma LastStep(a: seq<string>, b: seq<string>)
    requires a != []
    ensures a[..|a| - 1] + ([a[|a| - 1]] + b) == a + b
  {}

  lemma {:induction false} NestedLeaf(ok: string -> bool, segs: seq<string>, l: Value, r: Value, y: Leaf)
    requires Tokens(ok, segs) && y in Leaves(Diff(l, r)) && l != r
    ensures Nest(ok, segs, l) != Nest(ok, segs, r)
    ensures Leaf(segs + y.segs, y.diff) in Leaves(Diff(Nest(ok, segs, l), Nest(ok, segs, r)))
  {
    if segs == [] {
      assert segs + y.segs == y.segs;
    } else {
      var n := |segs| - 1;
      var l', r', z := Wrap(ok, segs[n], l), Wrap(ok, segs[n], r), Leaf([segs[n]] + y.segs, y.diff);
      assert Tokens(ok, segs[..n]) && Token(ok, segs[n]);
      WrappedLeaf(ok, segs[n], l, r, y);
      NestedLeaf(ok, segs[..n], l', r', z);
      assert Nest(ok, segs, l) == Nest(ok, segs[..n], l') && Nest(ok, segs, r) == Nest(ok, segs[..n], r');
      LastStep(segs, y.segs);
    }
  }

  lemma {:induction false} NestKeys(ok: string -> bool, segs: seq<string>, leaf: Value)
    requires Tokens(ok, segs) && AllKeys(leaf, ok)
    ensures AllKeys(Nest(ok, segs, leaf), ok)
  {
    if segs != [] {
      NestKeys(ok, segs[..|segs| - 1], Wrap(ok, segs[|segs| - 1], leaf));
    }
  }

  /** An object with two keys, below each of which `leaf` is nested. */
  ghost function Fork(ok: string -> bool, a: seq<string>, b: seq<string>, leaf: Value): Value
    requires a != [] && b != [] && Tokens(ok, a[1..]) && Tokens(ok, b[1..])
  {
    Obj(map[a[0] := Nest(ok, a[1..], leaf), b[0] := Nest(ok, b[1..], leaf)])
  }

  const ONE_TWO := FieldDiff(Some(ONE), Some(TWO), Primitive)

  lemma ForkLeaves(ok: string -> bool, a: seq<string>, b: seq<string>)
    requires a != [] && b != [] && a[0] != b[0] && Tokens(ok, a[1..]) && Tokens(ok, b[1..])
    ensures Fork(ok, a, b, ONE) != Fork(ok, a, b, TWO)
    ensures {Leaf(a, ONE_TWO), Leaf(b, ONE_TWO)} <= Leaves(Diff(Fork(ok, a, b, ONE), Fork(ok, a, b, TWO)))
  {
    var l, r, y := Fork(ok, a, b, ONE), Fork(ok, a, b, TWO), Leaf([], ONE_TWO);
    RootLeaf(ONE, TWO);
    assert y in Leaves(Diff(ONE, TWO));
    NestedLeaf(ok, a[1..], ONE, TWO, y);
    NestedLeaf(ok, b[1..], ONE, TWO, y);
    assert a[1..] + [] == a[1..] && b[1..] + [] == b[1..];
    assert [a[0]] + a[1..] == a && [b[0]] + b[1..] == b;
    SharedFieldLeaf(l, r, a[0], Leaf(a[1..], ONE_TWO));
    SharedFieldLeaf(l, r, b[0], Leaf(b[1..], ONE_TWO));
  }

  lemma ForkKeys(ok: string -> bool, a: seq<string>, b: seq<string>, leaf: Value)
    requires a != [] && b != [] && Tokens(ok, a[1..]) && Tokens(ok, b[1..])
    requires ok(a[0]) && ok(b[0]) && AllKeys(leaf, ok)
    ensures AllKeys(Fork(ok, a, b, leaf), ok)
  {
    NestKeys(ok, a[1..], leaf);
    NestKeys(ok, b[1..], leaf);
  }

  /** Two leaves with one path, told apart by a segment. */
  lemma SharedPathLosesLeaf(l: Value, r: Value, x: Leaf, y: Leaf, i: nat)
    requires x in Leaves(Diff(l, r)) && y in Leaves(Diff(l, r)) && PathFrom("", x.segs) == PathFrom("", y.segs)
    requires i < |x.segs| && i < |y.segs| && x.segs[i] != y.segs[i]
    ensures !LosesNoLeaf(l, r)
  {}

  lemma {:induction false} ClashLosesLeaf(ok: string -> bool, a: seq<string>, b: seq<string>, i: nat)
      returns (l: Value, r: Value)
    requires Clash(ok, a, b, i)
    ensures AllKeys(l, ok) && AllKeys(r, ok) && !LosesNoLeaf(l, r)
  {
    var p, a', b' := a[..i], a[i..], b[i..];
    assert a == p + a' && b == p + b';
    assert forall t <- p + a'[1..] :: t in a;
    assert forall t <- b'[1..] :: t in b;
    var one, two := Fork(ok, a', b', ONE), Fork(ok, a', b', TWO);
    l, r := Nest(ok, p, one), Nest(ok, p, two);
    ForkKeys(ok, a', b', ONE);
    ForkKeys(ok, a', b', TWO);
    NestKeys(ok, p, one);
    NestKeys(ok, p, two);
    ForkLeaves(ok, a', b');
    NestedLeaf(ok, p, one, two, Leaf(a', ONE_TWO));
    NestedLeaf(ok, p, one, two, Leaf(b', ONE_TWO));
    SharedPathLosesLeaf(l, r, Leaf(a, ONE_TWO), Leaf(b, ONE_TWO), i);
  }

  /** No leaf is ever lost between values over a vocabulary of keys iff no two ways down that part at two different
      keys spell the same path. */
  lemma {:induction false} LosesNoLeafExactly(ok: string -> bool)
    ensures NeverLosesLeaf(ok) <==> !Ambiguous(ok)
  {
    if Ambiguous(ok) {
      var a, b, i :| Clash(ok, a, b, i);
      var l, r := ClashLosesLeaf(ok, a, b, i);
    } else {
      forall l, r | AllKeys(l, ok) && AllKeys(r, ok) ensures LosesNoLeaf(l, r) { UnambiguousLosesNoLeaf(l, r, ok); }
    }
  }

  // ---------- ambiguity in terms of the pieces between dots ----------

  /** Two ways down that open with different keys spell the same sequence of dot-free pieces. */
  ghost predicate PiecesClash(ok: string -> bool, a: seq<string>, b: seq<string>) {
    Tokens(ok, a) && Tokens(ok, b) && PartAtKeys(ok, a, b, 0) && Pieces(a) == Pieces(b)
  }

  lemma {:induction false} PiecesAppend(a: seq<string>, b: seq<string>)
    ensures Pieces(a + b) == Pieces(a) + Pieces(b)
  {
    if a == [] {
      assert a + b == b;
    } else {
      assert (a + b)[1..] == a[1..] + b;
      PiecesAppend(a[1..], b);
    }
  }

  lemma ClashInPieces(ok: string -> bool, a: seq<string>, b: seq<string>, i: nat)
    requires Clash(ok, a, b, i) && !ok("")
    ensures PiecesClash(ok, a[i..], b[i..])
  {
    assert a[0] in a && b[0] in b;
    PathSplitsIntoPieces(a);
    PathSplitsIntoPieces(b);
    assert a == a[..i] + a[i..] && b == b[..i] + b[i..];
    PiecesAppend(a[..i], a[i..]);
    PiecesAppend(b[..i], b[i..]);
    assert forall t <- a[i..] :: t in a;
    assert forall t <- b[i..] :: t in b;
    var n := |Pieces(a[..i])|;
    assert Pieces(a[i..]) == Pieces(a)[n..] == Pieces(b)[n..] == Pieces(b[i..]);
  }

  lemma PiecesClashIsClash(ok: string -> bool, a: seq<string>, b: seq<string>)
    requires PiecesClash(ok, a, b) && !ok("")
    ensures Clash(ok, a, b, 0)
  {
    PathSplitsIntoPieces(a);
    PathSplitsIntoPieces(b);
    SplitInjective(PathFrom("", a), PathFrom("", b), '.');
  }

  /** A vocabulary with the empty key is ambiguous iff it has another key; one without it is ambiguous iff two ways
      down that open with different keys spell the same sequence of pieces. */
  lemma {:induction false} AmbiguousExactly(ok: string -> bool)
    ensures Ambiguous(ok) <==>
      if ok("") then exists k | k != "" :: ok(k) else exists a, b :: PiecesClash(ok, a, b)
  {
    if ok("") {
      if k :| k != "" && ok(k) {
        assert ["", k][1..] == [k] && [k][1..] == [];
        assert PathFrom("", ["", k]) == PathFrom("", [k]);
        assert Clash(ok, ["", k], [k], 0);
      }
    } else {
      if a, b, i :| Clash(ok, a, b, i) { ClashInPieces(ok, a, b, i); }
      if a, b :| PiecesClash(ok, a, b) { PiecesClashIsClash(ok, a, b); }
    }
  }

  // ---------- one key beside clean ones ----------

  /** Every key of `v`, at every depth, is clean or is `k`. */
  predicate KeysCleanOr(v: Value, k: string) {
    AllKeys(v, CleanOr(k))
  }

  function CleanOr(k: string): string -> bool {
    key => CleanKey(key) || key == k
  }

  /** A key is harmless if it is not empty, and either contains no dot or has an empty segment. */
  predicate Harmless(k: string) {
    k != "" && (Free(k, '.') || "" in Split(k, '.'))
  }

  predicate TokensOk(tokens: seq<string>, k: string) {
    forall t <- tokens :: CleanKey(t) || t == k
  }

  function FirstEmpty(pieces: seq<string>): (i: nat)
    requires "" in pieces
    ensures i < |pieces| && pieces[i] == "" && forall j | 0 <= j < i :: pieces[j] != ""
  {
    if pieces[0] == "" then 0 else 1 + FirstEmpty(pieces[1..])
  }

  lemma {:induction false} NoEmptyBefore(tokens: seq<string>, k: string, e: nat, i: nat)
    requires TokensOk(tokens, k) && i < e <= |Split(k, '.')| && i < |Pieces(tokens)|
    requires forall j | 0 <= j < e :: Split(k, '.')[j] != ""
    ensures Pieces(tokens)[i] != ""
    decreases |tokens|
  {
    var t, later := tokens[0], Pieces(tokens[1..]);
    assert t in tokens && forall u <- tokens[1..] :: u in tokens;
    if t == k {
      assert Pieces(tokens)[i] == Split(k, '.')[i];
    } else {
      SplitFree(t, '.');
      assert Pieces(tokens) == [t] + later;
      if i > 0 { NoEmptyBefore(tokens[1..], k, e, i - 1); }
    }
  }

  /** After a clean token the first empty piece comes later than in the special key. */
  lemma {:induction false} CleanTokenDelays(tokens: seq<string>, k: string)
    requires TokensOk(tokens, k) && "" in Split(k, '.') && tokens != [] && tokens[0] != k
    requires FirstEmpty(Split(k, '.')) < |Pieces(tokens)|
    ensures Pieces(tokens)[FirstEmpty(Split(k, '.'))] != ""
  {
    var e := FirstEmpty(Split(k, '.'));
    assert tokens[0] in tokens && forall t <- tokens[1..] :: t in tokens;
    SplitFree(tokens[0], '.');
    assert Pieces(tokens) == [tokens[0]] + Pieces(tokens[1..]);
    if e > 0 { NoEmptyBefore(tokens[1..], k, e, e - 1); }
  }

  /** A clean token and the special one cannot open the same sequence of pieces. */
  lemma {:induction false} FirstTokenClear(a: seq<string>, b: seq<string>, k: string)
    requires TokensOk(b, k) && "" in Split(k, '.') && a != [] && b != [] && a[0] == k && b[0] != k
    ensures Pieces(a) != Pieces(b)
  {
    var e := FirstEmpty(Split(k, '.'));
    assert Pieces(a)[e] == Split(k, '.')[e] == "";
    if e < |Pieces(b)| { CleanTokenDelays(b, k); }
  }

  lemma FirstTokenSame(a: seq<string>, b: seq<string>, k: string)
    requires a != [] && b != [] && TokensOk(a, k) && TokensOk(b, k)
    requires (CleanKey(k) || "" in Split(k, '.')) && Pieces(a) == Pieces(b)
    ensures a[0] == b[0]
  {
    assert a[0] in a && b[0] in b;
    if !CleanKey(k) && a[0] == k && b[0] != k { FirstTokenClear(a, b, k); }
    if !CleanKey(k) && b[0] == k && a[0] != k { FirstTokenClear(b, a, k); }
    if CleanKey(a[0]) { SplitFree(a[0], '.'); }
    if CleanKey(b[0]) { SplitFree(b[0], '.'); }
    assert Pieces(a)[0] == Split(a[0], '.')[0] && Pieces(b)[0] == Split(b[0], '.')[0];
  }

  lemma {:induction false} PiecesDetermineTokens(a: seq<string>, b: seq<string>, k: string)
    requires TokensOk(a, k) && TokensOk(b, k) && (CleanKey(k) || "" in Split(k, '.')) && Pieces(a) == Pieces(b)
    ensures a == b
    decreases |a|
  {
    if a != [] && b != [] {
      FirstTokenSame(a, b, k);
      assert forall t <- a[1..] :: t in a;
      assert forall t <- b[1..] :: t in b;
      var n := |Split(a[0], '.')|;
      assert Pieces(a[1..]) == Pieces(a)[n..] == Pieces(b)[n..] == Pieces(b[1..]);
      PiecesDetermineTokens(a[1..], b[1..], k);
      assert a == [a[0]] + a[1..] && b == [b[0]] + b[1..];
    }
  }

  lemma CleanTokens(tokens: seq<string>, k: string)
    requires Tokens(CleanOr(k), tokens)
    ensures TokensOk(tokens, k)
  {
    IndicesClean();
    forall t | t in tokens ensures CleanKey(t) || t == k { assert Token(CleanOr(k), t); }
  }

  lemma HarmlessUnambiguous(k: string)
    requires Harmless(k)
    ensures !Ambiguous(CleanOr(k))
  {
    AmbiguousExactly(CleanOr(k));
    forall a, b ensures !PiecesClash(CleanOr(k), a, b) {
      if PiecesClash(CleanOr(k), a, b) {
        CleanTokens(a, k);
        CleanTokens(b, k);
        PiecesDetermineTokens(a, b, k);
      }
    }
  }

  lemma HarmfulAmbiguous(k: string)
    requires !Harmless(k)
    ensures Ambiguous(CleanOr(k))
  {
    AmbiguousExactly(CleanOr(k));
    if k == "" {
      assert CleanOr(k)("x");
    } else {
      var segs := Split(k, '.');
      forall s | s in segs ensures CleanKey(s) { assert Free(s, '.'); }
      assert segs[0] in segs;
      PathOfSegs(segs);
      JoinSplit(k, '.');
      PathSplitsIntoPieces(segs);
      PathSplitsIntoPieces([k]);
      assert PathFrom("", [k]) == PathFrom(k, [k][1..]) == k;
      assert PiecesClash(CleanOr(k), [k], segs);
    }
  }

  /** A key may be used beside clean keys without any leaf ever being lost iff it is harmless. */
  lemma {:induction false} KeyHarmlessExactly(k: string)
    ensures (forall l, r | KeysCleanOr(l, k) && KeysCleanOr(r, k) :: LosesNoLeaf(l, r)) <==> Harmless(k)
  {
    LosesNoLeafExactly(CleanOr(k));
    if Harmless(k) { HarmlessUnambiguous(k); } else { HarmfulAmbiguous(k); }
  }

  /** Harmless keys do not combine: "a." and ".b" are each harmless, but together they can lose a leaf. */
  lemma {:induction false} HarmlessKeysClash()
    ensures Harmless("a.") && Harmless(".b")
    ensures !NeverLosesLeaf(key => CleanKey(key) || key == "a." || key == ".b")
  {
    var ok: string -> bool := key => CleanKey(key) || key == "a." || key == ".b";
    var a, b := ["a.", "b"], ["a", ".b"];
    assert "a." == "a" + "." + "" && ".b" == "" + "." + "b";
    SplitAppend("a", "", '.');
    SplitAppend("", "b", '.');
    assert Split("a.", '.')[1] == "" && Split(".b", '.')[0] == "";
    assert a[1..] == ["b"] && b[1..] == [".b"] && ["b"][1..] == [] && [".b"][1..] == [];
    assert PathFrom("", a) == PathFrom("a.", ["b"]) == "a..b";
    assert PathFrom("", b) == PathFrom("a", [".b"]) == "a..b";
    assert Clash(ok, a, b, 0);
    LosesNoLeafExactly(ok);
  }
}
