/** The names ":status" and ":headers" that the engine reserves for itself: which bodies run into them, and what
    happens then. */
module ReservedNames {
  import opened Wrappers
  import opened Strings
  import opened Json
  import opened Diffing
  import opened Flattening
  import opened FlatteningFacts
  import opened FlatteningPaths
  import opened FlatteningOrders
  import opened FlatteningKeys
  import opened Suppression
  import opened Samples
  import opened Readings

  /** A key that is a reserved name or spells a header path. */
  predicate ReservedKey(k: string) {
    k == STATUS_FIELD || k == HEADER_FIELD_PREFIX || HEADER_FIELD_PREFIX + "." <= k
  }

  function Unreserved(): string -> bool {
    k => !ReservedKey(k)
  }

  /** The keys that can open a path: those at the top, and those below top keys that are empty and so add nothing. */
  predicate OpeningKeys(v: Value, ok: string -> bool) {
    v.Obj? ==> forall k <- v.fields :: ok(k) && (k == "" ==> OpeningKeys(v.fields[k], ok))
  }

  /** No body field is reported under the status name or at a header path. */
  ghost predicate NamesApart(b: Baseline, o: Other) {
    BodyPaths(b, o) !! HeaderPaths(b, o) && STATUS_FIELD !in BodyPaths(b, o)
  }

  // ---------- without a reserved key the names stay apart ----------

  /** A path that header differences or the status difference may be reported at. */
  predicate ReservedPath(p: string) {
    p == STATUS_FIELD || HEADER_FIELD_PREFIX + "." <= p
  }

  lemma DotsOfPrefix(i: nat)
    requires i < |HEADER_FIELD_PREFIX + "."| && (HEADER_FIELD_PREFIX + ".")[i] == '.'
    ensures i == |HEADER_FIELD_PREFIX|
  {
    assert forall j | 0 <= j < |HEADER_FIELD_PREFIX| :: HEADER_FIELD_PREFIX[j] != '.';
  }

  /** A longer path is reserved only if the key it opens with is. */
  lemma OpensReserved(k: string, rest: string)
    requires ReservedPath(k + "." + rest)
    ensures ReservedKey(k)
  {
    var p, prefix := k + "." + rest, HEADER_FIELD_PREFIX + ".";
    assert forall j | 0 <= j < |STATUS_FIELD| :: STATUS_FIELD[j] != '.';
    assert p[|k|] == '.' && p != STATUS_FIELD;
    if |k| < |prefix| {
      assert prefix[|k|] == p[|k|];
      DotsOfPrefix(|k|);
      assert k == p[..|k|] == prefix[..|k|] == HEADER_FIELD_PREFIX;
    } else {
      assert k[..|prefix|] == p[..|prefix|] == prefix;
    }
  }

  lemma UnreservedKeyPath(k: string, segs: seq<string>)
    requires k != "" && !ReservedKey(k)
    ensures !ReservedPath(PathFrom(k, segs))
  {
    if segs != [] {
      PathFromNonEmpty(k, segs);
      if ReservedPath(k + "." + Join(segs, '.')) { OpensReserved(k, Join(segs, '.')); }
    }
  }

  lemma {:induction false} NoReservedPath(l: Value, r: Value, x: Leaf)
    requires OpeningKeys(l, Unreserved()) && OpeningKeys(r, Unreserved()) && x in Leaves(Diff(l, r))
    ensures !ReservedPath(PathFrom("", x.segs))
    decreases l
  {
    if l.Obj? && r.Obj? {
      LeafOfObject(l, r, x);
      var k, y := x.segs[0], Leaf(x.segs[1..], x.diff);
      assert PathFrom("", x.segs) == PathFrom(k, y.segs);
      if k != "" {
        UnreservedKeyPath(k, y.segs);
      } else if k in l.fields && k in r.fields {
        NoReservedPath(l.fields[k], r.fields[k], y);
      } else {
        assert y.segs == [];
      }
    } else if l.Arr? && r.Arr? && Diff(l, r).IndexedDifference? {
      var j := LeafOfArrays(l, r, x);
      PathStart(x.segs);
      assert OfNat(j)[0] in OfNat(j);
    } else {
      RootLeaf(l, r);
    }
  }

  /** Bodies that open with no reserved key cannot clash with the status field or with header paths. */
  lemma {:induction false} NamespacesDisjoint(b: Baseline, o: Other)
    requires OpeningKeys(b.body, Unreserved()) && (o.body.Some? ==> OpeningKeys(o.body.value, Unreserved()))
    ensures NamesApart(b, o)
  {
    if o.body.Some? {
      forall p | p in BodyPaths(b, o) ensures !ReservedPath(p) {
        var x :| x in Leaves(Diff(b.body, o.body.value)) && PathFrom("", x.segs) == p;
        NoReservedPath(b.body, o.body.value, x);
      }
    }
    forall p | p in HeaderPaths(b, o) ensures ReservedPath(p) {}
  }

  // ---------- with a reserved key they clash ----------

  lemma OneKeyPath(k: string, l: Value, r: Value)
    requires l != r && !(l.Obj? && r.Obj?) && !(l.Arr? && r.Arr?)
    ensures k in DiffPaths(Obj(map[k := l]), Obj(map[k := r]))
  {
    RootLeaf(l, r);
    var y := Leaf([], LeafDiff(Diff(l, r)));
    SharedFieldLeaf(Obj(map[k := l]), Obj(map[k := r]), k, y);
    assert PathFrom("", [k]) == PathFrom(k, [k][1..]) == k;
    assert PathFrom("", Leaf([k] + y.segs, y.diff).segs) == k;
  }

  /** A body field named ":status" is reported under the name reserved for status divergence. */
  lemma StatusFieldClash(status: nat, headers: Value)
    ensures var b := Baseline(Obj(map[STATUS_FIELD := ONE]), headers, status);
      STATUS_FIELD in DivergingPaths(b, Other(Some(status), Some(Obj(map[STATUS_FIELD := TWO])), Some(headers)))
  {
    OneKeyPath(STATUS_FIELD, ONE, TWO);
  }

  /** A body whose only key holds an array of one element. */
  function Boxed(k: string, v: Value): Value {
    Obj(map[k := Arr([v])])
  }

  lemma BoxedKeys(ok: string -> bool, k: string, leaf: Value)
    requires ok(k) && leaf.Num?
    ensures AllKeys(Boxed(k, leaf), ok)
  {}

  lemma BoxedPath(k: string)
    requires k != ""
    ensures k + ".0" in DiffPaths(Boxed(k, ONE), Boxed(k, TWO))
    ensures Leaves(Diff(Boxed(k, ONE), Boxed(k, TWO))) >= {Leaf([k, "0"], ONE_TWO)}
  {
    RootLeaf(ONE, TWO);
    var pad := seq(0, i requires 0 <= i < 0 => Null);
    PaddedLeaf(0, ONE, TWO, Leaf([], ONE_TWO));
    assert pad + [ONE] == [ONE] && pad + [TWO] == [TWO];
    assert Padded(0, ONE) == Arr([ONE]) && Padded(0, TWO) == Arr([TWO]);
    assert ["0"] + [] == ["0"] && [k] + ["0"] == [k, "0"] && [k, "0"][1..] == ["0"] && ["0"][1..] == [];
    SharedFieldLeaf(Boxed(k, ONE), Boxed(k, TWO), k, Leaf(["0"], ONE_TWO));
    assert PathFrom("", [k, "0"]) == PathFrom(k, ["0"]) == PathFrom(k + ".0", []);
    assert PathFrom("", Leaf([k, "0"], ONE_TWO).segs) == k + ".0";
  }

  /** A response whose only compared header is `name`. */
  function OneHeader(name: string, value: string): HeaderMap {
    map[name := [value]]
  }

  lemma OneHeaderJson(name: string, value: string)
    requires name !in IGNORED_HEADERS
    ensures HeadersToJson(OneHeader(name, value)) == Obj(map[name := Str(value)])
  {}

  lemma NoIgnoredIndex(q: string)
    ensures q + "0" !in IGNORED_HEADERS
  {
    assert (q + "0")[|q|] == '0';
    forall h | h in IGNORED_HEADERS ensures h != q + "0" {
      assert h[|h| - 1] != '0';
    }
  }

  /** The sides of a comparison with the same status. */
  function Pair(l: Value, r: Value, h: HeaderMap, g: HeaderMap): (Baseline, Other) {
    (Baseline(l, HeadersToJson(h), 200), Other(Some(200), Some(r), Some(HeadersToJson(g))))
  }

  lemma PathsMeet(k: string) returns (name: string)
    requires ReservedKey(k) && k != STATUS_FIELD
    ensures name !in IGNORED_HEADERS && HeaderPath(name) == k + ".0"
  {
    if k == HEADER_FIELD_PREFIX {
      name := "0";
      NoIgnoredIndex("");
    } else {
      name := k[|HEADER_FIELD_PREFIX| + 1..] + ".0";
      NoIgnoredIndex(k[|HEADER_FIELD_PREFIX| + 1..] + ".");
      assert name == k[|HEADER_FIELD_PREFIX| + 1..] + "." + "0";
    }
  }

  /** A body difference at a header's path clashes as soon as the header differs. */
  lemma HeaderClashes(l: Value, r: Value, name: string)
    requires name !in IGNORED_HEADERS && HeaderPath(name) in DiffPaths(l, r)
    ensures var pair := Pair(l, r, OneHeader(name, "x"), OneHeader(name, "y"));
      HeaderPath(name) in BodyPaths(pair.0, pair.1) && HeaderPath(name) in HeaderPaths(pair.0, pair.1)
  {
    OneHeaderJson(name, "x");
    OneHeaderJson(name, "y");
    OneKeyPath(name, Str("x"), Str("y"));
  }

  /** Any reserved key clashes, on its own in the body and against headers that a response can carry. */
  lemma {:induction false} ReservedKeyClashes(ok: string -> bool, k: string)
      returns (l: Value, r: Value, h: HeaderMap, g: HeaderMap)
    requires ok(k) && ReservedKey(k)
    ensures AllKeys(l, ok) && AllKeys(r, ok)
    ensures !NamesApart(Pair(l, r, h, g).0, Pair(l, r, h, g).1)
  {
    if k == STATUS_FIELD {
      l, r, h, g := Obj(map[k := ONE]), Obj(map[k := TWO]), map[], map[];
      OneKeyPath(k, ONE, TWO);
    } else {
      l, r, h, g := HeaderKeyClashes(ok, k);
    }
  }

  lemma HeaderKeyClashes(ok: string -> bool, k: string) returns (l: Value, r: Value, h: HeaderMap, g: HeaderMap)
    requires ok(k) && ReservedKey(k) && k != STATUS_FIELD
    ensures AllKeys(l, ok) && AllKeys(r, ok)
    ensures !NamesApart(Pair(l, r, h, g).0, Pair(l, r, h, g).1)
  {
    var name := PathsMeet(k);
    l, r, h, g := Boxed(k, ONE), Boxed(k, TWO), OneHeader(name, "x"), OneHeader(name, "y");
    BoxedPath(k);
    BoxedKeys(ok, k, ONE);
    BoxedKeys(ok, k, TWO);
    HeaderClashes(l, r, name);
  }

  // ---------- the exact condition ----------

  /** Whatever is compared, with bodies over `ok` at every depth, the names stay apart. */
  ghost predicate AlwaysApart(ok: string -> bool) {
    forall b: Baseline, o: Other | AllKeys(b.body, ok) && (o.body.Some? ==> AllKeys(o.body.value, ok)) ::
      NamesApart(b, o)
  }

  /** The same for bodies that only open with keys over `ok`. */
  ghost predicate AlwaysApartOpening(ok: string -> bool) {
    forall b: Baseline, o: Other | OpeningKeys(b.body, ok) && (o.body.Some? ==> OpeningKeys(o.body.value, ok)) ::
      NamesApart(b, o)
  }

  /** The same for bodies over `ok` at every depth, against headers that responses can carry. */
  ghost predicate ResponsesApart(ok: string -> bool) {
    forall l, r, h, g | AllKeys(l, ok) && AllKeys(r, ok) :: NamesApart(Pair(l, r, h, g).0, Pair(l, r, h, g).1)
  }

  lemma {:induction false} OpeningKeysWeaken(v: Value, ok: string -> bool, more: string -> bool)
    requires OpeningKeys(v, ok) && forall k | ok(k) :: more(k)
    ensures OpeningKeys(v, more)
    decreases v
  {
    if v.Obj? && "" in v.fields { OpeningKeysWeaken(v.fields[""], ok, more); }
  }

  lemma {:induction false} AllKeysOpen(v: Value, ok: string -> bool)
    requires AllKeys(v, ok)
    ensures OpeningKeys(v, ok)
    decreases v
  {
    if v.Obj? && "" in v.fields { AllKeysOpen(v.fields[""], ok); }
  }

  lemma UnreservedApart(ok: string -> bool)
    requires forall k | ok(k) :: !ReservedKey(k)
    ensures AlwaysApartOpening(ok)
  {
    forall b: Baseline, o: Other | OpeningKeys(b.body, ok) && (o.body.Some? ==> OpeningKeys(o.body.value, ok))
      ensures NamesApart(b, o)
    {
      OpeningKeysWeaken(b.body, ok, Unreserved());
      if o.body.Some? { OpeningKeysWeaken(o.body.value, ok, Unreserved()); }
      NamespacesDisjoint(b, o);
    }
  }

  lemma OpeningIsEnough(ok: string -> bool)
    requires AlwaysApartOpening(ok)
    ensures AlwaysApart(ok) && ResponsesApart(ok)
  {
    forall b: Baseline, o: Other | AllKeys(b.body, ok) && (o.body.Some? ==> AllKeys(o.body.value, ok))
      ensures NamesApart(b, o)
    {
      AllKeysOpen(b.body, ok);
      if o.body.Some? { AllKeysOpen(o.body.value, ok); }
    }
    forall l, r, h, g | AllKeys(l, ok) && AllKeys(r, ok) ensures NamesApart(Pair(l, r, h, g).0, Pair(l, r, h, g).1) {
      AllKeysOpen(l, ok);
      AllKeysOpen(r, ok);
    }
  }

  /** Body fields stay clear of the reserved names, whatever is compared, iff no key in use is a reserved name or
      spells a header path. Only the keys that open a body matter, and headers of real responses suffice to clash. */
  lemma {:induction false} ReservedNamesExactly(ok: string -> bool)
    ensures AlwaysApart(ok) <==> forall k | ok(k) :: !ReservedKey(k)
    ensures AlwaysApartOpening(ok) <==> forall k | ok(k) :: !ReservedKey(k)
    ensures ResponsesApart(ok) <==> forall k | ok(k) :: !ReservedKey(k)
  {
    if k :| ok(k) && ReservedKey(k) {
      var l, r, h, g := ReservedKeyClashes(ok, k);
      AllKeysOpen(l, ok);
      AllKeysOpen(r, ok);
      assert !NamesApart(Pair(l, r, h, g).0, Pair(l, r, h, g).1);
    } else {
      UnreservedApart(ok);
      OpeningIsEnough(ok);
    }
  }

  // ---------- what a clash does ----------

  /** The bodies {":headers": [1]} and {":headers": [2]} differ at the path of the header "0". The header difference is
      recorded there, and the body's is lost. */
  lemma {:induction false} HeadersFieldClash(fd: FieldDiff)
    ensures var pair := Pair(Boxed(HEADER_FIELD_PREFIX, ONE), Boxed(HEADER_FIELD_PREFIX, TWO),
                             OneHeader("0", "x"), OneHeader("0", "y"));
      && ":headers.0" in BodyPaths(pair.0, pair.1) && ":headers.0" in HeaderPaths(pair.0, pair.1)
      && (MayRecord(pair.0, pair.1, ":headers.0", fd) <==> fd == FieldDiff(Some(Str("x")), Some(Str("y")), Primitive))
  {
    BoxedPath(HEADER_FIELD_PREFIX);
    NoIgnoredIndex("");
    assert "0" == "" + "0" && ":headers.0" == HEADER_FIELD_PREFIX + ".0" == HeaderPath("0");
    HeaderWins(Boxed(HEADER_FIELD_PREFIX, ONE), Boxed(HEADER_FIELD_PREFIX, TWO), "0", fd);
  }

  /** Where a body difference meets a header's, only the header's is recorded. */
  lemma HeaderWins(l: Value, r: Value, name: string, fd: FieldDiff)
    requires name !in IGNORED_HEADERS && HeaderPath(name) in DiffPaths(l, r)
    ensures var pair := Pair(l, r, OneHeader(name, "x"), OneHeader(name, "y"));
      && HeaderPath(name) in BodyPaths(pair.0, pair.1) && HeaderPath(name) in HeaderPaths(pair.0, pair.1)
      && (MayRecord(pair.0, pair.1, HeaderPath(name), fd) <==>
            fd == FieldDiff(Some(Str("x")), Some(Str("y")), Primitive))
  {
    HeaderClashes(l, r, name);
    OneHeaderJson(name, "x");
    OneHeaderJson(name, "y");
    OnlyHeaderLeaf(name, Str("x"), Str("y"), fd);
    forall q | HeaderPath(q) == HeaderPath(name) ensures q == name {
      assert q == HeaderPath(q)[|HEADER_FIELD_PREFIX| + 1..] == HeaderPath(name)[|HEADER_FIELD_PREFIX| + 1..] == name;
    }
  }

  lemma OnlyHeaderLeaf(k: string, l: Value, r: Value, fd: FieldDiff)
    requires l != r && !(l.Obj? && r.Obj?) && !(l.Arr? && r.Arr?)
    ensures Hits(Leaves(Diff(Obj(map[k := l]), Obj(map[k := r]))), "", k, fd) <==> fd == LeafDiff(Diff(l, r))
  {
    RootLeaf(l, r);
    var y := Leaf([], LeafDiff(Diff(l, r)));
    SharedFieldLeaf(Obj(map[k := l]), Obj(map[k := r]), k, y);
    assert PathFrom("", [k]) == PathFrom(k, [k][1..]) == k;
    assert [k] + y.segs == [k];
    forall x | x in Leaves(Diff(Obj(map[k := l]), Obj(map[k := r]))) ensures x.diff == y.diff {
      LeafOfObject(Obj(map[k := l]), Obj(map[k := r]), x);
    }
  }

  // ---------- what the namespace is for ----------

  /** One `:headers` rule hides every header difference and keeps every path outside the ':' namespace. */
  lemma {:induction false} HeadersRuleHidesHeaders(rx: RegexNew, codec: Codec, endpoint: string, path: string)
    ensures var rules := WithEndpoint(rx, NO_RULES, endpoint, [HEADER_FIELD_PREFIX]);
      && rules.Ok?
      && !Reading(codec, endpoint, rules.value, NO_RULES).Keeps(HeaderPath(path))
      && (!StartsWithColon(path) ==> Reading(codec, endpoint, rules.value, NO_RULES).Keeps(path))
  {
    var rule := Rule(HEADER_FIELD_PREFIX, Subtree);
    assert HEADER_FIELD_PREFIX[0] == ':' && REGEX_PREFIX[0] == 'r';
    assert forall i | 0 <= i < |HEADER_FIELD_PREFIX| :: HEADER_FIELD_PREFIX[i] != '*';
    assert CompileRule(rx, HEADER_FIELD_PREFIX) == Ok(rule);
    CompileOne(rx, HEADER_FIELD_PREFIX);
    assert Matches([rule][0], HeaderPath(path));
  }
}
