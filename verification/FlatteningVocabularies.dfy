/** Deciding whether a vocabulary of keys can be used together. A clash is a sequence of dot-free pieces that can be
    read as two sequences of keys and indices. Reading both at once, one of them is ahead of the other by the tail of a
    dotted key, so there are only finitely many tails to look at. */
module FlatteningVocabularies {
  import opened Strings
  import opened FlatteningPaths
  import opened FlatteningKeys

  // ---------- indices ----------

  predicate LooksLikeIndex(p: string) {
    p != "" && (forall c <- p :: c in DIGITS) && (|p| == 1 || p[0] != '0')
  }

  lemma {:induction false} IndexLooks(n: nat)
    ensures LooksLikeIndex(OfNat(n)) && (n > 0 ==> OfNat(n)[0] != '0')
  {
    if n >= 10 { IndexLooks(n / 10); }
  }

  lemma {:induction false} DigitsAreIndex(p: string) returns (n: nat)
    requires LooksLikeIndex(p)
    ensures OfNat(n) == p
  {
    var last := |p| - 1;
    assert p[last] in DIGITS;
    var d :| 0 <= d < 10 && DIGITS[d] == p[last];
    if last == 0 {
      n := d;
    } else {
      var m := DigitsAreIndex(p[..last]);
      assert OfNat(0) == "0" && p[0] == p[..last][0] == OfNat(m)[0];
      assert m > 0;
      n := 10 * m + d;
      assert n / 10 == m && n % 10 == d;
    }
  }

  lemma IndexExactly(p: string)
    ensures IsIndex(p) <==> LooksLikeIndex(p)
  {
    if IsIndex(p) {
      var n: nat :| OfNat(n) == p;
      IndexLooks(n);
    }
    if LooksLikeIndex(p) { var n := DigitsAreIndex(p); }
  }

  // ---------- the decision ----------

  /** The tails of the dotted keys, cut into pieces. */
  function Tails(dotted: set<string>): set<seq<string>> {
    set k, i | k in dotted && 0 <= i <= |Split(k, '.')| :: Split(k, '.')[i..]
  }

  /** What is left over when `word` is read where `tail` is owed: more of the tail, or what goes beyond it. */
  predicate LeavesOver(word: seq<string>, tail: seq<string>, rest: seq<string>) {
    (word <= tail && rest == tail[|word|..]) || (tail <= word && rest == word[|tail|..])
  }

  /** Reading one more key or index turns the debt of `tail` into the debt of `rest`. */
  predicate Leads(ok: string -> bool, dotted: set<string>, tail: seq<string>, rest: seq<string>) {
    tail != [] &&
    ((rest == tail[1..] && (ok(tail[0]) || LooksLikeIndex(tail[0])))
     || exists k <- dotted :: LeavesOver(Split(k, '.'), tail, rest))
  }

  /** The tails from which one step leads to `settled`, and `settled` itself. */
  function Grow(ok: string -> bool, dotted: set<string>, settled: set<seq<string>>): set<seq<string>> {
    settled + set t | t in Tails(dotted) && exists rest <- settled :: Leads(ok, dotted, t, rest)
  }

  lemma GrowShrinks(ok: string -> bool, dotted: set<string>, settled: set<seq<string>>)
    requires Grow(ok, dotted, settled) != settled
    ensures |Tails(dotted) - Grow(ok, dotted, settled)| < |Tails(dotted) - settled|
  {
    var tails, more := Tails(dotted), Grow(ok, dotted, settled);
    var t :| t in more && t !in settled;
    StrictSubset(tails - more, tails - settled, t);
  }

  lemma StrictSubset(a: set<seq<string>>, b: set<seq<string>>, x: seq<string>)
    requires a <= b && x in b && x !in a
    ensures |a| < |b|
  {
    assert a <= b - {x};
    SubsetSize(a, b - {x});
  }

  lemma {:induction false} SubsetSize(a: set<seq<string>>, b: set<seq<string>>)
    requires a <= b
    ensures |a| <= |b|
  {
    if a != {} {
      var x :| x in a;
      SubsetSize(a - {x}, b - {x});
    }
  }

  /** All tails whose debt can be settled. */
  function Settle(ok: string -> bool, dotted: set<string>, settled: set<seq<string>>): (all: set<seq<string>>)
    ensures settled <= all && Grow(ok, dotted, all) == all
    decreases |Tails(dotted) - settled|
  {
    var more := Grow(ok, dotted, settled);
    if more == settled then settled
    else
      GrowShrinks(ok, dotted, settled);
      Settle(ok, dotted, more)
  }

  /** Two different keys, one of which goes on where the other ends, with a tail that can be settled. */
  predicate Overlaps(ok: string -> bool, dotted: set<string>, settled: set<seq<string>>) {
    exists k <- dotted ::
      var word := Split(k, '.');
      (ok(word[0]) && word[1..] in settled)
      || exists j <- dotted :: j != k && Split(j, '.') <= word && word[|Split(j, '.')|..] in settled
  }

  predicate Compatible(ok: string -> bool, dotted: set<string>) {
    !Overlaps(ok, dotted, Settle(ok, dotted, {[]}))
  }

  // ---------- what is settled has two readings ----------

  ghost predicate DottedKeys(ok: string -> bool, dotted: set<string>) {
    forall k :: k in dotted <==> ok(k) && !Free(k, '.')
  }

  /** `a` spells the tail and then what `b` spells. */
  ghost predicate Solves(ok: string -> bool, tail: seq<string>, a: seq<string>, b: seq<string>) {
    Tokens(ok, a) && Tokens(ok, b) && Pieces(a) == tail + Pieces(b)
  }

  ghost predicate Solvable(ok: string -> bool, tail: seq<string>) {
    exists a, b :: Solves(ok, tail, a, b)
  }

  lemma PiecesCons(t: string, rest: seq<string>)
    ensures Pieces([t] + rest) == Split(t, '.') + Pieces(rest)
  {
    assert ([t] + rest)[1..] == rest;
  }

  lemma TokensCons(ok: string -> bool, t: string, rest: seq<string>)
    requires Token(ok, t) && Tokens(ok, rest)
    ensures Tokens(ok, [t] + rest)
  {}

  lemma Assoc(x: seq<string>, y: seq<string>, z: seq<string>)
    ensures x + (y + z) == (x + y) + z
  {}

  /** `t` spells all of the tail and more: the other side now owes the rest. */
  lemma SolvesBeyond(ok: string -> bool, t: string, tail: seq<string>, rest: seq<string>,
                     a: seq<string>, b: seq<string>)
    requires Token(ok, t) && Split(t, '.') == tail + rest && Solves(ok, rest, a, b)
    ensures Solves(ok, tail, [t] + b, a)
  {
    TokensCons(ok, t, b);
    PiecesCons(t, b);
    Assoc(tail, rest, Pieces(b));
  }

  /** `t` spells the beginning of the tail: the same side still owes the rest. */
  lemma SolvesWithin(ok: string -> bool, t: string, tail: seq<string>, rest: seq<string>,
                     a: seq<string>, b: seq<string>)
    requires Token(ok, t) && tail == Split(t, '.') + rest && Solves(ok, rest, a, b)
    ensures Solves(ok, tail, [t] + a, b)
  {
    TokensCons(ok, t, a);
    PiecesCons(t, a);
    Assoc(Split(t, '.'), rest, Pieces(b));
  }

  /** Reading `t` on the side that owes leaves less to owe, or something to owe on the other side. */
  lemma SolvesBack(ok: string -> bool, t: string, tail: seq<string>, rest: seq<string>)
    requires Token(ok, t) && LeavesOver(Split(t, '.'), tail, rest) && Solvable(ok, rest)
    ensures Solvable(ok, tail)
  {
    var a, b :| Solves(ok, rest, a, b);
    if tail == Split(t, '.') + rest {
      SolvesWithin(ok, t, tail, rest, a, b);
    } else {
      assert Split(t, '.') == tail + rest;
      SolvesBeyond(ok, t, tail, rest, a, b);
    }
  }

  lemma LeadsBack(ok: string -> bool, dotted: set<string>, tail: seq<string>, rest: seq<string>)
    requires DottedKeys(ok, dotted) && tail in Tails(dotted) && Leads(ok, dotted, tail, rest) && Solvable(ok, rest)
    ensures Solvable(ok, tail)
  {
    if k :| k in dotted && LeavesOver(Split(k, '.'), tail, rest) {
      SolvesBack(ok, k, tail, rest);
    } else {
      assert Free(tail[0], '.');
      SplitFree(tail[0], '.');
      IndexExactly(tail[0]);
      SolvesBack(ok, tail[0], tail, rest);
    }
  }

  lemma {:induction false} SettledSolvable(ok: string -> bool, dotted: set<string>, settled: set<seq<string>>)
    requires DottedKeys(ok, dotted) && forall t <- settled :: Solvable(ok, t)
    ensures forall t <- Settle(ok, dotted, settled) :: Solvable(ok, t)
    decreases |Tails(dotted) - settled|
  {
    var more := Grow(ok, dotted, settled);
    if more != settled {
      forall t | t in more ensures Solvable(ok, t) {
        if t !in settled {
          var rest :| rest in settled && Leads(ok, dotted, t, rest);
          LeadsBack(ok, dotted, t, rest);
        }
      }
      GrowShrinks(ok, dotted, settled);
      SettledSolvable(ok, dotted, more);
    }
  }

  // ---------- what has two readings is settled ----------

  lemma TailOfTail(dotted: set<string>, tail: seq<string>, n: nat)
    requires tail in Tails(dotted) && n <= |tail|
    ensures tail[n..] in Tails(dotted)
  {
    var k, i :| k in dotted && 0 <= i <= |Split(k, '.')| && tail == Split(k, '.')[i..];
    assert tail[n..] == Split(k, '.')[i + n..];
  }

  lemma TailOfKey(dotted: set<string>, k: string, n: nat)
    requires k in dotted && n <= |Split(k, '.')|
    ensures Split(k, '.')[n..] in Tails(dotted)
  {}

  lemma CommonStart(v: seq<string>, x: seq<string>, word: seq<string>, y: seq<string>)
    requires v + x == word + y && |v| <= |word|
    ensures word == v + word[|v|..] && x == word[|v|..] + y
  {
    var all := v + x;
    assert v == all[..|v|] == word[..|v|];
    assert x == all[|v|..] == word[|v|..] + y;
  }

  /** The first token of a reading takes it one step on. */
  lemma SolvesOn(ok: string -> bool, tail: seq<string>, a: seq<string>, b: seq<string>)
    returns (rest: seq<string>, a': seq<string>, b': seq<string>)
    requires tail != [] && Solves(ok, tail, a, b)
    ensures a != [] && |a'| + |b'| < |a| + |b| && Token(ok, a[0])
    ensures LeavesOver(Split(a[0], '.'), tail, rest) && Solves(ok, rest, a', b')
  {
    assert a != [];
    assert a == [a[0]] + a[1..] && a[0] in a && forall t <- a[1..] :: t in a;
    PiecesCons(a[0], a[1..]);
    var word, later := Split(a[0], '.'), Pieces(a[1..]);
    if |word| <= |tail| {
      CommonStart(word, later, tail, Pieces(b));
      rest, a', b' := tail[|word|..], a[1..], b;
    } else {
      CommonStart(tail, Pieces(b), word, later);
      rest, a', b' := word[|tail|..], b, a[1..];
    }
  }

  /** A step along a token is a step of the decision. */
  lemma StepLeads(ok: string -> bool, dotted: set<string>, t: string, tail: seq<string>, rest: seq<string>)
    requires DottedKeys(ok, dotted) && tail in Tails(dotted) && tail != []
    requires Token(ok, t) && LeavesOver(Split(t, '.'), tail, rest)
    ensures Leads(ok, dotted, tail, rest) && rest in Tails(dotted)
  {
    var word := Split(t, '.');
    if Free(t, '.') {
      SplitFree(t, '.');
      assert t == tail[0] && rest == tail[1..];
      IndexExactly(t);
      TailOfTail(dotted, tail, 1);
    } else {
      if !ok(t) { IndicesClean(); }
      assert t in dotted;
      if word <= tail && rest == tail[|word|..] {
        TailOfTail(dotted, tail, |word|);
      } else {
        TailOfKey(dotted, t, |tail|);
      }
    }
  }

  lemma {:induction false} SolvableSettled(ok: string -> bool, dotted: set<string>, settled: set<seq<string>>,
                                           tail: seq<string>, a: seq<string>, b: seq<string>)
    requires DottedKeys(ok, dotted) && [] in settled && Grow(ok, dotted, settled) == settled
    requires tail in Tails(dotted) && Solves(ok, tail, a, b)
    ensures tail in settled
    decreases |a| + |b|
  {
    if tail != [] {
      var rest, a', b' := SolvesOn(ok, tail, a, b);
      StepLeads(ok, dotted, a[0], tail, rest);
      SolvableSettled(ok, dotted, settled, rest, a', b');
      assert tail in Grow(ok, dotted, settled);
    }
  }

  // ---------- the decision is right ----------

  lemma SettledExactly(ok: string -> bool, dotted: set<string>, tail: seq<string>)
    requires DottedKeys(ok, dotted) && tail in Tails(dotted)
    ensures tail in Settle(ok, dotted, {[]}) <==> Solvable(ok, tail)
  {
    assert Solves(ok, [], [], []);
    SettledSolvable(ok, dotted, {[]});
    if Solvable(ok, tail) {
      var a, b :| Solves(ok, tail, a, b);
      SolvableSettled(ok, dotted, Settle(ok, dotted, {[]}), tail, a, b);
    }
  }

  /** The shorter of two keys that open a clash is the beginning of the longer one, and the rest can be settled. */
  lemma ClashRest(ok: string -> bool, a: seq<string>, b: seq<string>) returns (rest: seq<string>)
    requires PiecesClash(ok, a, b) && |Split(a[0], '.')| <= |Split(b[0], '.')|
    ensures Split(b[0], '.') == Split(a[0], '.') + rest && Solves(ok, rest, a[1..], b[1..])
  {
    assert forall t <- a[1..] :: t in a;
    assert forall t <- b[1..] :: t in b;
    rest := Split(b[0], '.')[|Split(a[0], '.')|..];
    CommonStart(Split(a[0], '.'), Pieces(a[1..]), Split(b[0], '.'), Pieces(b[1..]));
  }

  lemma ClashOverlaps(ok: string -> bool, dotted: set<string>, a: seq<string>, b: seq<string>)
    requires DottedKeys(ok, dotted) && PiecesClash(ok, a, b) && |Split(a[0], '.')| <= |Split(b[0], '.')|
    ensures !Compatible(ok, dotted)
  {
    var j, k := a[0], b[0];
    var v, word := Split(j, '.'), Split(k, '.');
    var rest := ClashRest(ok, a, b);
    assert rest == word[|v|..];
    if rest == [] {
      assert v == word;
      SplitInjective(j, k, '.');
    }
    if Free(k, '.') { SplitFree(k, '.'); }
    if Free(j, '.') { SplitFree(j, '.'); }
    TailOfKey(dotted, k, |v|);
    SettledExactly(ok, dotted, rest);
  }

  lemma OverlapClashes(ok: string -> bool, j: string, k: string)
    requires ok(j) && ok(k) && j != k && Split(j, '.') <= Split(k, '.')
    requires Solvable(ok, Split(k, '.')[|Split(j, '.')|..])
    ensures exists a, b :: PiecesClash(ok, a, b)
  {
    var rest := Split(k, '.')[|Split(j, '.')|..];
    assert Split(k, '.') == Split(j, '.') + rest;
    var a, b :| Solves(ok, rest, a, b);
    BothSpell(ok, j, k, rest, a, b);
    assert PiecesClash(ok, [j] + a, [k] + b);
  }

  lemma BothSpell(ok: string -> bool, j: string, k: string, rest: seq<string>, a: seq<string>, b: seq<string>)
    requires ok(j) && ok(k) && Split(k, '.') == Split(j, '.') + rest && Solves(ok, rest, a, b)
    ensures Tokens(ok, [j] + a) && Tokens(ok, [k] + b) && Pieces([j] + a) == Pieces([k] + b)
  {
    TokensCons(ok, j, a);
    TokensCons(ok, k, b);
    PiecesCons(j, a);
    PiecesCons(k, b);
    Assoc(Split(j, '.'), rest, Pieces(b));
  }

  lemma OverlapsClash(ok: string -> bool, dotted: set<string>)
    requires DottedKeys(ok, dotted) && !Compatible(ok, dotted)
    ensures exists a, b :: PiecesClash(ok, a, b)
  {
    var settled := Settle(ok, dotted, {[]});
    var k :| k in dotted &&
      ((ok(Split(k, '.')[0]) && Split(k, '.')[1..] in settled)
       || exists j <- dotted ::
            j != k && Split(j, '.') <= Split(k, '.') && Split(k, '.')[|Split(j, '.')|..] in settled);
    var word := Split(k, '.');
    if j :| j in dotted && j != k && Split(j, '.') <= word && word[|Split(j, '.')|..] in settled {
      TailOfKey(dotted, k, |Split(j, '.')|);
      SettledExactly(ok, dotted, word[|Split(j, '.')|..]);
      OverlapClashes(ok, j, k);
    } else {
      assert Free(word[0], '.') by { assert word[0] in word; }
      SplitFree(word[0], '.');
      TailOfKey(dotted, k, 1);
      SettledExactly(ok, dotted, word[1..]);
      OverlapClashes(ok, word[0], k);
    }
  }

  /** For a vocabulary with finitely many dotted keys, whether a leaf can ever be lost is decided by settling tails. */
  lemma {:induction false} VocabularyDecided(ok: string -> bool, dotted: set<string>)
    requires DottedKeys(ok, dotted) && !ok("")
    ensures NeverLosesLeaf(ok) <==> Compatible(ok, dotted)
  {
    LosesNoLeafExactly(ok);
    AmbiguousExactly(ok);
    if !Compatible(ok, dotted) { OverlapsClash(ok, dotted); }
    if a, b :| PiecesClash(ok, a, b) {
      if |Split(a[0], '.')| <= |Split(b[0], '.')| {
        ClashOverlaps(ok, dotted, a, b);
      } else {
        assert PiecesClash(ok, b, a);
        ClashOverlaps(ok, dotted, b, a);
      }
    }
  }

  // ---------- two kinds of vocabulary ----------

  function Among(keys: set<string>): string -> bool {
    k => k in keys
  }

  function CleanOrAmong(keys: set<string>): string -> bool {
    k => CleanKey(k) || k in keys
  }

  function Dotted(keys: set<string>): set<string> {
    set k | k in keys && !Free(k, '.')
  }

  /** These keys and no others can be used together. */
  predicate UsableAlone(keys: set<string>) {
    if "" in keys then keys == {""} else Compatible(Among(keys), Dotted(keys))
  }

  /** These keys can be used together and beside any clean ones. */
  predicate UsableBesideClean(keys: set<string>) {
    "" !in keys && Compatible(CleanOrAmong(keys), Dotted(keys))
  }

  /** A finite set of keys can be used without a leaf ever being lost iff it passes the test. */
  lemma {:induction false} UsableAloneExactly(keys: set<string>)
    ensures NeverLosesLeaf(Among(keys)) <==> UsableAlone(keys)
  {
    if "" in keys {
      LosesNoLeafExactly(Among(keys));
      AmbiguousExactly(Among(keys));
      if k :| k != "" && k in keys { assert Among(keys)(k); }
    } else {
      VocabularyDecided(Among(keys), Dotted(keys));
    }
  }

  /** A finite set of keys can be used beside clean ones without a leaf ever being lost iff it passes the test. */
  lemma {:induction false} UsableBesideCleanExactly(keys: set<string>)
    ensures NeverLosesLeaf(CleanOrAmong(keys)) <==> UsableBesideClean(keys)
  {
    if "" in keys {
      LosesNoLeafExactly(CleanOrAmong(keys));
      AmbiguousExactly(CleanOrAmong(keys));
      assert CleanOrAmong(keys)("x");
    } else {
      VocabularyDecided(CleanOrAmong(keys), Dotted(keys));
    }
  }
}
