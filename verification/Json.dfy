/** `serde_json::Value` and its compact text, the key under which values are counted (`value_to_key`).
    Main result: `TextInjective`, two values with the same text are the same value. */
module Json {
  import opened Strings

  /** A finite float, identified with the text serde_json prints for it. */
  type FloatText = s: string | IsFloatText(s) witness "0.0"

  predicate IsFloatText(s: string) {
    s != "" && (forall c <- s :: c in NUMBER_CHARS) && ('.' in s || 'e' in s)
  }

  const NUMBER_CHARS := "0123456789-+.e"

  datatype Number = Integer(n: int) | Float(text: FloatText)

  datatype Value =
    | Null
    | Bool(b: bool)
    | Num(num: Number)
    | Str(s: string)
    | Arr(elems: seq<Value>)
    | Obj(fields: map<string, Value>)

  // ---------- compact text ----------

  const HEX := "0123456789abcdef"

  function EscapeChar(c: char): (s: string)
    ensures s != "" && s[0] != '\"'
  {
    if c == '\"' then "\\\""
    else if c == '\\' then "\\\\"
    else if c == 8 as char then "\\b"
    else if c == '\t' then "\\t"
    else if c == '\n' then "\\n"
    else if c == 12 as char then "\\f"
    else if c == '\r' then "\\r"
    else if c < ' ' then "\\u00" + [HEX[(c as int) / 16], HEX[(c as int) % 16]]
    else [c]
  }

  function NumberText(x: Number): (s: string)
    ensures s != "" && forall c <- s :: c in NUMBER_CHARS
  {
    match x
    case Integer(n) => OfInt(n)
    case Float(text) => text
  }

  // Each `...Then` is what a writer that emits its argument and then `rest` produces.

  function CharThen(c: char, rest: string): string {
    [c] + rest
  }

  function StringThen(s: string, rest: string): string {
    if s == "" then CharThen('\"', rest) else EscapeChar(s[0]) + StringThen(s[1..], rest)
  }

  function TextThen(v: Value, rest: string): string
    decreases v, 1, 0
  {
    match v
    case Null => "null" + rest
    case Bool(b) => (if b then "true" else "false") + rest
    case Num(x) => NumberText(x) + rest
    case Str(s) => CharThen('\"', StringThen(s, rest))
    case Arr(a) => CharThen('[', ElementsThen(a, true, rest))
    case Obj(m) => CharThen('{', MembersThen(v, Sorted(m.Keys), true, rest))
  }

  function Comma(first: bool, rest: string): string {
    if first then rest else CharThen(',', rest)
  }

  function ElementsThen(a: seq<Value>, first: bool, rest: string): string
    decreases a, 0, 0
  {
    if a == [] then CharThen(']', rest) else Comma(first, TextThen(a[0], ElementsThen(a[1..], false, rest)))
  }

  function MembersThen(v: Value, keys: seq<string>, first: bool, rest: string): string
    requires v.Obj? && forall k <- keys :: k in v.fields
    decreases v, 0, 1 + |keys|
  {
    if keys == [] then CharThen('}', rest)
    else Comma(first, MemberThen(v, keys[0], MembersThen(v, keys[1..], false, rest)))
  }

  function MemberThen(v: Value, key: string, rest: string): string
    requires v.Obj? && key in v.fields
    decreases v, 0, 0
  {
    CharThen('\"', StringThen(key, CharThen(':', TextThen(v.fields[key], rest))))
  }

  /** `serde_json::to_string`. */
  function Text(v: Value): string {
    TextThen(v, "")
  }

  // ---------- texts can be read back ----------

  /** What may follow a value inside a text: nothing, or a structural character that no number contains. */
  predicate Delimited(rest: string) {
    rest == "" || rest[0] in ",]}"
  }

  lemma CharCancel(c: char, d: char, s: string, t: string)
    requires CharThen(c, s) == CharThen(d, t)
    ensures c == d && s == t
  {
    assert s == CharThen(c, s)[1..] && t == CharThen(d, t)[1..];
  }

  lemma PrefixCancel(a: string, b: string, s: string, t: string)
    requires |a| == |b| && a + s == b + t
    ensures a == b && s == t
  {
    assert a == (a + s)[..|a|] && b == (b + t)[..|a|];
    assert s == (a + s)[|a|..] && t == (b + t)[|a|..];
  }

  lemma HexDistinct(i: nat, j: nat)
    requires i < 16 && j < 16 && HEX[i] == HEX[j]
    ensures i == j
  {}

  predicate ByCode(c: char) {
    c < ' ' && c !in {8 as char, '\t', '\n', 12 as char, '\r'}
  }

  lemma EscapedByCode(c: char)
    requires ByCode(c)
    ensures var x := EscapeChar(c);
      |x| == 6 && x[1] == 'u' && x[4] == HEX[(c as int) / 16] && x[5] == HEX[(c as int) % 16]
  {}

  lemma CodesDistinct(c: char, d: char)
    requires ByCode(c) && ByCode(d) && EscapeChar(c) == EscapeChar(d)
    ensures c == d
  {
    EscapedByCode(c);
    EscapedByCode(d);
    HexDistinct((c as int) / 16, (d as int) / 16);
    HexDistinct((c as int) % 16, (d as int) % 16);
  }

  /** The second character of an escape tells the short ones apart. */
  lemma EscapeCharPrefixFree(c: char, d: char)
    requires EscapeChar(c) <= EscapeChar(d)
    ensures c == d
  {
    var x, y := EscapeChar(c), EscapeChar(d);
    assert x[0] == y[0] && (|x| > 1 ==> x[1] == y[1]);
    if ByCode(c) && ByCode(d) { CodesDistinct(c, d); }
  }

  lemma EscapeCharCancel(c: char, d: char, s: string, t: string)
    requires EscapeChar(c) + s == EscapeChar(d) + t
    ensures c == d && s == t
  {
    var x, y := EscapeChar(c), EscapeChar(d);
    if |x| <= |y| {
      assert x == (x + s)[..|x|] == (y + t)[..|x|] <= y;
      EscapeCharPrefixFree(c, d);
    } else {
      assert y == (y + t)[..|y|] == (x + s)[..|y|] <= x;
      EscapeCharPrefixFree(d, c);
    }
    PrefixCancel(x, y, s, t);
  }

  lemma {:induction false} StringCancel(a: string, b: string, s: string, t: string)
    requires StringThen(a, s) == StringThen(b, t)
    ensures a == b && s == t
  {
    if a == "" || b == "" {
      assert a == "" ==> StringThen(a, s)[0] == '\"';
      assert b == "" ==> StringThen(b, t)[0] == '\"';
      assert a == b == "";
      CharCancel('\"', '\"', s, t);
    } else {
      EscapeCharCancel(a[0], b[0], StringThen(a[1..], s), StringThen(b[1..], t));
      StringCancel(a[1..], b[1..], s, t);
      assert a == [a[0]] + a[1..] && b == [b[0]] + b[1..];
    }
  }

  lemma NumberTextInjective(x: Number, y: Number)
    requires NumberText(x) == NumberText(y)
    ensures x == y
  {
    forall n: int ensures '.' !in OfInt(n) && 'e' !in OfInt(n) {
      assert forall c <- OfInt(n) :: c == '-' || c in DIGITS;
    }
    if x.Integer? && y.Integer? {
      OfIntInjective(x.n, y.n);
    }
  }

  /** Of two number runs at the start of one text, the shorter is followed by more of the number. */
  lemma NumberContinues(a: string, b: string, s: string, t: string)
    requires a + s == b + t && |b| < |a| && forall c <- a :: c in NUMBER_CHARS
    ensures t != "" && t[0] in NUMBER_CHARS
  {
    assert a[|b|] == (a + s)[|b|] == (b + t)[|b|];
  }

  lemma NumberCancel(x: Number, y: Number, s: string, t: string)
    requires NumberText(x) + s == NumberText(y) + t && Delimited(s) && Delimited(t)
    ensures x == y && s == t
  {
    var a, b := NumberText(x), NumberText(y);
    if |b| < |a| { NumberContinues(a, b, s, t); }
    if |a| < |b| { NumberContinues(b, a, t, s); }
    PrefixCancel(a, b, s, t);
    NumberTextInjective(x, y);
  }

  /** The characters that can open the text of a value of the same kind as `v`. */
  function Lead(v: Value): string {
    match v
    case Null => "n"
    case Bool(b) => if b then "t" else "f"
    case Num(_) => NUMBER_CHARS
    case Str(_) => "\""
    case Arr(_) => "["
    case Obj(_) => "{"
  }

  lemma TextLead(v: Value, rest: string)
    ensures TextThen(v, rest) != "" && TextThen(v, rest)[0] in Lead(v)
  {
    match v {
      case Num(x) => assert NumberText(x)[0] in NumberText(x);
      case _ =>
    }
  }

  lemma SameKind(v: Value, w: Value, s: string, t: string)
    requires TextThen(v, s) == TextThen(w, t)
    ensures v.Null? == w.Null? && v.Bool? == w.Bool? && v.Num? == w.Num?
    ensures v.Str? == w.Str? && v.Arr? == w.Arr? && v.Obj? == w.Obj?
    ensures v.Bool? ==> v == w
  {
    TextLead(v, s);
    TextLead(w, t);
  }

  /** Inside a document the text of a value can be told apart from whatever follows it. */
  lemma {:induction false} TextCancel(v: Value, w: Value, s: string, t: string)
    requires TextThen(v, s) == TextThen(w, t) && Delimited(s) && Delimited(t)
    ensures v == w && s == t
    decreases v, 1, 0
  {
    SameKind(v, w, s, t);
    match v {
      case Null => PrefixCancel("null", "null", s, t);
      case Bool(b) =>
        if b { PrefixCancel("true", "true", s, t); } else { PrefixCancel("false", "false", s, t); }
      case Num(x) =>
        NumberCancel(x, w.num, s, t);
      case Str(x) =>
        CharCancel('\"', '\"', StringThen(x, s), StringThen(w.s, t));
        StringCancel(x, w.s, s, t);
      case Arr(a) =>
        CharCancel('[', '[', ElementsThen(a, true, s), ElementsThen(w.elems, true, t));
        ElementsCancel(a, w.elems, true, s, t);
      case Obj(m) =>
        var ks, ls := Sorted(m.Keys), Sorted(w.fields.Keys);
        CharCancel('{', '{', MembersThen(v, ks, true, s), MembersThen(w, ls, true, t));
        MembersCancel(v, w, ks, ls, true, s, t);
        SameMembers(v, w);
    }
  }

  lemma {:induction false} ElementsCancel(a: seq<Value>, b: seq<Value>, first: bool, s: string, t: string)
    requires ElementsThen(a, first, s) == ElementsThen(b, first, t)
    ensures a == b && s == t
    decreases a, 0, 0
  {
    ElementsLead(a, first, s);
    ElementsLead(b, first, t);
    if a == [] || b == [] {
      CharCancel(']', ']', s, t);
    } else {
      var x, y := TextThen(a[0], ElementsThen(a[1..], false, s)), TextThen(b[0], ElementsThen(b[1..], false, t));
      CommaCancel(first, x, y);
      TextCancel(a[0], b[0], ElementsThen(a[1..], false, s), ElementsThen(b[1..], false, t));
      ElementsCancel(a[1..], b[1..], false, s, t);
      assert a == [a[0]] + a[1..] && b == [b[0]] + b[1..];
    }
  }

  lemma ElementsLead(a: seq<Value>, first: bool, rest: string)
    ensures ElementsThen(a, first, rest) != "" && (ElementsThen(a, first, rest)[0] == ']' <==> a == [])
  {
    if a != [] {
      TextLead(a[0], ElementsThen(a[1..], false, rest));
    }
  }

  lemma MembersLead(v: Value, keys: seq<string>, first: bool, rest: string)
    requires v.Obj? && forall k <- keys :: k in v.fields
    ensures MembersThen(v, keys, first, rest) != "" && (MembersThen(v, keys, first, rest)[0] == '}' <==> keys == [])
  {}

  lemma CommaCancel(first: bool, s: string, t: string)
    requires Comma(first, s) == Comma(first, t)
    ensures s == t
  {
    if !first { CharCancel(',', ',', s, t); }
  }

  lemma {:induction false} MembersCancel(v: Value, w: Value, ks: seq<string>, ls: seq<string>, first: bool, s: string,
                                         t: string)
    requires v.Obj? && w.Obj? && (forall k <- ks :: k in v.fields) && (forall l <- ls :: l in w.fields)
    requires MembersThen(v, ks, first, s) == MembersThen(w, ls, first, t)
    ensures ks == ls && s == t && forall k <- ks :: v.fields[k] == w.fields[k]
    decreases v, 0, 1 + |ks|
  {
    MembersLead(v, ks, first, s);
    MembersLead(w, ls, first, t);
    if ks == [] || ls == [] {
      CharCancel('}', '}', s, t);
    } else {
      var s', t' := MembersThen(v, ks[1..], false, s), MembersThen(w, ls[1..], false, t);
      CommaCancel(first, MemberThen(v, ks[0], s'), MemberThen(w, ls[0], t'));
      MemberCancel(v, w, ks[0], ls[0], s', t');
      MembersCancel(v, w, ks[1..], ls[1..], false, s, t);
      assert ks == [ks[0]] + ks[1..] && ls == [ls[0]] + ls[1..];
    }
  }

  lemma {:induction false} MemberCancel(v: Value, w: Value, k: string, l: string, s: string, t: string)
    requires v.Obj? && w.Obj? && k in v.fields && l in w.fields
    requires MemberThen(v, k, s) == MemberThen(w, l, t) && Delimited(s) && Delimited(t)
    ensures k == l && v.fields[k] == w.fields[l] && s == t
    decreases v, 0, 0
  {
    var x, y := CharThen(':', TextThen(v.fields[k], s)), CharThen(':', TextThen(w.fields[l], t));
    CharCancel('\"', '\"', StringThen(k, x), StringThen(l, y));
    StringCancel(k, l, x, y);
    CharCancel(':', ':', TextThen(v.fields[k], s), TextThen(w.fields[l], t));
    TextCancel(v.fields[k], w.fields[l], s, t);
  }

  lemma SameMembers(v: Value, w: Value)
    requires v.Obj? && w.Obj? && Sorted(v.fields.Keys) == Sorted(w.fields.Keys)
    requires forall k <- Sorted(v.fields.Keys) :: v.fields[k] == w.fields[k]
    ensures v == w
  {
    forall k ensures k in v.fields <==> k in w.fields {
      assert k in Sorted(v.fields.Keys) <==> k in v.fields.Keys;
      assert k in Sorted(w.fields.Keys) <==> k in w.fields.Keys;
    }
    assert v.fields == w.fields;
  }

  /** Serialised keys stand for values: equal compact text, equal value. */
  lemma TextInjective(v: Value, w: Value)
    requires Text(v) == Text(w)
    ensures v == w
  {
    TextCancel(v, w, "", "");
  }
}
