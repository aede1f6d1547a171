/**
 * The typed value lists of a parameter item (`param_set_item_values_bool`,
 * `_float`, `_integer`, `_string` and the dispatch `param_set_item_values`
 * of src/core/parser.rs), and the way such a list is written.
 */
module Values {
  import opened Parsing
  import opened Literals
  import Utf8

  /** The value of a parameter item: a nonempty list of one element type.
      Floats are kept as exact reals. */
  datatype Value = Bool(bools: seq<bool>) | Float(floats: seq<real>) | Int(ints: seq<int>) | String(strings: seq<Bytes>)

  /** The type tag in an item header that selects each kind of list. */
  function Tag(v: Value): Bytes
  {
    match v
    case Bool(_) => "bool"
    case Float(_) => "float"
    case Int(_) => "integer"
    case String(_) => "string"
  }

  predicate IsTag(typ: Bytes)
  {
    typ == "bool" || typ == "float" || typ == "integer" || typ == "string"
  }

  /** `param_set_item_values_bool`: `[ true false ... ]` or `true false ...` */
  function BoolValues(s: Bytes): (r: Parse<Value>)
    ensures r.Done? ==> r.value.Bool? && |r.value.bools| > 0
    ensures r.Done? ==> |r.rest| < |s|
  {
    ElementsConsume();
    ListsShrink(Boolean, s);
    match ListOf(Boolean, s)
    case Fail => Fail
    case Done(xs, rest) => Done(Bool(xs), rest)
  }

  /** `param_set_item_values_float` */
  function FloatValues(s: Bytes): (r: Parse<Value>)
    ensures r.Done? ==> r.value.Float? && |r.value.floats| > 0
    ensures r.Done? ==> |r.rest| < |s|
  {
    ElementsConsume();
    ListsShrink(Number, s);
    match ListOf(Number, s)
    case Fail => Fail
    case Done(xs, rest) => Done(Float(xs), rest)
  }

  /** `param_set_item_values_integer` */
  function IntegerValues(s: Bytes): (r: Parse<Value>)
    ensures r.Done? ==> r.value.Int? && |r.value.ints| > 0
    ensures r.Done? ==> forall i | 0 <= i < |r.value.ints| :: I64_MIN <= r.value.ints[i] <= I64_MAX
    ensures r.Done? ==> |r.rest| < |s|
  {
    ElementsConsume();
    ListsShrink(Integer, s);
    match ListOf(Integer, s)
    case Fail => Fail
    case Done(xs, rest) =>
      IntegersInRange(s);
      Done(Int(xs), rest)
  }

  /** `param_set_item_values_string`: a bracketed list of quoted strings,
      or else one bare quoted string. */
  function StringValues(s: Bytes): (r: Parse<Value>)
    ensures r.Done? ==> r.value.String? && |r.value.strings| > 0
    ensures r.Done? ==> forall i | 0 <= i < |r.value.strings| :: QUOTE !in r.value.strings[i] && Utf8.Valid(r.value.strings[i])
    ensures r.Done? ==> |r.rest| < |s|
  {
    ElementsConsume();
    ListsShrink(Ascii, s);
    match Alt(Bracketed(Ascii, s), Single(Ascii, s))
    case Fail => Fail
    case Done(xs, rest) =>
      StringsWellFormed(s);
      Done(String(xs), rest)
  }

  /** `param_set_item_values`: the type tag picks exactly one list
      recognizer; any other tag reaches the abort. */
  function ItemValues(s: Bytes, typ: Bytes): (r: Outcome<Value>)
    ensures r.Unhandled? <==> !IsTag(typ)
    ensures r.Unhandled? ==> r.typ == typ
    ensures r.Parsed? ==> Tag(r.value) == typ && |r.rest| < |s|
  {
    if typ == "bool" then Lift(BoolValues(s))
    else if typ == "float" then Lift(FloatValues(s))
    else if typ == "integer" then Lift(IntegerValues(s))
    else if typ == "string" then Lift(StringValues(s))
    else Unhandled(typ)
  }

  /** Whitespace in front of a value list is skipped, whatever the tag. */
  lemma ItemValuesSkipWs(w: Bytes, x: Bytes, typ: Bytes)
    requires AllWs(w)
    ensures ItemValues(w + x, typ) == ItemValues(x, typ)
  {
    ListsSkipWs(Boolean, w, x);
    ListsSkipWs(Number, w, x);
    ListsSkipWs(Integer, w, x);
    ListsSkipWs(Ascii, w, x);
  }

  /* ------------------------------------------------ element contents */

  lemma {:induction false} MoreElements<T>(p: Bytes -> Parse<T>, s: Bytes, good: T -> bool)
    requires forall t :: p(t).Done? ==> good(p(t).value)
    ensures forall i | 0 <= i < |More(p, s).0| :: good(More(p, s).0[i])
    decreases |s|
  {
    match p(SkipWs(s))
    case Fail =>
    case Done(x, rest) =>
      if |rest| < |s| {
        MoreElements(p, rest, good);
      }
  }

  /** Every element of a list is a value the element recognizer produced. */
  lemma ListElements<T>(p: Bytes -> Parse<T>, s: Bytes, good: T -> bool)
    requires forall t :: p(t).Done? ==> good(p(t).value)
    ensures Many1(p, s).Done? ==> forall i | 0 <= i < |Many1(p, s).value| :: good(Many1(p, s).value[i])
    ensures ListOf(p, s).Done? ==> forall i | 0 <= i < |ListOf(p, s).value| :: good(ListOf(p, s).value[i])
    ensures Alt(Bracketed(p, s), Single(p, s)).Done? ==>
      forall i | 0 <= i < |Alt(Bracketed(p, s), Single(p, s)).value| :: good(Alt(Bracketed(p, s), Single(p, s)).value[i])
  {
    Many1Elements(p, s, good);
    var t := SkipWs(s);
    if [OPEN] <= t {
      Many1Elements(p, t[1..], good);
    }
  }

  lemma Many1Elements<T>(p: Bytes -> Parse<T>, s: Bytes, good: T -> bool)
    requires forall t :: p(t).Done? ==> good(p(t).value)
    ensures Many1(p, s).Done? ==> forall i | 0 <= i < |Many1(p, s).value| :: good(Many1(p, s).value[i])
  {
    match p(SkipWs(s))
    case Fail =>
    case Done(x, rest) =>
      MoreElements(p, rest, good);
  }

  predicate InRange(v: int) { I64_MIN <= v <= I64_MAX }

  predicate IsContent(c: Bytes) { QUOTE !in c && Utf8.Valid(c) }

  lemma IntegersInRange(s: Bytes)
    ensures ListOf(Integer, s).Done? ==> forall i | 0 <= i < |ListOf(Integer, s).value| :: InRange(ListOf(Integer, s).value[i])
  {
    ListElements(Integer, s, InRange);
  }

  lemma StringsWellFormed(s: Bytes)
    ensures Alt(Bracketed(Ascii, s), Single(Ascii, s)).Done? ==>
      forall i | 0 <= i < |Alt(Bracketed(Ascii, s), Single(Ascii, s)).value| :: IsContent(Alt(Bracketed(Ascii, s), Single(Ascii, s)).value[i])
  {
    ListElements(Ascii, s, IsContent);
  }

  /* ------------------------------------------------- written lists */

  /** A value list as it can be written in a scene file. Floats are kept as
      lexemes, so that the text is fixed by the description. */
  datatype Written = Bools(bs: seq<bool>) | Floats(ns: seq<Lexeme>) | Ints(vs: seq<int>) | Strings(cs: seq<Bytes>)

  /** Inside brackets, or bare. */
  datatype Layout = Brackets | Bare

  function WrittenTag(w: Written): Bytes
  {
    match w
    case Bools(_) => "bool"
    case Floats(_) => "float"
    case Ints(_) => "integer"
    case Strings(_) => "string"
  }

  function Count(w: Written): nat
  {
    match w
    case Bools(bs) => |bs|
    case Floats(ns) => |ns|
    case Ints(vs) => |vs|
    case Strings(cs) => |cs|
  }

  /** Elements each of which reads back as itself. */
  predicate Readable(w: Written)
  {
    match w
    case Bools(_) => true
    case Floats(ns) => forall i | 0 <= i < |ns| :: WellFormed(ns[i])
    case Ints(vs) => forall i | 0 <= i < |vs| :: InRange(vs[i])
    case Strings(cs) => forall i | 0 <= i < |cs| :: IsContent(cs[i])
  }

  /** What the source accepts: at least one element, and one string only
      when it is not bracketed. */
  predicate Writable(w: Written, layout: Layout)
  {
    Count(w) > 0 && Readable(w) && (w.Strings? && layout == Bare ==> Count(w) == 1)
  }

  function Quoted(c: Bytes): Bytes { [QUOTE] + c + [QUOTE] }

  /** The text of each element. */
  function Texts(w: Written): (r: seq<Bytes>)
    ensures |r| == Count(w)
  {
    match w
    case Bools(bs) => seq(|bs|, i requires 0 <= i < |bs| => BoolText(bs[i]))
    case Floats(ns) => seq(|ns|, i requires 0 <= i < |ns| => Render(ns[i]))
    case Ints(vs) => seq(|vs|, i requires 0 <= i < |vs| => IntegerText(vs[i]))
    case Strings(cs) => seq(|cs|, i requires 0 <= i < |cs| => Quoted(cs[i]))
  }

  function Text(w: Written, layout: Layout): Bytes
  {
    ListText(Texts(w), layout)
  }

  /** The value the written list denotes. */
  function Meaning(w: Written): (v: Value)
    requires Readable(w)
    ensures Tag(v) == WrittenTag(w)
  {
    match w
    case Bools(bs) => Bool(bs)
    case Floats(ns) => Float(seq(|ns|, i requires 0 <= i < |ns| => Exact(ns[i])))
    case Ints(vs) => Int(vs)
    case Strings(cs) => String(cs)
  }

  /** What may follow a value list in a parameter set: a delimiter, then
      nothing, the next item or the next directive keyword. */
  predicate Follows(rest: Bytes)
  {
    Delimits(rest) && var t := SkipWs(rest); |t| == 0 || t[0] == QUOTE || IsUpper(t[0])
  }

  /** No bool, number or integer starts where a list may end. */
  lemma FollowsStops(rest: Bytes)
    requires Follows(rest)
    ensures Boolean(SkipWs(rest)).Fail? && Number(SkipWs(rest)).Fail? && Integer(SkipWs(rest)).Fail?
  {
    NotScalar(SkipWs(rest));
  }

  /** A list written with elements that each read back as x is read back by
      the bracket-or-bare recognizer. */
  lemma ListRoundTrip<T>(p: Bytes -> Parse<T>, texts: seq<Bytes>, xs: seq<T>, layout: Layout, rest: Bytes)
    requires NoBracket(p) && |texts| == |xs| > 0
    requires forall i | 0 <= i < |texts| :: |texts[i]| > 0 && ParsesAs(p, texts[i], xs[i])
    requires Delimits(rest) && p(SkipWs(rest)).Fail?
    ensures ListOf(p, ListText(texts, layout) + rest) == Done(xs, SkipWs(rest))
  {
    SpacedParses(p, texts, xs);
    var pieces := Spaced(texts);
    if layout == Brackets {
      ListOfBracketed(p, pieces, xs, [], rest);
      BracketText(Concat(pieces), rest);
    } else {
      RunConcat(p, pieces, xs, rest);
    }
  }

  /** Element texts separated by single spaces, in brackets or bare. */
  function ListText(texts: seq<Bytes>, layout: Layout): Bytes
  {
    var body := Concat(Spaced(texts));
    if layout == Brackets then [OPEN] + body + [CLOSE] else body
  }

  lemma BracketText(body: Bytes, rest: Bytes)
    ensures [OPEN] + body + [] + [CLOSE] + rest == [OPEN] + body + [CLOSE] + rest
  {
  }

  lemma BoolsRoundTrip(bs: seq<bool>, layout: Layout, rest: Bytes)
    requires |bs| > 0 && Follows(rest)
    ensures BoolValues(Text(Bools(bs), layout) + rest) == Done(Bool(bs), SkipWs(rest))
  {
    var texts := Texts(Bools(bs));
    forall i | 0 <= i < |bs|
      ensures |texts[i]| > 0 && ParsesAs(Boolean, texts[i], bs[i])
    {
      BooleanPiece(bs[i]);
    }
    ElementsRejectBrackets();
    FollowsStops(rest);
    ListRoundTrip(Boolean, texts, bs, layout, rest);
  }

  lemma FloatsRoundTrip(ns: seq<Lexeme>, layout: Layout, rest: Bytes)
    requires |ns| > 0 && Readable(Floats(ns)) && Follows(rest)
    ensures FloatValues(Text(Floats(ns), layout) + rest) == Done(Meaning(Floats(ns)), SkipWs(rest))
  {
    var texts := Texts(Floats(ns));
    var xs := Meaning(Floats(ns)).floats;
    forall i | 0 <= i < |ns|
      ensures |texts[i]| > 0 && ParsesAs(Number, texts[i], xs[i])
    {
      NumberPiece(ns[i]);
      assert |texts[i]| > 0 by {
        MantissaUnsigned(ns[i].whole, ns[i].point, ns[i].fraction, []);
      }
    }
    ElementsRejectBrackets();
    FollowsStops(rest);
    ListRoundTrip(Number, texts, xs, layout, rest);
  }

  lemma IntsRoundTrip(vs: seq<int>, layout: Layout, rest: Bytes)
    requires |vs| > 0 && Readable(Ints(vs)) && Follows(rest)
    ensures IntegerValues(Text(Ints(vs), layout) + rest) == Done(Int(vs), SkipWs(rest))
  {
    var texts := Texts(Ints(vs));
    forall i | 0 <= i < |vs|
      ensures |texts[i]| > 0 && ParsesAs(Integer, texts[i], vs[i])
    {
      IntegerPiece(vs[i]);
    }
    ElementsRejectBrackets();
    FollowsStops(rest);
    ListRoundTrip(Integer, texts, vs, layout, rest);
  }

  lemma StringsRoundTrip(cs: seq<Bytes>, layout: Layout, rest: Bytes)
    requires Writable(Strings(cs), layout) && Follows(rest)
    ensures StringValues(Text(Strings(cs), layout) + rest) == Done(String(cs), SkipWs(rest))
  {
    if layout == Brackets {
      BracketedStrings(cs, rest);
    } else {
      assert cs == [cs[0]];
      SingleText(cs[0]);
      BareStringTakesOne(cs[0], rest);
    }
  }

  lemma SingleText(c: Bytes)
    ensures Text(Strings([c]), Bare) == Quoted(c)
  {
    assert Spaced(Texts(Strings([c]))) == [Quoted(c)];
    assert Concat([Quoted(c)]) == Quoted(c) + [];
  }

  lemma BracketedStrings(cs: seq<Bytes>, rest: Bytes)
    requires |cs| > 0 && Readable(Strings(cs))
    ensures StringValues(Text(Strings(cs), Brackets) + rest) == Done(String(cs), SkipWs(rest))
  {
    var texts := Texts(Strings(cs));
    StringPieces(cs);
    ElementsRejectBrackets();
    SpacedParses(Ascii, texts, cs);
    BracketedConcat(Ascii, Spaced(texts), cs, [], rest);
    BracketText(Concat(Spaced(texts)), rest);
  }

  lemma StringPieces(cs: seq<Bytes>)
    requires Readable(Strings(cs))
    ensures var texts := Texts(Strings(cs));
      forall i | 0 <= i < |cs| :: |texts[i]| > 0 && ParsesAs(Ascii, texts[i], cs[i])
  {
    var texts := Texts(Strings(cs));
    forall i | 0 <= i < |cs|
      ensures |texts[i]| > 0 && ParsesAs(Ascii, texts[i], cs[i])
    {
      AsciiPiece(cs[i]);
    }
  }

  /** Text that starts with a quote is no bracketed list. */
  lemma BracketedRejectsQuote(s: Bytes)
    requires |s| > 0 && s[0] == QUOTE
    ensures Bracketed(Ascii, s).Fail?
  {
    assert SkipWs(s) == s;
  }

  /** Every list that can be written is read back as the value it denotes,
      after the recognizer that its type tag selects. */
  lemma ValuesRoundTrip(w: Written, layout: Layout, rest: Bytes)
    requires Writable(w, layout) && Follows(rest)
    ensures ItemValues(Text(w, layout) + rest, WrittenTag(w)) == Parsed(Meaning(w), SkipWs(rest))
  {
    match w
    case Bools(bs) => BoolsRoundTrip(bs, layout, rest);
    case Floats(ns) => FloatsRoundTrip(ns, layout, rest);
    case Ints(vs) => IntsRoundTrip(vs, layout, rest);
    case Strings(cs) => StringsRoundTrip(cs, layout, rest);
  }

  /** A bool, float or integer list reads the same in brackets and bare. */
  lemma LayoutsAgree(w: Written, rest: Bytes)
    requires !w.Strings? && Writable(w, Bare) && Follows(rest)
    ensures ItemValues(Text(w, Brackets) + rest, WrittenTag(w)) == ItemValues(Text(w, Bare) + rest, WrittenTag(w))
    ensures ItemValues(Text(w, Bare) + rest, WrittenTag(w)).Parsed?
  {
    ValuesRoundTrip(w, Brackets, rest);
    ValuesRoundTrip(w, Bare, rest);
  }

  /** The bare string form takes one string and leaves the next. */
  lemma BareStringTakesOne(c: Bytes, rest: Bytes)
    requires IsContent(c) && Delimits(rest)
    ensures StringValues(Quoted(c) + rest) == Done(String([c]), SkipWs(rest))
  {
    AsciiPiece(c);
    SingleOf(Ascii, Quoted(c), c, rest);
    BracketedRejectsQuote(Quoted(c) + rest);
  }

  /** An empty pair of brackets is rejected for every type tag. */
  lemma EmptyListRejected(typ: Bytes, w1: Bytes, w2: Bytes, rest: Bytes)
    requires IsTag(typ) && AllWs(w1) && AllWs(w2)
    ensures ItemValues(w1 + [OPEN] + w2 + [CLOSE] + rest, typ) == Rejected
  {
    ElementsRejectBrackets();
    EmptyBracketFails(Boolean, w1, w2, rest);
    EmptyBracketFails(Number, w1, w2, rest);
    EmptyBracketFails(Integer, w1, w2, rest);
    EmptyBracketFails(Ascii, w1, w2, rest);
  }
}
