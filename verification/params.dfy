/**
 * Parameter items and parameter sets of src/core/parser.rs:
 * `param_set_item` reads a header `"type name"` and hands the rest to the
 * value list its type tag selects; `param_set` reads items until none
 * starts; `param_set_from_vec` gathers them into a parameter set.
 */
module Params {
  import opened Parsing
  import opened Literals
  import opened Values

  /** One parsed parameter: its name and its value list. */
  datatype ParamSetItem = ParamSetItem(name: Bytes, values: Value)

  /** A parameter set as the ordered list of the (name, value list) pairs
      added to it. */
  datatype ParamSet = ParamSet(entries: seq<(Bytes, Value)>)

  /** The header of an item: type tag, the blanks after it, and name. */
  datatype Header = Header(typ: Bytes, gap: Bytes, name: Bytes)

  predicate HeaderOk(h: Header)
  {
    |h.typ| > 0 && AllIn(Alnums, h.typ)
    && |h.gap| > 0 && AllIn(Blanks, h.gap)
    && |h.name| > 0 && AllIn(Alnums, h.name)
  }

  function HeaderText(h: Header): Bytes
  {
    [QUOTE] + h.typ + h.gap + h.name + [QUOTE]
  }

  /** `tag!("\"") >> alphanumeric >> space >> alphanumeric >> tag!("\"")` */
  function ScanHeader(s: Bytes): (r: Parse<Header>)
    ensures r.Done? ==> HeaderOk(r.value) && s == HeaderText(r.value) + r.rest
  {
    if |s| > 0 && s[0] == QUOTE then
      match Span(Alnums, s[1..])
      case Fail => Fail
      case Done(typ, u) =>
        match Span(Blanks, u)
        case Fail => Fail
        case Done(gap, v) =>
          match Span(Alnums, v)
          case Fail => Fail
          case Done(name, w) =>
            if |w| > 0 && w[0] == QUOTE then
              HeaderShape(s, typ, gap, name, w);
              Done(Header(typ, gap, name), w[1..])
            else Fail
    else Fail
  }

  lemma HeaderShape(s: Bytes, typ: Bytes, gap: Bytes, name: Bytes, w: Bytes)
    requires |s| > 0 && s[0] == QUOTE && s[1..] == typ + (gap + (name + w))
    requires |w| > 0 && w[0] == QUOTE
    ensures s == HeaderText(Header(typ, gap, name)) + w[1..]
  {
    assert w == [QUOTE] + w[1..];
    assert s == [QUOTE] + s[1..];
  }

  /** A well-formed header is read back whatever follows it. */
  lemma HeaderRoundTrip(h: Header, t: Bytes)
    requires HeaderOk(h)
    ensures ScanHeader(HeaderText(h) + t) == Done(h, t)
  {
    var s := HeaderText(h) + t;
    var w := [QUOTE] + t;
    var v := h.name + w;
    var u := h.gap + v;
    assert s[1..] == h.typ + u;
    assert u[0] == h.gap[0] && v[0] == h.name[0];
    SpanOf(Alnums, h.typ, u);
    SpanOf(Blanks, h.gap, v);
    SpanOf(Alnums, h.name, w);
    assert w[1..] == t;
  }

  /** `param_set_item`: a header, then the value list of its type tag.
      An unknown tag reaches the abort once the header has been read. */
  function Item(s: Bytes): (r: Outcome<ParamSetItem>)
    ensures r.Parsed? ==> |r.rest| < |s|
    ensures r.Parsed? ==> ScanHeader(s).Done? && r.value.name == ScanHeader(s).value.name
    ensures r.Parsed? ==> Tag(r.value.values) == ScanHeader(s).value.typ
    ensures r.Unhandled? <==> ScanHeader(s).Done? && !IsTag(ScanHeader(s).value.typ)
    ensures r.Unhandled? ==> r.typ == ScanHeader(s).value.typ
  {
    match ScanHeader(s)
    case Fail => Rejected
    case Done(h, u) =>
      match ItemValues(u, h.typ)
      case Parsed(v, rest) => Parsed(ParamSetItem(h.name, v), rest)
      case Rejected => Rejected
      case Unhandled(typ) => Unhandled(typ)
  }

  /** `param_set`, nom's `many0!` of items: the items up to the first place
      where none starts. It never fails; an unknown type tag ends the
      whole parse. */
  function Items(s: Bytes): (r: Outcome<seq<ParamSetItem>>)
    ensures !r.Rejected?
    ensures r.Parsed? ==> |r.rest| <= |s| && (|r.value| == 0 <==> r.rest == s)
    ensures r.Parsed? ==> |r.rest| == 0 || Item(r.rest).Rejected?
    decreases |s|
  {
    if |s| == 0 then Parsed([], s)
    else match Item(s)
      case Rejected => Parsed([], s)
      case Unhandled(typ) => Unhandled(typ)
      case Parsed(x, rest) =>
        var more := Items(rest);
        if more.Unhandled? then Unhandled(more.typ)
        else Parsed([x] + more.value, more.rest)
  }

  /** `ParamSet::add`: the pair goes after those already added. */
  function Add(ps: ParamSet, name: Bytes, values: Value): ParamSet
  {
    ParamSet(ps.entries + [(name, values)])
  }

  /** `param_set_from_vec`: add the items one by one, in order. */
  function FromVec(psis: seq<ParamSetItem>): (ps: ParamSet)
    ensures |ps.entries| == |psis|
    ensures forall i | 0 <= i < |psis| :: ps.entries[i] == (psis[i].name, psis[i].values)
  {
    if |psis| == 0 then ParamSet([])
    else
      var last := psis[|psis| - 1];
      Add(FromVec(psis[..|psis| - 1]), last.name, last.values)
  }

  /* ------------------------------------------------- written items */

  /** An item as it can be written: a name and a written value list. */
  datatype WrittenItem = WrittenItem(name: Bytes, values: Written, layout: Layout)

  predicate ItemWritable(it: WrittenItem)
  {
    |it.name| > 0 && AllIn(Alnums, it.name) && Writable(it.values, it.layout)
  }

  function ItemHeader(it: WrittenItem): Header
  {
    Header(WrittenTag(it.values), " ", it.name)
  }

  /** `"type name" values`, with single spaces. */
  function ItemText(it: WrittenItem): Bytes
  {
    HeaderText(ItemHeader(it)) + " " + Text(it.values, it.layout)
  }

  function ItemMeaning(it: WrittenItem): ParamSetItem
    requires Readable(it.values)
  {
    ParamSetItem(it.name, Meaning(it.values))
  }

  lemma TagHeader(it: WrittenItem)
    requires ItemWritable(it)
    ensures HeaderOk(ItemHeader(it))
  {
  }

  /** A written item is read back as what it denotes, when what follows it
      may follow a value list. */
  lemma ItemRoundTrip(it: WrittenItem, tail: Bytes)
    requires ItemWritable(it) && Follows(tail)
    ensures Item(ItemText(it) + tail) == Parsed(ItemMeaning(it), SkipWs(tail))
  {
    var h := ItemHeader(it);
    var x := Text(it.values, it.layout) + tail;
    TagHeader(it);
    assert ItemText(it) + tail == HeaderText(h) + (" " + x);
    HeaderRoundTrip(h, " " + x);
    assert AllWs(" ");
    ItemValuesSkipWs(" ", x, h.typ);
    ValuesRoundTrip(it.values, it.layout, tail);
  }

  /** A header with a type tag the source does not handle reaches the
      abort, and so does every parameter list that starts with it. */
  lemma UnknownTag(h: Header, rest: Bytes)
    requires HeaderOk(h) && !IsTag(h.typ)
    ensures Item(HeaderText(h) + rest) == Unhandled(h.typ)
    ensures Items(HeaderText(h) + rest) == Unhandled(h.typ)
  {
    HeaderRoundTrip(h, rest);
  }

  /** Items written one after another, each after a space. */
  function ItemsText(its: seq<WrittenItem>): Bytes
  {
    if |its| == 0 then [] else " " + ItemText(its[0]) + ItemsText(its[1..])
  }

  function Meanings(its: seq<WrittenItem>): (r: seq<ParamSetItem>)
    requires forall i | 0 <= i < |its| :: ItemWritable(its[i])
    ensures |r| == |its|
  {
    if |its| == 0 then []
    else
      assert ItemWritable(its[0]);
      [ItemMeaning(its[0])] + Meanings(its[1..])
  }

  /** What may follow the last item: a delimiter, then nothing or the next
      directive keyword. */
  predicate Ends(rest: Bytes)
  {
    Delimits(rest) && var t := SkipWs(rest); |t| == 0 || IsUpper(t[0])
  }

  /** Where no item starts, the parameter list is empty. */
  lemma ItemsEnd(rest: Bytes)
    requires Ends(rest)
    ensures Items(SkipWs(rest)) == Parsed([], SkipWs(rest))
  {
  }

  /** Written items are read back in order as what they denote. */
  lemma {:induction false} ItemsRoundTrip(its: seq<WrittenItem>, rest: Bytes)
    requires forall i | 0 <= i < |its| :: ItemWritable(its[i])
    requires Ends(rest)
    ensures Items(SkipWs(ItemsText(its) + rest)) == Parsed(Meanings(its), SkipWs(rest))
    decreases |its|
  {
    if |its| == 0 {
      assert ItemsText(its) + rest == rest;
      ItemsEnd(rest);
    } else {
      var tail := ItemsText(its[1..]) + rest;
      ItemsStep(its, rest);
      ItemsFollow(its[1..], rest);
      ItemRoundTrip(its[0], tail);
      ItemsRoundTrip(its[1..], rest);
      ItemsCons(ItemText(its[0]) + tail, ItemMeaning(its[0]), SkipWs(tail), Meanings(its[1..]), SkipWs(rest));
    }
  }

  lemma ItemsCons(s: Bytes, x: ParamSetItem, u: Bytes, xs: seq<ParamSetItem>, v: Bytes)
    requires |s| > 0 && Item(s) == Parsed(x, u) && Items(u) == Parsed(xs, v)
    ensures Items(s) == Parsed([x] + xs, v)
  {
  }

  lemma ItemsStep(its: seq<WrittenItem>, rest: Bytes)
    requires |its| > 0
    ensures SkipWs(ItemsText(its) + rest) == ItemText(its[0]) + (ItemsText(its[1..]) + rest)
  {
    var a := ItemText(its[0]);
    var b := ItemsText(its[1..]);
    assert a[0] == QUOTE;
    AppendAssoc(" " + a, b, rest);
    SkipOneSpace(a, b + rest);
  }

  /** What follows an item inside a written list may follow a value list. */
  lemma ItemsFollow(its: seq<WrittenItem>, rest: Bytes)
    requires Ends(rest)
    ensures Follows(ItemsText(its) + rest)
  {
    if |its| > 0 {
      ItemsStep(its, rest);
      assert (ItemsText(its) + rest)[0] == ' ';
    } else {
      assert ItemsText(its) + rest == rest;
    }
  }
}
