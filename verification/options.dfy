/**
 * The option directives of src/core/parser.rs that come before the world
 * block: `look_at` and the four named directives `camera`, `sampler`,
 * `integrator` and `film`. The world block itself has no grammar (its
 * type has no variants), so nothing after the options is modelled.
 */
module Options {
  import opened Parsing
  import opened Literals
  import opened Values
  import opened Params

  /** `OptionsBlock`: the eye, look-at point and up vector of `LookAt`, or
      the implementation name and parameters of a named directive. */
  datatype OptionsBlock =
    | LookAt(ex: real, ey: real, ez: real, lx: real, ly: real, lz: real, ux: real, uy: real, uz: real)
    | Camera(name: Bytes, params: ParamSet)
    | Sampler(name: Bytes, params: ParamSet)
    | Integrator(name: Bytes, params: ParamSet)
    | Film(name: Bytes, params: ParamSet)

  /** The four directives that take a quoted name and a parameter list. */
  datatype Kind = CameraKind | SamplerKind | IntegratorKind | FilmKind

  function Keyword(k: Kind): (r: Bytes)
    ensures |r| > 0 && IsUpper(r[0])
  {
    match k
    case CameraKind => "Camera"
    case SamplerKind => "Sampler"
    case IntegratorKind => "Integrator"
    case FilmKind => "Film"
  }

  /** The block each directive builds. */
  function Build(k: Kind, name: Bytes, ps: ParamSet): OptionsBlock
  {
    match k
    case CameraKind => Camera(name, ps)
    case SamplerKind => Sampler(name, ps)
    case IntegratorKind => Integrator(name, ps)
    case FilmKind => Film(name, ps)
  }

  /** The directive a block comes from. */
  function KindOf(b: OptionsBlock): Kind
    requires !b.LookAt?
  {
    match b
    case Camera(_, _) => CameraKind
    case Sampler(_, _) => SamplerKind
    case Integrator(_, _) => IntegratorKind
    case Film(_, _) => FilmKind
  }

  /* --------------------------------------------------------- LookAt */

  /** k numbers, each after optional whitespace. */
  function Numbers(k: nat, s: Bytes): (r: Parse<seq<real>>)
    ensures r.Done? ==> |r.value| == k && |r.rest| <= |s|
  {
    if k == 0 then Done([], s)
    else match Number(SkipWs(s))
      case Fail => Fail
      case Done(x, u) =>
        match Numbers(k - 1, u)
        case Fail => Fail
        case Done(xs, v) => Done([x] + xs, v)
  }

  /** `look_at`: the keyword and nine numbers, in the order eye, look-at
      point, up vector. */
  function LookAtBlock(s: Bytes): (r: Parse<OptionsBlock>)
    ensures r.Done? ==> r.value.LookAt? && |r.rest| < |s|
  {
    var t := SkipWs(s);
    if "LookAt" <= t then
      match Numbers(9, t[6..])
      case Fail => Fail
      case Done(v, u) => Done(LookAt(v[0], v[1], v[2], v[3], v[4], v[5], v[6], v[7], v[8]), SkipWs(u))
    else Fail
  }

  /** Numbers written one after another, each after a space. */
  function NumbersText(ns: seq<Lexeme>): Bytes
  {
    if |ns| == 0 then [] else " " + Render(ns[0]) + NumbersText(ns[1..])
  }

  function Exacts(ns: seq<Lexeme>): (r: seq<real>)
    requires forall i | 0 <= i < |ns| :: WellFormed(ns[i])
    ensures |r| == |ns|
  {
    if |ns| == 0 then [] else [Exact(ns[0])] + Exacts(ns[1..])
  }

  /** Written numbers are read back as their exact values. */
  lemma {:induction false} NumbersRoundTrip(ns: seq<Lexeme>, rest: Bytes)
    requires forall i | 0 <= i < |ns| :: WellFormed(ns[i])
    requires Delimits(rest)
    ensures Numbers(|ns|, NumbersText(ns) + rest) == Done(Exacts(ns), rest)
    decreases |ns|
  {
    if |ns| == 0 {
      assert NumbersText(ns) + rest == rest;
    } else {
      var more := ns[1..];
      var tail := NumbersText(more) + rest;
      ExactsStep(ns);
      NumbersRoundTrip(more, rest);
      NumbersLead(more, rest);
      NumbersFirst(ns[0], tail, |more|, Exacts(more), rest);
      NumbersStep(ns, rest);
    }
  }

  lemma NumbersFirst(n: Lexeme, tail: Bytes, k: nat, xs: seq<real>, v: Bytes)
    requires WellFormed(n) && Delimits(tail) && Numbers(k, tail) == Done(xs, v)
    ensures Numbers(k + 1, " " + Render(n) + tail) == Done([Exact(n)] + xs, v)
  {
    SpacedNumber(n, tail);
  }

  lemma SpacedNumber(n: Lexeme, tail: Bytes)
    requires WellFormed(n) && Delimits(tail)
    ensures Number(SkipWs(" " + Render(n) + tail)) == Done(Exact(n), tail)
  {
    NumberPiece(n);
    ParsesAsSpaced(Number, Render(n), Exact(n));
  }

  lemma NumbersStep(ns: seq<Lexeme>, rest: Bytes)
    requires |ns| > 0
    ensures NumbersText(ns) + rest == " " + Render(ns[0]) + (NumbersText(ns[1..]) + rest)
  {
  }

  lemma ExactsStep(ns: seq<Lexeme>)
    requires |ns| > 0 && forall i | 0 <= i < |ns| :: WellFormed(ns[i])
    ensures WellFormed(ns[0]) && forall i | 0 <= i < |ns[1..]| :: WellFormed(ns[1..][i])
    ensures Exacts(ns) == [Exact(ns[0])] + Exacts(ns[1..]) && |ns[1..]| == |ns| - 1
  {
  }

  lemma NumbersLead(ns: seq<Lexeme>, rest: Bytes)
    requires Delimits(rest)
    ensures Delimits(NumbersText(ns) + rest)
  {
    if |ns| > 0 {
      NumbersStep(ns, rest);
    } else {
      assert NumbersText(ns) + rest == rest;
    }
  }

  /** `LookAt` followed by nine written numbers builds the block of their
      exact values, in order. */
  lemma LookAtRoundTrip(ns: seq<Lexeme>, rest: Bytes)
    requires |ns| == 9 && forall i | 0 <= i < 9 :: WellFormed(ns[i])
    requires Delimits(rest)
    ensures var v := Exacts(ns);
      LookAtBlock("LookAt" + NumbersText(ns) + rest)
      == Done(LookAt(v[0], v[1], v[2], v[3], v[4], v[5], v[6], v[7], v[8]), SkipWs(rest))
  {
    var t := NumbersText(ns) + rest;
    var s := "LookAt" + NumbersText(ns) + rest;
    LookAtShape(s, t);
    NumbersRoundTrip(ns, rest);
    LookAtOf(s, Exacts(ns), rest);
  }

  lemma LookAtShape(s: Bytes, t: Bytes)
    requires s == "LookAt" + t
    ensures SkipWs(s) == s && "LookAt" <= s && s[6..] == t
  {
    assert s[0] == 'L';
  }

  lemma LookAtOf(s: Bytes, v: seq<real>, u: Bytes)
    requires "LookAt" <= SkipWs(s) && Numbers(9, SkipWs(s)[6..]) == Done(v, u)
    ensures LookAtBlock(s) == Done(LookAt(v[0], v[1], v[2], v[3], v[4], v[5], v[6], v[7], v[8]), SkipWs(u))
  {
  }

  /* ----------------------------------------------- named directives */

  /** `camera`, `sampler`, `integrator` and `film`: the keyword, a quoted
      alphanumeric name and a parameter list, each after optional
      whitespace, with the whitespace after them skipped. */
  function Directive(k: Kind, s: Bytes): (r: Outcome<OptionsBlock>)
    ensures r.Parsed? ==> !r.value.LookAt? && KindOf(r.value) == k
    ensures r.Parsed? ==> |r.value.name| > 0 && AllIn(Alnums, r.value.name)
    ensures r.Parsed? ==> |r.rest| < |s|
  {
    var t := SkipWs(s);
    if Keyword(k) <= t then
      match QuotedName(SkipWs(t[|Keyword(k)|..]))
      case Fail => Rejected
      case Done(name, u) =>
        match Items(SkipWs(u))
        case Parsed(items, v) => Parsed(Build(k, name, FromVec(items)), SkipWs(v))
        case Unhandled(typ) => Unhandled(typ)
        case Rejected => Rejected
    else Rejected
  }

  function CameraDirective(s: Bytes): (r: Outcome<OptionsBlock>)
    ensures r.Parsed? ==> r.value.Camera?
  {
    Directive(CameraKind, s)
  }

  function SamplerDirective(s: Bytes): (r: Outcome<OptionsBlock>)
    ensures r.Parsed? ==> r.value.Sampler?
  {
    Directive(SamplerKind, s)
  }

  function IntegratorDirective(s: Bytes): (r: Outcome<OptionsBlock>)
    ensures r.Parsed? ==> r.value.Integrator?
  {
    Directive(IntegratorKind, s)
  }

  function FilmDirective(s: Bytes): (r: Outcome<OptionsBlock>)
    ensures r.Parsed? ==> r.value.Film?
  {
    Directive(FilmKind, s)
  }

  /** The text of a named directive with single spaces. */
  function DirectiveText(k: Kind, name: Bytes, its: seq<WrittenItem>): Bytes
  {
    Keyword(k) + " " + Quoted(name) + ItemsText(its)
  }

  /** A written named directive builds the block of its kind, carrying its
      name and the parameter set of its items in order. */
  lemma DirectiveRoundTrip(k: Kind, name: Bytes, its: seq<WrittenItem>, rest: Bytes)
    requires |name| > 0 && AllIn(Alnums, name)
    requires forall i | 0 <= i < |its| :: ItemWritable(its[i])
    requires Ends(rest)
    ensures Directive(k, DirectiveText(k, name, its) + rest)
      == Parsed(Build(k, name, FromVec(Meanings(its))), SkipWs(rest))
  {
    var u := ItemsText(its) + rest;
    var s := DirectiveText(k, name, its) + rest;
    AppendAssoc(Keyword(k) + " " + Quoted(name), ItemsText(its), rest);
    DirectiveShape(Keyword(k), name, u, s);
    QuotedNameRoundTrip(name, u);
    ItemsRoundTrip(its, rest);
    SkipWsTwice(rest);
    DirectiveOf(k, s, name, u, Meanings(its), SkipWs(rest));
  }

  lemma DirectiveOf(k: Kind, s: Bytes, name: Bytes, u: Bytes, items: seq<ParamSetItem>, v: Bytes)
    requires SkipWs(s) == s && Keyword(k) <= s
    requires QuotedName(SkipWs(s[|Keyword(k)|..])) == Done(name, u)
    requires Items(SkipWs(u)) == Parsed(items, v) && SkipWs(v) == v
    ensures Directive(k, s) == Parsed(Build(k, name, FromVec(items)), v)
  {
  }

  lemma DirectiveShape(kw: Bytes, name: Bytes, u: Bytes, s: Bytes)
    requires |kw| > 0 && IsUpper(kw[0])
    requires s == kw + " " + Quoted(name) + u
    ensures SkipWs(s) == s && kw <= s
    ensures SkipWs(s[|kw|..]) == [QUOTE] + name + [QUOTE] + u
  {
    assert s[0] == kw[0];
    var q := [QUOTE] + name + [QUOTE] + u;
    assert s[|kw|..] == " " + q;
    assert q[0] == QUOTE;
  }

  /** A directive with no parameters gets an empty parameter set. */
  lemma NoParameters(k: Kind, name: Bytes, rest: Bytes)
    requires |name| > 0 && AllIn(Alnums, name) && Ends(rest)
    ensures Directive(k, Keyword(k) + " " + Quoted(name) + rest) == Parsed(Build(k, name, ParamSet([])), SkipWs(rest))
  {
    var s := Keyword(k) + " " + Quoted(name) + rest;
    DirectiveShape(Keyword(k), name, rest, s);
    QuotedNameRoundTrip(name, rest);
    ItemsEnd(rest);
    SkipWsTwice(rest);
    DirectiveOf(k, s, name, rest, [], SkipWs(rest));
  }
}
