/**
 * Vocabulary shared by the scene-file recognizers of src/core/parser.rs:
 * bytes, recognizer results, the byte classes accepted by nom's `digit`,
 * `alphanumeric`, `space` and `sp`, and the repetition and bracketing from
 * which the `ws!`-wrapped value lists are built.
 *
 * Every recognizer is a pure function from its input to either failure or a
 * value together with the unconsumed rest of the input. The input is always
 * complete: where nom would report that it needs more input, the model fails.
 */
module Parsing {

  /** A byte of the scene file, written as the character with the same code
      so that byte strings can be spelled as string literals. A byte buffer
      only holds codes below 0x100; no statement below depends on that bound,
      so the type does not carry it. */
  type byte = char

  type Bytes = seq<byte>

  datatype Option<+T> = None | Some(value: T)

  /** Result of a recognizer that either succeeds or fails. */
  datatype Parse<+T> = Done(value: T, rest: Bytes) | Fail

  /** Result of a recognizer that can also reach the abort on an unknown
      parameter type tag. `Unhandled` carries the tag; unlike `Rejected` it
      is never backtracked over, just as the abort ends the whole parse. */
  datatype Outcome<+T> = Parsed(value: T, rest: Bytes) | Rejected | Unhandled(typ: Bytes)

  const QUOTE: byte := '"'
  const OPEN: byte := '['
  const CLOSE: byte := ']'

  predicate IsDigit(b: byte) { '0' <= b <= '9' }
  predicate IsAlpha(b: byte) { 'a' <= b <= 'z' || 'A' <= b <= 'Z' }
  predicate IsUpper(b: byte) { 'A' <= b <= 'Z' }
  predicate IsAlnum(b: byte) { IsDigit(b) || IsAlpha(b) }

  /** The bytes of nom's `space`: blank and tab. */
  predicate IsBlank(b: byte) { b == ' ' || b == '\t' }

  /** The bytes of nom's `sp`, which `ws!` skips around every token. */
  predicate IsWs(b: byte) { IsBlank(b) || b == '\r' || b == '\n' }

  predicate AllWs(s: Bytes) { forall i | 0 <= i < |s| :: IsWs(s[i]) }

  /** The byte classes of the run recognizers nom provides. */
  datatype Class = Digits | Alnums | Blanks

  predicate In(c: Class, b: byte)
  {
    match c
    case Digits => IsDigit(b)
    case Alnums => IsAlnum(b)
    case Blanks => IsBlank(b)
  }

  predicate AllIn(c: Class, s: Bytes) { forall i | 0 <= i < |s| :: In(c, s[i]) }

  /** nom's `digit`, `alphanumeric` and `space`: the longest nonempty run of
      bytes of class c at the front of the input. */
  function Span(c: Class, s: Bytes): (r: Parse<Bytes>)
    ensures r.Done? <==> |s| > 0 && In(c, s[0])
    ensures r.Done? ==> s == r.value + r.rest && |r.value| > 0 && AllIn(c, r.value)
    ensures r.Done? ==> |r.rest| == 0 || !In(c, r.rest[0])
  {
    if |s| == 0 || !In(c, s[0]) then Fail
    else match Span(c, s[1..])
      case Fail => Done([s[0]], s[1..])
      case Done(run, rest) => Done([s[0]] + run, rest)
  }

  /** A maximal run is exactly what `Span` returns. */
  lemma {:induction false} SpanOf(c: Class, run: Bytes, rest: Bytes)
    requires |run| > 0 && AllIn(c, run)
    requires |rest| == 0 || !In(c, rest[0])
    ensures Span(c, run + rest) == Done(run, rest)
    decreases |run|
  {
    var s := run + rest;
    assert s[0] == run[0];
    assert s[1..] == run[1..] + rest;
    if |run| == 1 {
      assert s[1..] == rest;
    } else {
      SpanOf(c, run[1..], rest);
      assert [run[0]] + run[1..] == run;
    }
  }

  /** nom's `sp` as `ws!` applies it: drop leading whitespace. */
  function SkipWs(s: Bytes): (r: Bytes)
    ensures |r| <= |s|
    ensures |r| == 0 || !IsWs(r[0])
  {
    if |s| > 0 && IsWs(s[0]) then SkipWs(s[1..]) else s
  }

  /** What `SkipWs` drops is whitespace, and what it keeps is a suffix. */
  lemma {:induction false} SkipWsSplits(s: Bytes)
    ensures s == s[..|s| - |SkipWs(s)|] + SkipWs(s)
    ensures AllWs(s[..|s| - |SkipWs(s)|])
    decreases |s|
  {
    if |s| > 0 && IsWs(s[0]) {
      SkipWsSplits(s[1..]);
      var k := |s| - |SkipWs(s)|;
      assert s[..k] == [s[0]] + s[1..][..k - 1];
    }
  }

  lemma {:induction false} SkipWsOver(w: Bytes, t: Bytes)
    requires AllWs(w)
    ensures SkipWs(w + t) == SkipWs(t)
    decreases |w|
  {
    if |w| > 0 {
      assert (w + t)[0] == w[0] && IsWs(w[0]);
      assert (w + t)[1..] == w[1..] + t;
      SkipWsOver(w[1..], t);
    } else {
      assert w + t == t;
    }
  }

  /** Input that does not start with whitespace is left alone. */
  lemma SkipWsNone(t: Bytes)
    requires |t| > 0 && !IsWs(t[0])
    ensures SkipWs(t) == t
  {
  }

  lemma AppendAssoc(a: Bytes, b: Bytes, c: Bytes)
    ensures a + (b + c) == a + b + c
  {
  }

  /** Nonempty input is its first byte followed by the rest. */
  lemma ConsSplit(a: Bytes, t: Bytes)
    requires |a| > 0
    ensures a == [a[0]] + a[1..]
    ensures a + t == [a[0]] + (a[1..] + t)
  {
  }

  /** One space in front of text that starts with no whitespace is skipped. */
  lemma SkipOneSpace(a: Bytes, c: Bytes)
    requires |a| > 0 && !IsWs(a[0])
    ensures SkipWs(" " + a + c) == a + c
  {
    var t := " " + a + c;
    assert t[1..] == a + c;
    assert (a + c)[0] == a[0];
  }

  /** Skipping whitespace twice skips nothing more. */
  lemma SkipWsTwice(s: Bytes)
    ensures SkipWs(SkipWs(s)) == SkipWs(s)
  {
    var t := SkipWs(s);
    if |t| > 0 {
      SkipWsNone(t);
    }
  }

  /** Index of the first occurrence of b in s, if there is one. */
  function IndexOf(b: byte, s: Bytes): (r: Option<nat>)
    ensures r.Some? ==> r.value < |s| && s[r.value] == b && b !in s[..r.value]
    ensures r.None? ==> b !in s
  {
    if |s| == 0 then None
    else if s[0] == b then Some(0)
    else match IndexOf(b, s[1..])
      case None => None
      case Some(j) =>
        assert s[..j + 1] == [s[0]] + s[1..][..j];
        Some(j + 1)
  }

  /** The first occurrence is the only one with none before it. */
  lemma {:induction false} IndexOfAt(b: byte, s: Bytes, k: nat)
    requires k < |s| && s[k] == b && b !in s[..k]
    ensures IndexOf(b, s) == Some(k)
    decreases k
  {
    if k > 0 {
      assert s[0] == s[..k][0];
      assert s[1..][..k - 1] == s[1..k];
      assert s[..k] == [s[0]] + s[1..k];
      IndexOfAt(b, s[1..], k - 1);
    }
  }

  /** The concatenation of a list of pieces of input. */
  function Concat(pieces: seq<Bytes>): (r: Bytes)
  {
    if |pieces| == 0 then [] else pieces[0] + Concat(pieces[1..])
  }

  /** What may follow a list element without extending it: nothing,
      whitespace or the closing bracket. */
  predicate Delimits(t: Bytes) { |t| == 0 || IsWs(t[0]) || t[0] == CLOSE }

  /** The element recognizer p, after optional whitespace, reads exactly
      `piece` as x whenever the piece is followed by a delimiter. */
  ghost predicate ParsesAs<T>(p: Bytes -> Parse<T>, piece: Bytes, x: T)
  {
    forall tail {:trigger Delimits(tail)} | Delimits(tail) :: p(SkipWs(piece + tail)) == Done(x, tail)
  }

  /** A piece that parses as x still does so after a leading space. */
  lemma ParsesAsSpaced<T>(p: Bytes -> Parse<T>, piece: Bytes, x: T)
    requires ParsesAs(p, piece, x)
    ensures ParsesAs(p, " " + piece, x)
  {
    forall tail | Delimits(tail)
      ensures p(SkipWs(" " + piece + tail)) == Done(x, tail)
    {
      var t := " " + piece + tail;
      assert t[1..] == piece + tail;
      assert SkipWs(t) == SkipWs(piece + tail);
    }
  }

  /** Nonempty pieces, each after the first beginning with whitespace. */
  predicate Separated(pieces: seq<Bytes>)
  {
    forall i | 0 <= i < |pieces| :: |pieces[i]| > 0 && (i > 0 ==> IsWs(pieces[i][0]))
  }

  /** The element recognizer never starts with a bracket. */
  ghost predicate NoBracket<T>(p: Bytes -> Parse<T>)
  {
    forall t | |t| > 0 && (t[0] == OPEN || t[0] == CLOSE) :: p(t).Fail?
  }

  /** The loop of nom's `many1!` under `ws!`: further elements, each after
      optional whitespace, up to the first that fails or consumes nothing. */
  function More<T>(p: Bytes -> Parse<T>, s: Bytes): (r: (seq<T>, Bytes))
    ensures |r.1| <= |s|
    decreases |s|
  {
    match p(SkipWs(s))
    case Fail => ([], s)
    case Done(x, rest) =>
      if |rest| < |s| then
        var (xs, last) := More(p, rest);
        ([x] + xs, last)
      else ([], s)
  }

  /** nom's `many1!` under `ws!`: one element, then as many more as match. */
  function Many1<T>(p: Bytes -> Parse<T>, s: Bytes): (r: Parse<seq<T>>)
    ensures r.Done? ==> |r.value| > 0
  {
    match p(SkipWs(s))
    case Fail => Fail
    case Done(x, rest) =>
      var (xs, last) := More(p, rest);
      Done([x] + xs, last)
  }

  /** `ws!(delimited!(tag!("["), many1!(p), tag!("]")))` */
  function Bracketed<T>(p: Bytes -> Parse<T>, s: Bytes): (r: Parse<seq<T>>)
    ensures r.Done? ==> |r.value| > 0
  {
    var t := SkipWs(s);
    if [OPEN] <= t then
      match Many1(p, t[1..])
      case Fail => Fail
      case Done(xs, u) =>
        var v := SkipWs(u);
        if [CLOSE] <= v then Done(xs, SkipWs(v[1..])) else Fail
    else Fail
  }

  /** `ws!(many1!(p))`: a bare run of elements. */
  function Run<T>(p: Bytes -> Parse<T>, s: Bytes): (r: Parse<seq<T>>)
    ensures r.Done? ==> |r.value| > 0
  {
    match Many1(p, s)
    case Fail => Fail
    case Done(xs, u) => Done(xs, SkipWs(u))
  }

  /** `ws!(p)` with its value made a one-element list. */
  function Single<T>(p: Bytes -> Parse<T>, s: Bytes): (r: Parse<seq<T>>)
    ensures r.Done? ==> |r.value| == 1
  {
    match p(SkipWs(s))
    case Fail => Fail
    case Done(x, u) => Done([x], SkipWs(u))
  }

  /** nom's `alt!` of two alternatives: the first that succeeds. */
  function Alt<T>(first: Parse<T>, second: Parse<T>): (r: Parse<T>)
    ensures r.Done? <==> first.Done? || second.Done?
    ensures first.Done? ==> r == first
    ensures !first.Done? ==> r == second
  {
    if first.Done? then first else second
  }

  /** A bracketed list or else a bare run, as the bool, float and integer
      value recognizers accept. */
  function ListOf<T>(p: Bytes -> Parse<T>, s: Bytes): (r: Parse<seq<T>>)
    ensures r.Done? ==> |r.value| > 0
  {
    Alt(Bracketed(p, s), Run(p, s))
  }

  /** A parse result that cannot reach the abort, as an outcome. */
  function Lift<T>(r: Parse<T>): (o: Outcome<T>)
    ensures o.Parsed? <==> r.Done?
    ensures r.Done? ==> o.value == r.value && o.rest == r.rest
    ensures !o.Unhandled?
  {
    match r
    case Done(x, rest) => Parsed(x, rest)
    case Fail => Rejected
  }

  /** Every success of p consumes input. */
  ghost predicate Consumes<T>(p: Bytes -> Parse<T>)
  {
    forall t :: p(t).Done? ==> |p(t).rest| < |t|
  }

  lemma Many1Shrinks<T>(p: Bytes -> Parse<T>, s: Bytes)
    requires Consumes(p)
    ensures Many1(p, s).Done? ==> |Many1(p, s).rest| < |s|
  {
  }

  /** The bracket-or-bare list, and the bracket-or-single list, of a
      consuming element recognizer consume input. */
  lemma ListsShrink<T>(p: Bytes -> Parse<T>, s: Bytes)
    requires Consumes(p)
    ensures ListOf(p, s).Done? ==> |ListOf(p, s).rest| < |s|
    ensures Alt(Bracketed(p, s), Single(p, s)).Done? ==> |Alt(Bracketed(p, s), Single(p, s)).rest| < |s|
  {
    Many1Shrinks(p, s);
    var t := SkipWs(s);
    if [OPEN] <= t {
      Many1Shrinks(p, t[1..]);
    }
  }

  /** Whitespace in front of a list changes nothing: every form of list
      starts by skipping it. */
  lemma ListsSkipWs<T>(p: Bytes -> Parse<T>, w: Bytes, x: Bytes)
    requires AllWs(w)
    ensures ListOf(p, w + x) == ListOf(p, x)
    ensures Alt(Bracketed(p, w + x), Single(p, w + x)) == Alt(Bracketed(p, x), Single(p, x))
  {
    SkipWsOver(w, x);
  }

  /** Texts written one after another with a single space between them. */
  function Spaced(texts: seq<Bytes>): (r: seq<Bytes>)
    ensures |r| == |texts|
  {
    seq(|texts|, i requires 0 <= i < |texts| => if i == 0 then texts[i] else " " + texts[i])
  }

  /** Texts that each parse as their element still do so once spaced, and
      the spaced pieces are separated. */
  lemma SpacedParses<T>(p: Bytes -> Parse<T>, texts: seq<Bytes>, xs: seq<T>)
    requires |texts| == |xs|
    requires forall i | 0 <= i < |texts| :: |texts[i]| > 0 && ParsesAs(p, texts[i], xs[i])
    ensures Separated(Spaced(texts))
    ensures forall i | 0 <= i < |texts| :: ParsesAs(p, Spaced(texts)[i], xs[i])
  {
    forall i | 0 <= i < |texts|
      ensures ParsesAs(p, Spaced(texts)[i], xs[i])
    {
      if i > 0 {
        ParsesAsSpaced(p, texts[i], xs[i]);
      }
    }
  }

  lemma {:induction false} MoreConcat<T>(p: Bytes -> Parse<T>, pieces: seq<Bytes>, xs: seq<T>, rest: Bytes)
    requires |pieces| == |xs| && Separated(pieces)
    requires |pieces| > 0 ==> IsWs(pieces[0][0])
    requires forall i | 0 <= i < |pieces| :: ParsesAs(p, pieces[i], xs[i])
    requires Delimits(rest) && p(SkipWs(rest)).Fail?
    ensures More(p, Concat(pieces) + rest) == (xs, rest)
    decreases |pieces|
  {
    if |pieces| > 0 {
      var tail := ConcatFirst(p, pieces, xs, rest);
      MoreConcat(p, pieces[1..], xs[1..], rest);
      assert [xs[0]] + xs[1..] == xs;
    } else {
      assert Concat(pieces) + rest == rest;
    }
  }

  /** A run of pieces that each parse as the matching element is read back
      as exactly that list, leaving the delimiting rest. */
  lemma Many1Concat<T>(p: Bytes -> Parse<T>, pieces: seq<Bytes>, xs: seq<T>, rest: Bytes)
    requires |pieces| == |xs| > 0 && Separated(pieces)
    requires forall i | 0 <= i < |pieces| :: ParsesAs(p, pieces[i], xs[i])
    requires Delimits(rest) && p(SkipWs(rest)).Fail?
    ensures Many1(p, Concat(pieces) + rest) == Done(xs, rest)
  {
    var tail := ConcatFirst(p, pieces, xs, rest);
    MoreConcat(p, pieces[1..], xs[1..], rest);
    assert [xs[0]] + xs[1..] == xs;
  }

  /** The first piece of a run is read as the first element, and the pieces
      after it still meet the requirements on a run. */
  lemma ConcatFirst<T>(p: Bytes -> Parse<T>, pieces: seq<Bytes>, xs: seq<T>, rest: Bytes) returns (tail: Bytes)
    requires |pieces| == |xs| > 0 && Separated(pieces)
    requires forall i | 0 <= i < |pieces| :: ParsesAs(p, pieces[i], xs[i])
    requires Delimits(rest)
    ensures tail == Concat(pieces[1..]) + rest
    ensures Concat(pieces) + rest == pieces[0] + tail && |tail| < |pieces[0] + tail|
    ensures p(SkipWs(pieces[0] + tail)) == Done(xs[0], tail)
    ensures Separated(pieces[1..]) && |pieces[1..]| == |xs[1..]|
    ensures |pieces[1..]| > 0 ==> IsWs(pieces[1..][0][0])
    ensures forall i | 0 <= i < |pieces[1..]| :: ParsesAs(p, pieces[1..][i], xs[1..][i])
  {
    tail := Concat(pieces[1..]) + rest;
    ConcatCons(pieces, rest);
    assert Delimits(tail) by {
      if |pieces| > 1 {
        ConcatCons(pieces[1..], rest);
        assert tail[0] == pieces[1][0];
      }
    }
    assert ParsesAs(p, pieces[0], xs[0]);
    forall i | 0 <= i < |pieces[1..]| ensures ParsesAs(p, pieces[1..][i], xs[1..][i]) {
      assert pieces[1..][i] == pieces[i + 1] && xs[1..][i] == xs[i + 1];
    }
  }

  lemma ConcatCons(pieces: seq<Bytes>, rest: Bytes)
    requires |pieces| > 0
    ensures Concat(pieces) + rest == pieces[0] + (Concat(pieces[1..]) + rest)
  {
  }

  lemma BracketedUnfold<T>(p: Bytes -> Parse<T>, body: Bytes, xs: seq<T>, tail: Bytes, rest: Bytes)
    requires Many1(p, body) == Done(xs, tail)
    requires SkipWs(tail) == [CLOSE] + rest
    ensures Bracketed(p, [OPEN] + body) == Done(xs, SkipWs(rest))
  {
    var s := [OPEN] + body;
    assert SkipWs(s) == s;
    assert s[1..] == body;
    assert ([CLOSE] + rest)[1..] == rest;
  }

  /** The bracketed form `[ e1 e2 ... ]` reads back the listed elements,
      skipping the whitespace after the closing bracket. */
  lemma BracketedConcat<T>(p: Bytes -> Parse<T>, pieces: seq<Bytes>, xs: seq<T>, w: Bytes, rest: Bytes)
    requires NoBracket(p) && AllWs(w)
    requires |pieces| == |xs| > 0 && Separated(pieces)
    requires forall i | 0 <= i < |pieces| :: ParsesAs(p, pieces[i], xs[i])
    ensures Bracketed(p, [OPEN] + Concat(pieces) + w + [CLOSE] + rest) == Done(xs, SkipWs(rest))
  {
    var closing := [CLOSE] + rest;
    var tail := w + closing;
    assert SkipWs(tail) == closing by {
      SkipWsOver(w, closing);
      assert closing[0] == CLOSE;
    }
    assert Delimits(tail) by {
      if |w| > 0 {
        assert tail[0] == w[0];
      }
    }
    assert p(SkipWs(closing)).Fail? by {
      assert closing[0] == CLOSE;
    }
    Many1Concat(p, pieces, xs, tail);
    BracketedUnfold(p, Concat(pieces) + tail, xs, tail, rest);
    BracketShape(Concat(pieces), w, rest);
  }

  lemma BracketShape(body: Bytes, w: Bytes, rest: Bytes)
    ensures [OPEN] + (body + (w + ([CLOSE] + rest))) == [OPEN] + body + w + [CLOSE] + rest
  {
  }

  /** A successful bracketed list is what the bracket-or-bare recognizer
      returns, since the bracketed form is tried first. */
  lemma ListOfBracketed<T>(p: Bytes -> Parse<T>, pieces: seq<Bytes>, xs: seq<T>, w: Bytes, rest: Bytes)
    requires NoBracket(p) && AllWs(w)
    requires |pieces| == |xs| > 0 && Separated(pieces)
    requires forall i | 0 <= i < |pieces| :: ParsesAs(p, pieces[i], xs[i])
    ensures ListOf(p, [OPEN] + Concat(pieces) + w + [CLOSE] + rest) == Done(xs, SkipWs(rest))
  {
    BracketedConcat(p, pieces, xs, w, rest);
  }

  /** A bare run never looks like a bracketed list to an element recognizer
      that cannot start with a bracket. */
  lemma BracketedRejectsBare<T>(p: Bytes -> Parse<T>, s: Bytes)
    requires NoBracket(p) && Many1(p, s).Done?
    ensures Bracketed(p, s).Fail?
  {
    var t := SkipWs(s);
    assert p(t).Done?;
    assert |t| == 0 || t[0] != OPEN;
  }

  /** The bare form `e1 e2 ...` reads back the listed elements when what
      follows is a delimiter that does not start another element. */
  lemma RunConcat<T>(p: Bytes -> Parse<T>, pieces: seq<Bytes>, xs: seq<T>, rest: Bytes)
    requires NoBracket(p)
    requires |pieces| == |xs| > 0 && Separated(pieces)
    requires forall i | 0 <= i < |pieces| :: ParsesAs(p, pieces[i], xs[i])
    requires Delimits(rest) && p(SkipWs(rest)).Fail?
    ensures ListOf(p, Concat(pieces) + rest) == Done(xs, SkipWs(rest))
  {
    Many1Concat(p, pieces, xs, rest);
    BracketedRejectsBare(p, Concat(pieces) + rest);
  }

  /** A single element with nothing else in the list. */
  lemma SingleOf<T>(p: Bytes -> Parse<T>, piece: Bytes, x: T, rest: Bytes)
    requires ParsesAs(p, piece, x) && Delimits(rest)
    ensures Single(p, piece + rest) == Done([x], SkipWs(rest))
  {
  }

  /** An empty bracket pair is neither a bracketed list nor a bare element. */
  lemma EmptyBracketFails<T>(p: Bytes -> Parse<T>, w1: Bytes, w2: Bytes, rest: Bytes)
    requires NoBracket(p) && AllWs(w1) && AllWs(w2)
    ensures ListOf(p, w1 + [OPEN] + w2 + [CLOSE] + rest).Fail?
    ensures Alt(Bracketed(p, w1 + [OPEN] + w2 + [CLOSE] + rest), Single(p, w1 + [OPEN] + w2 + [CLOSE] + rest)).Fail?
  {
    var s := w1 + [OPEN] + w2 + [CLOSE] + rest;
    var t := [OPEN] + w2 + [CLOSE] + rest;
    EmptyBracketShape(w1, w2, rest);
    assert t[0] == OPEN;
    assert p(t).Fail?;
    assert ([CLOSE] + rest)[0] == CLOSE;
    assert t[1..] == w2 + [CLOSE] + rest;
    assert Many1(p, t[1..]).Fail?;
  }

  lemma EmptyBracketShape(w1: Bytes, w2: Bytes, rest: Bytes)
    requires AllWs(w1) && AllWs(w2)
    ensures SkipWs(w1 + [OPEN] + w2 + [CLOSE] + rest) == [OPEN] + w2 + [CLOSE] + rest
    ensures SkipWs(w2 + [CLOSE] + rest) == [CLOSE] + rest
  {
    var t := [OPEN] + w2 + [CLOSE] + rest;
    assert w1 + [OPEN] + w2 + [CLOSE] + rest == w1 + t;
    SkipWsOver(w1, t);
    assert t[0] == OPEN;
    assert w2 + [CLOSE] + rest == w2 + ([CLOSE] + rest);
    SkipWsOver(w2, [CLOSE] + rest);
    assert ([CLOSE] + rest)[0] == CLOSE;
  }
}
