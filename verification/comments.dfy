/**
 * The comment stripper `strip_comment` of src/core/parser.rs: every match
 * of the regular expression `#.*\n`, found left to right without overlap,
 * is replaced by a single line feed, and the whole input is consumed.
 *
 * The expression is compiled over bytes with Unicode mode on, so `.` matches
 * the UTF-8 encoding of any character except a line feed. A match therefore
 * starts at a `#`, ends at the first line feed after it, and exists only when
 * the bytes in between are well-formed UTF-8. A `#` with no line feed after
 * it starts no match and is kept.
 */
module Comments {
  import opened Parsing
  import Utf8

  const HASH: byte := '#'
  const LF: byte := '\n'

  /** m is exactly one match of `#.*\n`. */
  predicate IsComment(m: Bytes)
  {
    |m| >= 2 && m[0] == HASH && m[|m| - 1] == LF
    && LF !in m[1..|m| - 1] && Utf8.Valid(m[1..|m| - 1])
  }

  /** Length of the match of `#.*\n` that starts at the front of s, if any. */
  function CommentAt(s: Bytes): (r: Option<nat>)
    ensures r.Some? ==> 2 <= r.value <= |s| && IsComment(s[..r.value])
  {
    if |s| == 0 || s[0] != HASH then None
    else match IndexOf(LF, s)
      case None => None
      case Some(j) =>
        if Utf8.Valid(s[1..j]) then
          assert s[..j + 1][1..j] == s[1..j];
          Some(j + 1)
        else None
  }

  /** Every match at the front of s is the one CommentAt finds, so None means
      that no prefix of s is a match. */
  lemma CommentAtFinds(s: Bytes, n: nat)
    requires n <= |s| && IsComment(s[..n])
    ensures CommentAt(s) == Some(n)
  {
    var m := s[..n];
    assert s[n - 1] == m[n - 1];
    assert s[..n - 1] == m[..n - 1];
    assert m[..n - 1] == [HASH] + m[1..n - 1];
    IndexOfAt(LF, s, n - 1);
    assert s[1..n - 1] == m[1..n - 1];
  }

  /** How many bytes of s the scan consumes next: a whole comment, or one
      byte. */
  function Step(s: Bytes): (n: nat)
    requires |s| > 0
    ensures 1 <= n <= |s|
  {
    match CommentAt(s)
    case Some(n) => n
    case None => 1
  }

  /** The byte the scan writes for what it consumes next. */
  function Emit(s: Bytes): byte
    requires |s| > 0
  {
    if CommentAt(s).Some? then LF else s[0]
  }

  /** The input with every match of `#.*\n`, taken left to right without
      overlap, replaced by one line feed: the regex crate's `replace_all`. */
  function Strip(s: Bytes): (r: Bytes)
    ensures |r| <= |s|
    decreases |s|
  {
    if |s| == 0 then [] else [Emit(s)] + Strip(s[Step(s)..])
  }

  /** `strip_comment` as a single forward scan over the buffer. */
  method StripComment(input: Bytes) returns (output: Bytes)
    ensures output == Strip(input)
  {
    output := [];
    var rest := input;
    while |rest| > 0
      invariant output + Strip(rest) == Strip(input)
      decreases |rest|
    {
      var n, x := Step(rest), Emit(rest);
      AppendAssoc(output, [x], Strip(rest[n..]));
      output := output + [x];
      rest := rest[n..];
    }
  }

  /** Text without `#` has no comment and is left as it is. */
  lemma {:induction false} StripWithoutHash(s: Bytes)
    requires HASH !in s
    ensures Strip(s) == s
    decreases |s|
  {
    if |s| > 0 {
      assert HASH !in s[1..];
      StripWithoutHash(s[1..]);
      StripCons(s[0], s[1..]);
      assert [s[0]] + s[1..] == s;
    }
  }

  /** Text without a line feed has no complete comment, so a comment at the
      very end of the buffer is kept. */
  lemma {:induction false} StripWithoutLineFeed(s: Bytes)
    requires LF !in s
    ensures Strip(s) == s
    decreases |s|
  {
    if |s| > 0 {
      assert IndexOf(LF, s).None?;
      assert LF !in s[1..];
      StripWithoutLineFeed(s[1..]);
    }
  }

  /** Text before the first `#` is kept as it is. */
  lemma {:induction false} StripKeepsPrefix(a: Bytes, t: Bytes)
    requires HASH !in a
    ensures Strip(a + t) == a + Strip(t)
    decreases |a|
  {
    if |a| > 0 {
      ConsSplit(a, t);
      StripCons(a[0], a[1..] + t);
      StripKeepsPrefix(a[1..], t);
      ConsSplit(a, Strip(t));
    } else {
      assert a + t == t;
    }
  }

  /** A byte other than `#` is copied through. */
  lemma StripCons(x: byte, u: Bytes)
    requires x != HASH
    ensures Strip([x] + u) == [x] + Strip(u)
  {
    var s := [x] + u;
    assert s[0] == x;
    StripKeeps(s);
    assert s[1..] == u;
  }

  lemma CommentLine(c: Bytes, t: Bytes)
    requires LF !in c
    ensures CommentAt([HASH] + c + [LF] + t) == if Utf8.Valid(c) then Some(|c| + 2) else None
  {
    var s := [HASH] + c + [LF] + t;
    assert s[..|c| + 1] == [HASH] + c;
    IndexOfAt(LF, s, |c| + 1);
    assert s[1..|c| + 1] == c;
  }

  /** A comment together with its line feed becomes that one line feed. */
  lemma StripComment1(c: Bytes, t: Bytes)
    requires LF !in c && Utf8.Valid(c)
    ensures Strip([HASH] + c + [LF] + t) == [LF] + Strip(t)
  {
    var s := [HASH] + c + [LF] + t;
    CommentLine(c, t);
    assert s[|c| + 2..] == t;
  }

  /** Line feeds are neither added nor removed, so line numbers survive. */
  lemma {:induction false} StripKeepsLineFeeds(s: Bytes)
    ensures multiset(Strip(s))[LF] == multiset(s)[LF]
    decreases |s|
  {
    if |s| > 0 {
      StripKeepsLineFeeds(s[Step(s)..]);
      StepLineFeeds(s);
      LineFeedsCons(Emit(s), Strip(s[Step(s)..]));
    }
  }

  /** One step of the scan writes a line feed exactly when it consumes one. */
  lemma StepLineFeeds(s: Bytes)
    requires |s| > 0
    ensures multiset(s)[LF] == (if Emit(s) == LF then 1 else 0) + multiset(s[Step(s)..])[LF]
  {
    match CommentAt(s)
    case Some(n) =>
      CommentLineFeeds(s, n);
    case None =>
      LineFeedsCons(s[0], s[1..]);
      assert [s[0]] + s[1..] == s;
  }

  /** One step of `Strip` where a comment of length n starts. */
  lemma StripReplaces(s: Bytes, n: nat)
    requires |s| > 0 && CommentAt(s) == Some(n)
    ensures Strip(s) == [LF] + Strip(s[n..])
  {
  }

  /** A comment holds exactly one line feed, its last byte. */
  lemma CommentLineFeeds(s: Bytes, n: nat)
    requires 2 <= n <= |s| && IsComment(s[..n])
    ensures multiset(s)[LF] == 1 + multiset(s[n..])[LF]
  {
    var m := s[..n];
    assert s == m + s[n..];
    assert m == [HASH] + m[1..n - 1] + [LF];
    assert multiset(m[1..n - 1])[LF] == 0;
    assert multiset(m)[LF] == 1;
  }

  lemma LineFeedsCons(x: byte, t: Bytes)
    ensures multiset([x] + t)[LF] == (if x == LF then 1 else 0) + multiset(t)[LF]
  {
    assert multiset([x] + t) == multiset([x]) + multiset(t);
  }

  /** One step of `Strip` where no comment starts. */
  lemma StripKeeps(s: Bytes)
    requires |s| > 0 && CommentAt(s).None?
    ensures Strip(s) == [s[0]] + Strip(s[1..])
  {
  }

  /** The part of a line, given without its line feed, that stripping
      keeps: everything before the first `#` followed by well-formed UTF-8
      up to the line feed. */
  function Kept(a: Bytes): Bytes
  {
    if |a| == 0 then []
    else if a[0] == HASH && Utf8.Valid(a[1..]) then []
    else [a[0]] + Kept(a[1..])
  }

  /** What is kept of a line is a prefix of it, and either the whole line
      or what stands before a `#` that starts a comment. */
  lemma {:induction false} KeptShape(a: Bytes)
    ensures Kept(a) <= a
    ensures Kept(a) == a || (a[|Kept(a)|] == HASH && Utf8.Valid(a[|Kept(a)| + 1..]))
    decreases |a|
  {
    if |a| > 0 && !(a[0] == HASH && Utf8.Valid(a[1..])) {
      KeptShape(a[1..]);
      PrefixAfterHead(a, Kept(a[1..]));
    }
  }

  /** Stripping works line by line: the first line loses its comment, if it
      has one, and keeps its line feed. */
  lemma {:induction false} StripFirstLine(a: Bytes, b: Bytes)
    requires LF !in a
    ensures Strip(a + [LF] + b) == Kept(a) + [LF] + Strip(b)
    decreases |a|
  {
    if |a| == 0 {
      FirstLineEmpty(a, b);
    } else if a[0] == HASH && Utf8.Valid(a[1..]) {
      FirstLineComment(a, b);
    } else {
      assert LF !in a[1..];
      StripFirstLine(a[1..], b);
      LineKeepsFirst(a, b, Kept(a[1..]));
      KeptCons(a);
      Rejoin(a[0], Kept(a[1..]), Kept(a), Strip(a + [LF] + b), Strip(b));
    }
  }

  lemma KeptCons(a: Bytes)
    requires |a| > 0 && !(a[0] == HASH && Utf8.Valid(a[1..]))
    ensures Kept(a) == [a[0]] + Kept(a[1..])
  {
  }

  lemma Rejoin(x: byte, more: Bytes, kept: Bytes, line: Bytes, tail: Bytes)
    requires line == [x] + more + [LF] + tail && kept == [x] + more
    ensures line == kept + [LF] + tail
  {
  }

  lemma FirstLineEmpty(a: Bytes, b: Bytes)
    requires |a| == 0
    ensures Strip(a + [LF] + b) == [] + [LF] + Strip(b)
  {
    var s := [LF] + b;
    assert a + [LF] + b == s;
    StripKeeps(s);
    assert s[1..] == b;
  }

  lemma FirstLineComment(a: Bytes, b: Bytes)
    requires LF !in a && |a| > 0 && a[0] == HASH && Utf8.Valid(a[1..])
    ensures Strip(a + [LF] + b) == [LF] + Strip(b)
  {
    HeadSplit(a, b);
    assert LF !in a[1..];
    StripComment1(a[1..], b);
  }

  lemma HeadSplit(a: Bytes, b: Bytes)
    requires |a| > 0 && a[0] == HASH
    ensures a + [LF] + b == [HASH] + a[1..] + [LF] + b
  {
  }

  lemma LineKeepsFirst(a: Bytes, b: Bytes, more: Bytes)
    requires LF !in a && |a| > 0 && !(a[0] == HASH && Utf8.Valid(a[1..]))
    requires Strip(a[1..] + [LF] + b) == more + [LF] + Strip(b)
    ensures Strip(a + [LF] + b) == [a[0]] + more + [LF] + Strip(b)
  {
    LineKeepsHead(a, b);
    AppendAssoc([a[0]], more + [LF], Strip(b));
    AppendAssoc([a[0]], more, [LF]);
  }

  lemma PrefixAfterHead(a: Bytes, more: Bytes)
    requires |a| > 0 && more <= a[1..]
    requires more == a[1..] || (a[1..][|more|] == HASH && Utf8.Valid(a[1..][|more| + 1..]))
    ensures [a[0]] + more <= a
    ensures [a[0]] + more == a || (a[|more| + 1] == HASH && Utf8.Valid(a[|more| + 2..]))
  {
    assert a == [a[0]] + a[1..];
    if more != a[1..] {
      assert a[|more| + 1] == a[1..][|more|];
      assert a[|more| + 2..] == a[1..][|more| + 1..];
    }
  }

  lemma LineKeepsHead(a: Bytes, b: Bytes)
    requires LF !in a && |a| > 0 && !(a[0] == HASH && Utf8.Valid(a[1..]))
    ensures Strip(a + [LF] + b) == [a[0]] + Strip(a[1..] + [LF] + b)
  {
    var s := a + [LF] + b;
    assert CommentAt(s).None? by {
      if a[0] == HASH {
        HeadSplit(a, b);
        CommentLine(a[1..], b);
      } else {
        assert s[0] == a[0];
      }
    }
    StripKeeps(s);
    assert s[0] == a[0];
    assert s[1..] == a[1..] + [LF] + b;
  }

  /** A `#` that starts no comment still starts none after the text behind
      it has been stripped. */
  lemma StripKeepsNonComment(s: Bytes)
    requires |s| > 0 && s[0] == HASH && CommentAt(s).None?
    ensures CommentAt([HASH] + Strip(s[1..])).None?
  {
    match IndexOf(LF, s[1..])
    case None =>
      StripWithoutLineFeed(s[1..]);
      assert [HASH] + s[1..] == s;
    case Some(j) =>
      NonCommentLine(s, j);
  }

  lemma NonCommentLine(s: Bytes, j: nat)
    requires |s| > 0 && s[0] == HASH && CommentAt(s).None?
    requires IndexOf(LF, s[1..]) == Some(j)
    ensures CommentAt([HASH] + Strip(s[1..])).None?
  {
    var a, b := s[1..][..j], s[1..][j + 1..];
    SplitAtLineFeed(s, j);
    CommentLine(a, b);
    StripFirstLine(a, b);
    KeptInvalid(a);
    AppendAssoc([HASH], Kept(a) + [LF], Strip(b));
    AppendAssoc([HASH], Kept(a), [LF]);
    CommentLine(Kept(a), Strip(b));
  }

  lemma SplitAtLineFeed(s: Bytes, j: nat)
    requires |s| > 0 && j < |s| - 1 && s[1..][j] == LF
    ensures s[1..] == s[1..][..j] + [LF] + s[1..][j + 1..]
    ensures s == [s[0]] + s[1..][..j] + [LF] + s[1..][j + 1..]
  {
  }

  /** What is kept of a line has no line feed, and is ill-formed whenever
      the line is. */
  lemma KeptInvalid(a: Bytes)
    ensures LF in Kept(a) ==> LF in a
    ensures Utf8.Valid(Kept(a)) ==> Utf8.Valid(a)
  {
    KeptShape(a);
    var k := Kept(a);
    assert k == a[..|k|];
    if k != a {
      GlueValid(a, k);
    }
  }

  /** A well-formed line start followed by `#` and a well-formed rest is a
      well-formed line. */
  lemma GlueValid(a: Bytes, kept: Bytes)
    requires kept <= a && |kept| < |a| && a[|kept|] == HASH && Utf8.Valid(a[|kept| + 1..])
    ensures Utf8.Valid(kept) ==> Utf8.Valid(a)
  {
    if Utf8.Valid(kept) {
      GlueShape(a, kept);
      Utf8.AsciiValid([HASH]);
      Utf8.ValidConcat(kept, [HASH]);
      Utf8.ValidConcat(kept + [HASH], a[|kept| + 1..]);
    }
  }

  lemma GlueShape(a: Bytes, kept: Bytes)
    requires kept <= a && |kept| < |a| && a[|kept|] == HASH
    ensures a == kept + [HASH] + a[|kept| + 1..]
  {
  }

  /** Stripping leaves no comment behind: a second pass changes nothing. */
  lemma {:induction false} StripIdempotent(s: Bytes)
    ensures Strip(Strip(s)) == Strip(s)
    decreases |s|
  {
    if |s| > 0 {
      match CommentAt(s)
      case Some(n) =>
        StripIdempotent(s[n..]);
        var r := [LF] + Strip(s[n..]);
        assert r[1..] == Strip(s[n..]);
        assert CommentAt(r).None?;
      case None =>
        StripIdempotent(s[1..]);
        var r := [s[0]] + Strip(s[1..]);
        assert r[1..] == Strip(s[1..]);
        if s[0] == HASH {
          StripKeepsNonComment(s);
        }
        assert CommentAt(r).None?;
    }
  }
}
