/** Recognising complete responses in a byte stream: command echo, expected text and
    prompt, in order and apart.  Repeatedly taking the shortest such prefix gives as
    many complete responses as any other way of cutting the stream. */
module Responses {
  import opened Framing

  /** bytes.lower(): ASCII letters only. */
  function Lower(b: byte): byte {
    if 65 <= b <= 90 then b + 32 else b
  }

  function Folded(s: seq<byte>): (r: seq<byte>)
    ensures |r| == |s|
  {
    seq(|s|, i requires 0 <= i < |s| => Lower(s[i]))
  }

  /** Two bytes that are the same, or an ASCII letter in either case. */
  predicate SameLetter(a: byte, b: byte) {
    a == b || (65 <= a <= 90 && b == a + 32) || (65 <= b <= 90 && a == b + 32)
  }

  /** Texts are compared by their letters, whatever their case, and by nothing less. */
  lemma FoldedIff(s: seq<byte>, t: seq<byte>)
    ensures Folded(s) == Folded(t) <==> |s| == |t| && forall i :: 0 <= i < |s| ==> SameLetter(s[i], t[i])
  {
    if Folded(s) == Folded(t) {
      forall i | 0 <= i < |s|
        ensures SameLetter(s[i], t[i])
      {
        assert Folded(s)[i] == Folded(t)[i];
      }
    }
  }

  datatype Found = NotFound | At(index: nat)

  predicate Occurs(hay: seq<byte>, needle: seq<byte>, i: nat) {
    i + |needle| <= |hay| && hay[i..i + |needle|] == needle
  }

  /** hay.find(needle, start). */
  function Find(hay: seq<byte>, needle: seq<byte>, start: nat): (r: Found)
    ensures r.At? ==> start <= r.index && Occurs(hay, needle, r.index)
    ensures r.At? ==> forall i :: start <= i < r.index ==> !Occurs(hay, needle, i)
    ensures r.NotFound? ==> forall i: nat :: start <= i ==> !Occurs(hay, needle, i)
    decreases |hay| - start
  {
    if start + |needle| > |hay| then NotFound
    else if hay[start..start + |needle|] == needle then At(start)
    else Find(hay, needle, start + 1)
  }

  datatype Pattern = Pattern(command: seq<byte>, expected: seq<byte>, prompt: seq<byte>)

  /** Where the first complete response of the buffer ends. */
  function FindComplete(p: Pattern, response: seq<byte>): (r: Found)
    ensures r.At? ==> r.index <= |response|
  {
    var folded := Folded(response);
    var command, expected, prompt := Folded(p.command), Folded(p.expected), Folded(p.prompt);
    match Find(folded, command, 0)
    case NotFound => NotFound
    case At(commandAt) =>
      match Find(folded, expected, commandAt + |command|)
      case NotFound => NotFound
      case At(expectedAt) =>
        match Find(folded, prompt, expectedAt + |expected|)
        case NotFound => NotFound
        case At(promptAt) => At(promptAt + |prompt|)
  }

  // ---------------------------------------------------------- what it means

  /** Three ordered occurrences that do not overlap. */
  ghost predicate CompleteAt(p: Pattern, s: seq<byte>, a: nat, b: nat, c: nat) {
    var f := Folded(s);
    Occurs(f, Folded(p.command), a) && Occurs(f, Folded(p.expected), b) && Occurs(f, Folded(p.prompt), c)
    && a + |p.command| <= b && b + |p.expected| <= c
  }

  ghost predicate Complete(p: Pattern, s: seq<byte>) {
    exists a: nat, b: nat, c: nat :: CompleteAt(p, s, a, b, c)
  }

  lemma OccursInPart(hay: seq<byte>, needle: seq<byte>, i: nat, from: nat, to: nat)
    requires from <= to <= |hay|
    ensures Occurs(hay[from..to], needle, i) <==> Occurs(hay, needle, from + i) && from + i + |needle| <= to
  {
    var n, part := |needle|, hay[from..to];
    if from + i + n <= to {
      var x, y := part[i..i + n], hay[from + i..from + i + n];
      assert forall k :: 0 <= k < n ==> x[k] == y[k];
      assert x == y;
    }
  }

  lemma CompleteInPart(p: Pattern, s: seq<byte>, from: nat, to: nat, a: nat, b: nat, c: nat)
    requires from <= to <= |s|
    ensures CompleteAt(p, s[from..to], a, b, c)
      <==> CompleteAt(p, s, from + a, from + b, from + c) && from + c + |p.prompt| <= to
  {
    var f := Folded(s);
    assert Folded(s[from..to]) == f[from..to];
    OccursInPart(f, Folded(p.command), a, from, to);
    OccursInPart(f, Folded(p.expected), b, from, to);
    OccursInPart(f, Folded(p.prompt), c, from, to);
  }

  /** No complete response ends before the one found; none is missed. */
  lemma FirstToEnd(p: Pattern, s: seq<byte>, a: nat, b: nat, c: nat)
    requires CompleteAt(p, s, a, b, c)
    ensures FindComplete(p, s).At? && FindComplete(p, s).index <= c + |p.prompt|
  {
    var f := Folded(s);
    var commandAt := Find(f, Folded(p.command), 0).index;
    var expectedAt := Find(f, Folded(p.expected), commandAt + |p.command|).index;
    assert commandAt <= a && expectedAt <= b;
  }

  lemma FoundIsComplete(p: Pattern, s: seq<byte>)
    requires FindComplete(p, s).At?
    ensures exists a: nat, b: nat, c: nat :: CompleteAt(p, s, a, b, c) && c + |p.prompt| == FindComplete(p, s).index
  {
    var f := Folded(s);
    var a := Find(f, Folded(p.command), 0).index;
    var b := Find(f, Folded(p.expected), a + |p.command|).index;
    var c := Find(f, Folded(p.prompt), b + |p.expected|).index;
    assert CompleteAt(p, s, a, b, c);
  }

  /** FindComplete finds the shortest complete prefix, if there is any. */
  lemma ShortestPrefix(p: Pattern, s: seq<byte>, n: nat)
    requires n <= |s|
    ensures Complete(p, s[..n]) <==> FindComplete(p, s).At? && FindComplete(p, s).index <= n
  {
    hide CompleteAt, FindComplete;
    assert s[0..n] == s[..n];
    if Complete(p, s[..n]) {
      var a: nat, b: nat, c: nat :| CompleteAt(p, s[..n], a, b, c);
      CompleteInPart(p, s, 0, n, a, b, c);
      FirstToEnd(p, s, a, b, c);
    }
    if FindComplete(p, s).At? && FindComplete(p, s).index <= n {
      FoundIsComplete(p, s);
      var a: nat, b: nat, c: nat :| CompleteAt(p, s, a, b, c) && c + |p.prompt| == FindComplete(p, s).index;
      CompleteInPart(p, s, 0, n, a, b, c);
    }
  }

  /** More bytes never change a response already found. */
  lemma StableUnderAppend(p: Pattern, s: seq<byte>, more: seq<byte>)
    requires FindComplete(p, s).At?
    ensures FindComplete(p, s + more) == FindComplete(p, s)
  {
    var t, n := s + more, FindComplete(p, s).index;
    hide FindComplete, Complete;
    assert t[..n] == s[..n] && s == t[..|s|];
    ShortestPrefix(p, s, n);
    ShortestPrefix(p, t, n);
    var m := FindComplete(p, t).index;
    assert t[..m] == s[..m];
    ShortestPrefix(p, t, m);
    ShortestPrefix(p, s, m);
  }

  // ---------------------------------------------------------- greedy cutting

  /** Three empty texts would be complete in no bytes at all, and be found forever. */
  ghost predicate Lengthy(p: Pattern) {
    |p.command| + |p.expected| + |p.prompt| > 0
  }

  lemma FoundTakesBytes(p: Pattern, s: seq<byte>)
    requires Lengthy(p) && FindComplete(p, s).At?
    ensures FindComplete(p, s).index > 0
  {}

  /** The responses got by taking the shortest complete prefix again and again, and
      what is left. */
  ghost function Cut(p: Pattern, s: seq<byte>): (r: (seq<seq<byte>>, seq<byte>))
    requires Lengthy(p)
    decreases |s|
  {
    if FindComplete(p, s).NotFound? then ([], s) else
      FoundTakesBytes(p, s);
      var n := FindComplete(p, s).index;
      var (more, rest) := Cut(p, s[n..]);
      ([s[..n]] + more, rest)
  }

  /** Cutting as bytes arrive gives what cutting them all at once gives. */
  lemma {:induction false} CutAppend(p: Pattern, s: seq<byte>, more: seq<byte>)
    requires Lengthy(p)
    ensures Cut(p, s + more).0 == Cut(p, s).0 + Cut(p, Cut(p, s).1 + more).0
    ensures Cut(p, s + more).1 == Cut(p, Cut(p, s).1 + more).1
    decreases |s|
  {
    hide FindComplete;
    if FindComplete(p, s).At? {
      var n := FindComplete(p, s).index;
      FoundTakesBytes(p, s);
      StableUnderAppend(p, s, more);
      assert (s + more)[..n] == s[..n] && (s + more)[n..] == s[n..] + more;
      CutAppend(p, s[n..], more);
    }
  }

  /** Any arrival of the stream in pieces, cutting after each. */
  ghost function CutPieces(p: Pattern, pieces: seq<seq<byte>>, pending: seq<byte>): (seq<seq<byte>>, seq<byte>)
    requires Lengthy(p)
  {
    if pieces == [] then Cut(p, pending) else
      var (some, rest) := Cut(p, pending);
      var (more, last) := CutPieces(p, pieces[1..], rest + pieces[0]);
      (some + more, last)
  }

  lemma {:induction false} PiecesCutAlike(p: Pattern, pieces: seq<seq<byte>>, pending: seq<byte>)
    requires Lengthy(p)
    ensures CutPieces(p, pieces, pending) == Cut(p, pending + Flatten(pieces))
  {
    hide Cut;
    if pieces == [] {
      assert pending + Flatten(pieces) == pending;
    } else {
      var rest := Cut(p, pending).1;
      PiecesCutAlike(p, pieces[1..], rest + pieces[0]);
      assert rest + pieces[0] + Flatten(pieces[1..]) == rest + Flatten(pieces);
      CutAppend(p, pending, Flatten(pieces));
    }
  }

  /** Disjoint stretches of the stream, in order, each holding a complete response. */
  datatype Stretch = Stretch(from: nat, to: nat)

  ghost predicate Disjoint(p: Pattern, s: seq<byte>, cuts: seq<Stretch>) {
    && (forall i :: 0 <= i < |cuts| ==> cuts[i].from <= cuts[i].to <= |s| && Complete(p, s[cuts[i].from..cuts[i].to]))
    && (forall i :: 0 < i < |cuts| ==> cuts[i - 1].to <= cuts[i].from)
  }

  lemma CompleteInLonger(p: Pattern, s: seq<byte>, from: nat, to: nat, from': nat, to': nat)
    requires from' <= from <= to <= to' <= |s| && Complete(p, s[from..to])
    ensures Complete(p, s[from'..to'])
  {
    hide CompleteAt;
    var a: nat, b: nat, c: nat :| CompleteAt(p, s[from..to], a, b, c);
    CompleteInPart(p, s, from, to, a, b, c);
    var d := from - from';
    CompleteInPart(p, s, from', to', d + a, d + b, d + c);
    assert CompleteAt(p, s[from'..to'], d + a, d + b, d + c);
  }

  /** No disjoint choice holds more complete responses than the greedy one. */
  lemma {:induction false} GreedyIsOptimal(p: Pattern, s: seq<byte>, cuts: seq<Stretch>)
    requires Lengthy(p) && Disjoint(p, s, cuts)
    ensures |cuts| <= |Cut(p, s).0|
    decreases |s|
  {
    hide FindComplete, Complete;
    if cuts != [] {
      var first := cuts[0];
      CompleteInLonger(p, s, first.from, first.to, 0, first.to);
      assert s[0..first.to] == s[..first.to];
      ShortestPrefix(p, s, first.to);
      FoundTakesBytes(p, s);
      var n := FindComplete(p, s).index;
      var rest := seq(|cuts| - 1, i requires 0 <= i < |cuts| - 1 => ShiftBack(cuts[i + 1], n));
      StretchesShift(p, s, cuts, n, rest);
      GreedyIsOptimal(p, s[n..], rest);
    }
  }

  function ShiftBack(c: Stretch, n: nat): Stretch {
    Stretch(if c.from >= n then c.from - n else 0, if c.to >= n then c.to - n else 0)
  }

  lemma {:induction false} FromsIncrease(p: Pattern, s: seq<byte>, cuts: seq<Stretch>, i: nat)
    requires Disjoint(p, s, cuts) && 0 < i < |cuts|
    ensures cuts[0].to <= cuts[i].from
  {
    assert cuts[i - 1].to <= cuts[i].from;
    if i > 1 {
      FromsIncrease(p, s, cuts, i - 1);
    }
  }

  lemma StretchesShift(p: Pattern, s: seq<byte>, cuts: seq<Stretch>, n: nat, rest: seq<Stretch>)
    requires Disjoint(p, s, cuts) && cuts != [] && n <= cuts[0].to && |rest| == |cuts| - 1
    requires forall i :: 0 <= i < |rest| ==> rest[i] == ShiftBack(cuts[i + 1], n)
    ensures n <= |s| && Disjoint(p, s[n..], rest)
  {
    hide Complete;
    forall i | 0 <= i < |rest|
      ensures rest[i].from <= rest[i].to <= |s[n..]| && Complete(p, s[n..][rest[i].from..rest[i].to])
      ensures i > 0 ==> rest[i - 1].to <= rest[i].from
    {
      var c := cuts[i + 1];
      FromsIncrease(p, s, cuts, i + 1);
      assert s[n..][rest[i].from..rest[i].to] == s[c.from..c.to];
      assert cuts[i].to <= c.from;
    }
  }

  lemma FlattenFirst(x: seq<byte>, more: seq<seq<byte>>)
    ensures Flatten([x] + more) == x + Flatten(more)
  {
    assert ([x] + more)[1..] == more;
  }

  lemma CutNext(p: Pattern, s: seq<byte>)
    requires Lengthy(p)
    ensures match FindComplete(p, s)
      case NotFound => Cut(p, s) == ([], s) && Flatten<byte>([]) + s == s
      case At(n) => n <= |s| && Cut(p, s) == ([s[..n]] + Cut(p, s[n..]).0, Cut(p, s[n..]).1)
  {
    hide FindComplete;
  }

  lemma JoinedParts(a: seq<byte>, b: seq<byte>, c: seq<byte>, s: seq<byte>, n: nat)
    requires n <= |s| && a == s[..n] && b + c == s[n..]
    ensures a + b + c == s
  {
    assert a + b + c == a + (b + c);
  }

  /** ... and the greedy one is such a choice: its parts are complete, and with the
      rest they make up the stream. */
  lemma {:induction false} GreedyIsCut(p: Pattern, s: seq<byte>)
    requires Lengthy(p)
    ensures Flatten(Cut(p, s).0) + Cut(p, s).1 == s && FindComplete(p, Cut(p, s).1).NotFound?
    ensures forall i :: 0 <= i < |Cut(p, s).0| ==> Complete(p, Cut(p, s).0[i])
    decreases |s|
  {
    hide FindComplete, Complete, Flatten, Cut;
    CutNext(p, s);
    if FindComplete(p, s).At? {
      var n := FindComplete(p, s).index;
      FoundTakesBytes(p, s);
      GreedyIsCut(p, s[n..]);
      ShortestPrefix(p, s, n);
      FlattenFirst(s[..n], Cut(p, s[n..]).0);
      JoinedParts(s[..n], Flatten(Cut(p, s[n..]).0), Cut(p, s[n..]).1, s, n);
    }
  }
}
