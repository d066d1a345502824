/** What a stream of bytes typed at the console means: its lines. */
module ConsoleStream {
  import opened Bytes

  const LINE_MAX: nat := 256
  const LF: byte := 10
  const CR: byte := 13
  const BACKSPACE: byte := 8
  const DELETE: byte := 127

  type Line = seq<byte>

  predicate IsPrint(b: byte) { 32 <= b < 127 }

  predicate Printable(l: Line) { forall k :: 0 <= k < |l| ==> IsPrint(l[k]) }

  // ----- the line discipline as a fold over single bytes -----

  datatype Rx = Rx(lines: seq<Line>, partial: Line)

  function Feed(r: Rx, b: byte): Rx {
    if b == LF then Rx(r.lines + [r.partial], [])
    else if IsPrint(b) && |r.partial| + 1 < LINE_MAX then Rx(r.lines, r.partial + [b])
    else Rx(r.lines, [])
  }

  function FoldFrom(r: Rx, bs: seq<byte>): Rx
    decreases |bs|
  {
    if bs == [] then r else FoldFrom(Feed(r, bs[0]), bs[1..])
  }

  function Fold(bs: seq<byte>): Rx { FoldFrom(Rx([], []), bs) }

  /** However a stream is cut in two, folding the parts in turn folds the whole. */
  lemma {:induction false} FoldSplits(r: Rx, a: seq<byte>, b: seq<byte>)
    ensures FoldFrom(r, a + b) == FoldFrom(FoldFrom(r, a), b)
    decreases |a|
  {
    if a == [] {
      assert a + b == b;
    } else {
      assert (a + b)[1..] == a[1..] + b;
      FoldSplits(Feed(r, a[0]), a[1..], b);
    }
  }

  lemma FoldSnoc(bs: seq<byte>, b: byte)
    ensures Fold(bs + [b]) == Feed(Fold(bs), b)
  {
    FoldSplits(Rx([], []), bs, [b]);
    assert [b][1..] == [];
  }

  /** Every line and the unfinished line are printable and shorter than a buffer. */
  lemma {:induction false} FoldIsClean(r: Rx, bs: seq<byte>)
    requires |r.partial| < LINE_MAX && Printable(r.partial)
    requires forall l :: l in r.lines ==> |l| < LINE_MAX && Printable(l)
    ensures var f := FoldFrom(r, bs);
            && |f.partial| < LINE_MAX && Printable(f.partial)
            && (forall l :: l in f.lines ==> |l| < LINE_MAX && Printable(l))
    decreases |bs|
  {
    if bs != [] {
      FoldIsClean(Feed(r, bs[0]), bs[1..]);
    }
  }

  /** The bytes a user types to enter the given lines. */
  function Typed(lines: seq<Line>): seq<byte> {
    if lines == [] then [] else lines[0] + [LF] + Typed(lines[1..])
  }

  lemma {:induction false} FoldPrintable(r: Rx, l: Line)
    requires Printable(l) && |r.partial| + |l| < LINE_MAX
    ensures FoldFrom(r, l) == Rx(r.lines, r.partial + l)
    decreases |l|
  {
    if l == [] {
      assert r.partial + l == r.partial;
    } else {
      assert IsPrint(l[0]);
      FoldPrintable(Feed(r, l[0]), l[1..]);
      assert r.partial + [l[0]] + l[1..] == r.partial + l;
    }
  }

  lemma FoldOneLine(done: seq<Line>, l: Line)
    requires |l| < LINE_MAX && Printable(l)
    ensures FoldFrom(Rx(done, []), l + [LF]) == Rx(done + [l], [])
  {
    FoldSplits(Rx(done, []), l, [LF]);
    FoldPrintable(Rx(done, []), l);
    assert [] + l == l && [LF][1..] == [];
  }

  /** Typing lines and folding the stream gives the same lines back. */
  lemma {:induction false} FoldUndoesTyping(done: seq<Line>, lines: seq<Line>)
    requires forall l :: l in lines ==> |l| < LINE_MAX && Printable(l)
    ensures FoldFrom(Rx(done, []), Typed(lines)) == Rx(done + lines, [])
    decreases |lines|
  {
    if lines == [] {
      assert done + lines == done;
    } else {
      var l, rest := lines[0], Typed(lines[1..]);
      FoldSplits(Rx(done, []), l + [LF], rest);
      FoldOneLine(done, l);
      FoldUndoesTyping(done + [l], lines[1..]);
      assert done + [l] + lines[1..] == done + lines;
    }
  }

  /** With echo, a console must not hear erasing bytes; without echo they are bytes like others. */
  predicate KeepsText(echo: bool, bs: seq<byte>) { echo ==> BACKSPACE !in bs && DELETE !in bs }

  lemma HeardIsClean(bs: seq<byte>)
    ensures |Fold(bs).partial| < LINE_MAX && Printable(Fold(bs).partial)
  {
    FoldIsClean(Rx([], []), bs);
  }

  // ----- every line of a stream -----

  /** Bytes that a terminal shows. */
  predicate Shows(w: seq<byte>) { forall k :: 0 <= k < |w| ==> 32 <= w[k] <= 126 }

  /** A buffer that fills up starts again: what is left is the end of the text, less than 256 bytes. */
  function Kept(w: seq<byte>): seq<byte> { w[|w| - |w| % 256..] }

  lemma {:induction false} RunIsKept(r: Rx, w: seq<byte>)
    requires |r.partial| < 256 && Shows(w)
    ensures FoldFrom(r, w) == Rx(r.lines, Kept(r.partial + w))
    decreases |w|
  {
    if w == [] {
      assert r.partial + w == r.partial;
    } else {
      RunIsKept(Feed(r, w[0]), w[1..]);
      KeptStep(r.partial, w);
    }
  }

  lemma KeptStep(p: seq<byte>, w: seq<byte>)
    requires |p| < 256 && w != []
    ensures Kept((if |p| < 255 then p + [w[0]] else []) + w[1..]) == Kept(p + w)
  {
    if |p| < 255 {
      assert p + [w[0]] + w[1..] == p + w;
    } else {
      var n := |w| - 1;
      assert (n + 256) % 256 == n % 256;
      assert |p + w| == n + 256 && [] + w[1..] == w[1..];
      assert (p + w)[256..] == w[1..];
    }
  }

  /** Any other byte but a line feed makes the line start again. */
  lemma OtherByteRestarts(a: seq<byte>, b: byte)
    requires (b < 32 || b > 126) && b != 10
    ensures Fold(a + [b]) == Rx(Fold(a).lines, [])
  {
    FoldSnoc(a, b);
  }

  /** So does a text that fills the buffer. */
  lemma FullBufferRestarts(a: seq<byte>, run: seq<byte>)
    requires Shows(run) && (|Fold(a).partial| + |run|) % 256 == 0
    ensures Fold(a + run) == Rx(Fold(a).lines, [])
  {
    HeardIsClean(a);
    FoldSplits(Rx([], []), a, run);
    RunIsKept(Fold(a), run);
  }

  /** A line feed ends the line, whatever it is. */
  lemma LineFeedEnds(a: seq<byte>)
    ensures Fold(a + [10]) == Rx(Fold(a).lines + [Fold(a).partial], [])
  {
    FoldSnoc(a, 10);
  }

  /** The line behind a place where lines start is what was typed since, as far as it fits. */
  lemma LineBehind(a: seq<byte>, w: seq<byte>)
    requires Fold(a).partial == [] && Shows(w)
    ensures Fold(a + w + [10]).lines == Fold(a).lines + [Kept(w)]
  {
    FoldSplits(Rx([], []), a, w);
    RunIsKept(Fold(a), w);
    LineFeedEnds(a + w);
    hide Fold, FoldFrom, Kept;
    assert [] + w == w;
  }

  lemma ShortIsKept(w: seq<byte>)
    requires |w| < 256
    ensures Kept(w) == w
  {}

  /** Nothing of what was typed before a byte that is no text gets into the line behind it. */
  lemma LineBehindByte(a: seq<byte>, b: byte, l: seq<byte>)
    requires (b < 32 || b > 126) && b != 10 && Shows(l) && |l| < 256
    ensures Fold(a + [b] + l + [10]).lines == Fold(a).lines + [l]
  {
    OtherByteRestarts(a, b);
    LineBehind(a + [b], l);
    ShortIsKept(l);
  }

  lemma LineBehindRun(a: seq<byte>, run: seq<byte>, l: seq<byte>)
    requires Shows(run) && (|Fold(a).partial| + |run|) % 256 == 0 && Shows(l) && |l| < 256
    ensures Fold(a + run + l + [10]).lines == Fold(a).lines + [l]
  {
    FullBufferRestarts(a, run);
    LineBehind(a + run, l);
    ShortIsKept(l);
  }

  lemma LinesGrow(a: seq<byte>, b: seq<byte>)
    ensures Fold(a).lines <= Fold(a + b).lines
  {
    FoldSplits(Rx([], []), a, b);
    LinesGrowFrom(Fold(a), b);
  }

  lemma {:induction false} LinesGrowFrom(r: Rx, bs: seq<byte>)
    ensures r.lines <= FoldFrom(r, bs).lines
    decreases |bs|
  {
    if bs != [] {
      LinesGrowFrom(Feed(r, bs[0]), bs[1..]);
    }
  }

  lemma LeadingNul(bs: seq<byte>)
    ensures Fold([0] + bs) == Fold(bs)
  {
    assert ([0] + bs)[1..] == bs;
  }

  // ----- carriage returns -----

  lemma Assoc(a: seq<byte>, b: seq<byte>, c: seq<byte>)
    ensures a + (b + c) == a + b + c
  {}

  /** How the bytes `a` may be heard as `h`: a CR ends a line like LF, and an LF behind it is swallowed, or heard as
      the end of another, empty line if it came too late. */
  predicate Reading(a: seq<byte>, h: seq<byte>)
    decreases |a|
  {
    if a == [] then h == []
    else if h == [] then false
    else if a[0] != 13 then h[0] == a[0] && Reading(a[1..], h[1..])
    else h[0] == 10 && (Reading(a[1..], h[1..]) || (|a| >= 2 && a[1] == 10 && Reading(a[2..], h[1..])))
  }

  lemma {:induction false} ReadingJoins(a: seq<byte>, h: seq<byte>, b: seq<byte>, g: seq<byte>)
    requires Reading(a, h) && Reading(b, g)
    ensures Reading(a + b, h + g)
    decreases |a|
  {
    if a == [] {
      assert a + b == b && h + g == g;
    } else {
      assert (a + b)[1..] == a[1..] + b && (h + g)[1..] == h[1..] + g;
      if Reading(a[1..], h[1..]) {
        ReadingJoins(a[1..], h[1..], b, g);
      } else {
        assert (a + b)[2..] == a[2..] + b;
        ReadingJoins(a[2..], h[1..], b, g);
      }
    }
  }

  /** Without CR, every byte is heard as it is. */
  lemma {:induction false} ReadingIsSame(a: seq<byte>, h: seq<byte>)
    requires 13 !in a
    ensures Reading(a, h) <==> a == h
    decreases |a|
  {
    if a != [] && h != [] {
      ReadingIsSame(a[1..], h[1..]);
      assert a == [a[0]] + a[1..] && h == [h[0]] + h[1..];
    }
  }

  /** The stream with each CR as a line end of its own. */
  function Ended(a: seq<byte>): seq<byte> { seq(|a|, i requires 0 <= i < |a| => if a[i] == 13 then 10 else a[i]) }

  function NonEmpty(lines: seq<Line>): seq<Line> {
    if lines == [] then []
    else NonEmpty(lines[..|lines| - 1]) + if lines[|lines| - 1] == [] then [] else [lines[|lines| - 1]]
  }

  /** The same lines but for empty ones, of which the second may have more. */
  predicate Alike(r: Rx, q: Rx) {
    r.partial == q.partial && NonEmpty(r.lines) == NonEmpty(q.lines) && |r.lines| <= |q.lines|
  }

  lemma AlikeFed(r: Rx, q: Rx, b: byte)
    requires Alike(r, q)
    ensures Alike(Feed(r, b), Feed(q, b))
  {
    if b == LF {
      OneMore(r.lines, r.partial);
      OneMore(q.lines, q.partial);
    }
  }

  lemma OneMore(lines: seq<Line>, l: Line)
    ensures NonEmpty(lines + [l]) == NonEmpty(lines) + if l == [] then [] else [l]
  {
    assert (lines + [l])[..|lines|] == lines;
  }

  /** However CR and LF were heard, the lines are the same but for empty ones. */
  lemma {:induction false} ReadingsAreAlike(r: Rx, q: Rx, a: seq<byte>, h: seq<byte>)
    requires Reading(a, h) && Alike(r, q)
    ensures Alike(FoldFrom(r, h), FoldFrom(q, Ended(a)))
    decreases |a|
  {
    if a != [] {
      assert Ended(a)[1..] == Ended(a[1..]);
      AlikeFed(r, q, h[0]);
      if Reading(a[1..], h[1..]) {
        ReadingsAreAlike(Feed(r, h[0]), Feed(q, h[0]), a[1..], h[1..]);
      } else {
        var q1 := Feed(q, 10);
        assert Ended(a)[1..][1..] == Ended(a[2..]);
        OneMore(q1.lines, []);
        ReadingsAreAlike(Feed(r, 10), Feed(q1, 10), a[2..], h[1..]);
      }
    }
  }

  /** From `heard` with `unheard` to come, to `heard'` with `unheard'` to come: only bytes in between were heard. */
  ghost predicate ReadsTo(heard: seq<byte>, unheard: seq<byte>, heard': seq<byte>, unheard': seq<byte>) {
    && heard <= heard' && |unheard'| <= |unheard| && unheard[|unheard| - |unheard'|..] == unheard'
    && Reading(unheard[..|unheard| - |unheard'|], heard'[|heard|..])
  }

  lemma ReadsNothing(heard: seq<byte>, unheard: seq<byte>)
    ensures ReadsTo(heard, unheard, heard, unheard)
  {}

  lemma ReadsOn(h1: seq<byte>, u1: seq<byte>, h2: seq<byte>, u2: seq<byte>, h3: seq<byte>, u3: seq<byte>)
    requires ReadsTo(h1, u1, h2, u2) && ReadsTo(h2, u2, h3, u3)
    ensures ReadsTo(h1, u1, h3, u3)
  {
    var i, j := |u1| - |u2|, |u2| - |u3|;
    ReadingJoins(u1[..i], h2[|h1|..], u2[..j], h3[|h2|..]);
    assert u1[..i] + u2[..j] == u1[..i + j];
    assert h2[|h1|..] + h3[|h2|..] == h3[|h1|..];
  }

  lemma ReadsMore(h1: seq<byte>, u1: seq<byte>, h2: seq<byte>, u2: seq<byte>, more: seq<byte>)
    requires ReadsTo(h1, u1, h2, u2)
    ensures ReadsTo(h1, u1 + more, h2, u2 + more)
  {
    assert (u1 + more)[..|u1| - |u2|] == u1[..|u1| - |u2|];
  }

  lemma ReadsSame(heard: seq<byte>, unheard: seq<byte>, heard': seq<byte>, unheard': seq<byte>)
    requires ReadsTo(heard, unheard, heard', unheard') && 13 !in unheard
    ensures heard + unheard == heard' + unheard' && 13 !in unheard'
  {
    var n := |unheard| - |unheard'|;
    ReadingIsSame(unheard[..n], heard'[|heard|..]);
    assert heard' == heard + heard'[|heard|..] && unheard == unheard[..n] + unheard[n..];
  }

  /** All of a stream has been heard but for `unheard`: its lines, but for empty ones, and no more of them. */
  lemma ReadsLines(arrived: seq<byte>, heard: seq<byte>, unheard: seq<byte>)
    requires ReadsTo([], arrived, heard, unheard)
    ensures |Fold(heard).lines| <= |Fold(Ended(arrived)).lines|
    ensures unheard == [] ==> NonEmpty(Fold(heard).lines) == NonEmpty(Fold(Ended(arrived)).lines)
    ensures unheard == [] ==> Fold(heard).partial == Fold(Ended(arrived)).partial
  {
    var n := |arrived| - |unheard|;
    assert heard[0..] == heard;
    ReadingsAreAlike(Rx([], []), Rx([], []), arrived[..n], heard);
    LinesGrow(Ended(arrived[..n]), Ended(arrived[n..]));
    assert Ended(arrived[..n]) + Ended(arrived[n..]) == Ended(arrived);
    assert unheard == [] ==> arrived[..n] == arrived;
  }

  // ----- one buffer -----

  /** Where the first line of a stream ends. */
  function FirstEnd(u: seq<byte>): (k: nat)
    ensures k <= |u| && (k < |u| ==> u[k] == 10 || u[k] == 13)
    ensures forall i :: 0 <= i < k ==> u[i] != 10 && u[i] != 13
  {
    if u == [] || u[0] == 10 || u[0] == 13 then 0 else 1 + FirstEnd(u[1..])
  }

  lemma {:induction false} FirstEndIs(u: seq<byte>, k: nat)
    requires k <= |u| && (k < |u| ==> u[k] == 10 || u[k] == 13)
    requires forall i :: 0 <= i < k ==> u[i] != 10 && u[i] != 13
    ensures FirstEnd(u) == k
  {
    if k > 0 {
      FirstEndIs(u[1..], k - 1);
    }
  }

  /** The first k bytes of the stream, none of which ends a line, are heard. */
  ghost predicate HeardTo(heard: seq<byte>, u: seq<byte>, heard': seq<byte>, u': seq<byte>, k: nat) {
    && k <= |u| && heard' == heard + u[..k] && u' == u[k..]
    && forall i :: 0 <= i < k ==> u[i] != 10 && u[i] != 13
  }

  lemma HeardNothing(heard: seq<byte>, u: seq<byte>)
    ensures HeardTo(heard, u, heard, u, 0)
  {}

  lemma HeardOn(heard: seq<byte>, u: seq<byte>, heard': seq<byte>, u': seq<byte>, k: nat)
    requires HeardTo(heard, u, heard', u', k) && u' != [] && u'[0] != 10 && u'[0] != 13
    ensures HeardTo(heard, u, heard' + [u'[0]], u'[1..], k + 1)
  {
    assert u[..k + 1] == u[..k] + [u[k]];
  }

  lemma HeardToEnd(heard: seq<byte>, u: seq<byte>, heard': seq<byte>, u': seq<byte>, k: nat)
    requires HeardTo(heard, u, heard', u', k) && (u' == [] || u'[0] == 10 || u'[0] == 13)
    ensures FirstEnd(u) == k && heard' == heard + u[..k] && (u' == [] <==> k == |u|)
    ensures u' != [] ==> u'[0] == u[k] && u'[1..] == u[k + 1..]
  {
    FirstEndIs(u, k);
  }

  /** What serving one buffer does: everything is heard up to the first line end. Behind a CR, an LF that is there is
      swallowed, and any other byte that is there stays and asks for another turn. */
  ghost predicate Served(heard: seq<byte>, u: seq<byte>, heard': seq<byte>, u': seq<byte>, again: bool) {
    var k := FirstEnd(u);
    if k == |u| then heard' == heard + u && u' == [] && !again
    else
      && heard' == heard + u[..k] + [10]
      && if u[k] == 13 && k + 1 < |u| && u[k + 1] == 10 then u' == u[k + 2..] && !again
         else u' == u[k + 1..] && (again <==> u[k] == 13 && k + 1 < |u|)
  }

  lemma MakeServed(heard: seq<byte>, u: seq<byte>, heard': seq<byte>, u': seq<byte>, again: bool)
    requires var k := FirstEnd(u);
             if k == |u| then heard' == heard + u[..k] && u' == [] && !again
             else
               && heard' == heard + u[..k] + [10]
               && var r := u[k + 1..];
                  if u[k] == 13 && r != [] then again == (r[0] != 10) && u' == if r[0] == 10 then r[1..] else r
                  else u' == r && !again
    ensures Served(heard, u, heard', u', again)
  {
    var k := FirstEnd(u);
    if k < |u| {
      assert k + 1 < |u| ==> u[k + 1..][0] == u[k + 1] && u[k + 1..][1..] == u[k + 2..];
    } else {
      assert u[..k] == u;
    }
  }

  lemma ServedReads(heard: seq<byte>, u: seq<byte>, heard': seq<byte>, u': seq<byte>, again: bool)
    requires Served(heard, u, heard', u', again)
    ensures ReadsTo(heard, u, heard', u')
    ensures u != [] ==> |u'| < |u|
    ensures again ==> 13 in u
  {
    var k := FirstEnd(u);
    var n := |u| - |u'|;
    ReadingIsSame(u[..k], u[..k]);
    if k < |u| {
      assert Reading(u[k..n], [10]) by {
        assert u[k..n][0] == u[k] && u[k..n][1..] == u[k + 1..n] && [10][1..] == [];
        assert n == k + 2 ==> u[k..n][1] == u[k + 1] && u[k..n][2..] == [];
        assert Reading([], []);
      }
      ReadingJoins(u[..k], u[..k], u[k..n], [10]);
      assert u[..k] + u[k..n] == u[..n];
      assert heard'[|heard|..] == u[..k] + [10];
    } else {
      assert heard'[|heard|..] == u && u[..k] == u;
    }
  }
}
