/** The byte queue of the AT parser: a ring buffer refilled in windows from a callback. */
module AtQueue {
  import opened Bytes

  const WINDOW: nat := 32

  datatype Answer = Empty | Byte(value: byte)

  /** What a source still has to deliver, cut into the windows of its future calls. */
  class Source {
    var windows: seq<seq<byte>>

    constructor (windows: seq<seq<byte>>)
      requires forall i :: 0 <= i < |windows| ==> |windows[i]| <= WINDOW
      ensures this.windows == windows && Valid()
    {
      this.windows := windows;
    }

    ghost predicate Valid()
      reads this
    {
      forall i :: 0 <= i < |windows| ==> |windows[i]| <= WINDOW
    }

    /** The next window; nothing once there are no more. */
    method Deliver() returns (window: seq<byte>)
      requires Valid()
      modifies this
      ensures Valid()
      ensures old(windows) == [] ==> window == [] && windows == []
      ensures old(windows) != [] ==> window == old(windows)[0] && windows == old(windows)[1..]
    {
      if windows == [] {
        return [];
      }
      window, windows := windows[0], windows[1..];
    }
  }

  class Queue {
    const buf: array<byte>
    const callback: Source?
    var ridx: nat
    var widx: nat
    var cnt: nat

    ghost predicate Valid()
      reads this, buf, callback
    {
      && cnt <= buf.Length && ridx < buf.Length
      && widx == Wrapped(ridx + cnt, buf.Length)
      && (callback != null ==> callback.Valid() && Fit(callback.windows, buf.Length))
    }

    /** The bytes that are queued, oldest first. */
    ghost function Content(): (s: seq<byte>)
      requires ridx < buf.Length && cnt <= buf.Length
      reads this, buf
      ensures |s| == cnt
    {
      Ring(buf[..], ridx, cnt)
    }

    ghost function Coming(): seq<seq<byte>>
      reads this, callback
    {
      if callback == null then [] else callback.windows
    }

    constructor (buf: array<byte>, cb: Source)
      requires buf.Length > 0 && cb.Valid() && Fit(cb.windows, buf.Length)
      ensures Valid() && Content() == [] && this.buf == buf && callback == cb
    {
      this.buf, callback := buf, cb;
      ridx, widx, cnt := 0, 0, 0;
    }

    /** Stores a byte behind the others. */
    method Store(b: byte)
      requires Valid() && cnt < buf.Length
      modifies this`widx, this`cnt, buf
      ensures Valid() && cnt == old(cnt) + 1 && Content() == old(Content()) + [b]
    {
      ghost var was := buf[..];
      RingGrows(was, ridx, cnt, b);
      buf[widx] := b;
      assert buf[..] == was[widx := b];
      widx := widx + 1;
      if widx >= buf.Length {
        widx := 0;
      }
      cnt := cnt + 1;
    }

    /** Asks for another window if nothing is queued. */
    method Fill() returns (ok: bool)
      requires Valid()
      modifies this`widx, this`cnt, buf, callback
      ensures Valid() && (ok <==> cnt > 0)
      ensures old(cnt) > 0 ==> Content() == old(Content()) && Coming() == old(Coming())
      ensures old(cnt) == 0 && old(Coming()) == [] ==> !ok && Coming() == []
      ensures old(cnt) == 0 && old(Coming()) != []
          ==> Content() == old(Coming())[0] && Coming() == old(Coming())[1..]
    {
      ok := true;
      if cnt == 0 {
        if callback == null {
          return false;
        }
        var window := callback.Deliver();
        if window == [] {
          return false;
        }
        assert Content() == [] && |window| <= buf.Length;
        for i := 0 to |window|
          invariant Valid() && cnt == i && Content() == window[..i]
          invariant Coming() == if old(Coming()) == [] then [] else old(Coming())[1..]
        {
          assert window[..i + 1] == window[..i] + [window[i]];
          Store(window[i]);
        }
        assert window[..|window|] == window;
      }
    }

    /** at_queue_get: takes the oldest byte. */
    method Get() returns (r: Answer)
      requires Valid()
      modifies this`ridx, this`widx, this`cnt, buf, callback
      ensures Valid()
      ensures GetAnswer(old(Content()), old(Coming())) == (r, Content(), Coming())
    {
      var ok := Fill();
      if !ok {
        return Empty;
      }
      RingShrinks(buf[..], ridx, cnt);
      r := Byte(buf[ridx]);
      ridx := ridx + 1;
      if ridx >= buf.Length {
        ridx := 0;
      }
      cnt := cnt - 1;
    }

    /** at_queue_peek: shows the oldest byte and leaves it. */
    method Peek() returns (r: Answer)
      requires Valid()
      modifies this`widx, this`cnt, buf, callback
      ensures Valid()
      ensures PeekAnswer(old(Content()), old(Coming())) == (r, Content(), Coming())
    {
      var ok := Fill();
      if !ok {
        return Empty;
      }
      assert Content()[0] == buf[..][Wrapped(ridx + 0, buf.Length)];
      r := Byte(buf[ridx]);
    }
  }

  /** No window is larger than the queue; with 32 bytes or more this is no restriction. */
  ghost predicate Fit(windows: seq<seq<byte>>, size: nat) {
    forall i :: 0 <= i < |windows| ==> |windows[i]| <= size
  }

  /** at_queue_init: a missing buffer or callback is refused. */
  method Init(buf: array?<byte>, cb: Source?) returns (code: int, q: Queue?)
    requires buf != null && cb != null ==> buf.Length > 0 && cb.Valid() && Fit(cb.windows, buf.Length)
    ensures code == -1 <==> buf == null || cb == null
    ensures code == if q == null then -1 else 0
    ensures q != null ==> fresh(q) && q.Valid() && q.Content() == [] && q.buf == buf && q.callback == cb
  {
    code, q := -1, null;
    if buf != null && cb != null {
      code := 0;
      q := new Queue(buf, cb);
    }
  }

  // ----- rings -----

  /** An index that has run past the end at most once. */
  function Wrapped(i: nat, size: nat): nat { if i >= size then i - size else i }

  ghost function Ring(b: seq<byte>, from: nat, n: nat): seq<byte>
    requires from < |b| && n <= |b|
  {
    seq(n, i requires 0 <= i < n => b[Wrapped(from + i, |b|)])
  }

  lemma RingGrows(b: seq<byte>, from: nat, n: nat, x: byte)
    requires from < |b| && n < |b|
    ensures Ring(b[Wrapped(from + n, |b|) := x], from, n + 1) == Ring(b, from, n) + [x]
  {
    var r, s := Ring(b[Wrapped(from + n, |b|) := x], from, n + 1), Ring(b, from, n) + [x];
    forall i | 0 <= i < |r|
      ensures r[i] == s[i]
    {
      assert i < n ==> Wrapped(from + i, |b|) != Wrapped(from + n, |b|);
    }
  }

  lemma RingShrinks(b: seq<byte>, from: nat, n: nat)
    requires from < |b| && 0 < n <= |b|
    ensures Ring(b, from, n) == [b[from]] + Ring(b, Wrapped(from + 1, |b|), n - 1)
    ensures Wrapped(Wrapped(from + 1, |b|) + (n - 1), |b|) == Wrapped(from + n, |b|)
  {
    var r, s := Ring(b, from, n), [b[from]] + Ring(b, Wrapped(from + 1, |b|), n - 1);
    assert r[0] == b[Wrapped(from + 0, |b|)];
    forall i | 0 < i < n
      ensures r[i] == s[i]
    {
      var next := Wrapped(from + 1, |b|);
      assert s[i] == Ring(b, next, n - 1)[i - 1] == b[Wrapped(next + (i - 1), |b|)];
      assert Wrapped(next + (i - 1), |b|) == Wrapped(from + i, |b|);
    }
  }

  // ----- what the operations do to the queued bytes and the windows to come -----

  type State = (seq<byte>, seq<seq<byte>>)

  /** An empty window counts as nothing to deliver, for this call. */
  ghost function Refilled(s: State): State {
    if s.0 != [] || s.1 == [] then s else (s.1[0], s.1[1..])
  }

  ghost function PeekAnswer(content: seq<byte>, coming: seq<seq<byte>>): (Answer, seq<byte>, seq<seq<byte>>) {
    var s := Refilled((content, coming));
    if s.0 == [] then (Empty, s.0, s.1) else (Byte(s.0[0]), s.0, s.1)
  }

  ghost function GetAnswer(content: seq<byte>, coming: seq<seq<byte>>): (Answer, seq<byte>, seq<seq<byte>>) {
    var s := Refilled((content, coming));
    if s.0 == [] then (Empty, s.0, s.1) else (Byte(s.0[0]), s.0[1..], s.1)
  }

  // ----- runs -----

  datatype Call = DoGet | DoPeek

  ghost function Flat(ws: seq<seq<byte>>): seq<byte> { if ws == [] then [] else ws[0] + Flat(ws[1..]) }

  /** Everything that is queued or to come. */
  ghost function Pending(s: State): seq<byte> { s.0 + Flat(s.1) }

  /** The state after a run of calls. */
  ghost function After(s: State, calls: seq<Call>): State {
    if calls == [] then s
    else
      var t := After(s, calls[..|calls| - 1]);
      if calls[|calls| - 1] == DoGet then var a := GetAnswer(t.0, t.1); (a.1, a.2)
      else var a := PeekAnswer(t.0, t.1); (a.1, a.2)
  }

  /** The bytes that the gets of a run have returned. */
  ghost function Got(s: State, calls: seq<Call>): seq<byte> {
    if calls == [] then []
    else
      var n := |calls| - 1;
      var t := After(s, calls[..n]);
      var answer := GetAnswer(t.0, t.1).0;
      Got(s, calls[..n]) + if calls[n] == DoGet && answer.Byte? then [answer.value] else []
  }

  lemma RefillKeepsPending(s: State)
    ensures Pending(Refilled(s)) == Pending(s)
  {}

  /** Over any run of gets and peeks, the bytes got so far and those still pending are what there was to get. */
  lemma {:induction false} NothingIsLost(s: State, calls: seq<Call>)
    ensures Got(s, calls) + Pending(After(s, calls)) == Pending(s)
    decreases |calls|
  {
    if calls != [] {
      var n := |calls| - 1;
      NothingIsLost(s, calls[..n]);
      var t := After(s, calls[..n]);
      RefillKeepsPending(t);
      var u := Refilled(t);
      if calls[n] == DoGet && u.0 != [] {
        assert u.0 == [u.0[0]] + u.0[1..];
      }
    }
  }

  /** A peek tells what the next get will return, and peeking again changes nothing. */
  lemma PeekForetellsGet(s: State)
    ensures var p := PeekAnswer(s.0, s.1);
            p.0.Byte? ==> GetAnswer(p.1, p.2).0 == p.0 && PeekAnswer(p.1, p.2) == p
    ensures GetAnswer(s.0, s.1).0 == PeekAnswer(s.0, s.1).0
    ensures GetAnswer(s.0, s.1).0 == Empty <==> s.0 == [] && (s.1 == [] || s.1[0] == [])
  {}
}