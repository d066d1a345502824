/**
 The UART console: an interrupt handler and a task hand line buffers around the
 cycle rx -> ready -> executing -> free. Every method of `Console` below is one
 atomic step of the interrupt or of the task; any interleaving of them is a run.
 */
module Console {
  import opened Bytes
  import opened ConsoleStream

  /** Where the console task stands between two of its atomic steps. */
  datatype TaskPc =
    | Waiting                  // before OS_SemaphoreWait
    | HasToken                 // woken up, before the first critical section
    | Executing(idx: nat)      // owns a line, before cmd_exec
    | Executed(idx: nat)       // cmd_exec has returned
    | Releasing(idx: nat)      // last_cmd_buf_idx set, before the second critical section

  // ----- the ring of buffers -----

  function Succ(n: nat, i: nat): nat
    requires i < n
  {
    if i + 1 == n then 0 else i + 1
  }

  /** How many buffers after `base` (cyclically) buffer `i` comes. */
  function Off(n: nat, base: nat, i: nat): (k: nat)
    requires base < n && i < n
    ensures k < n
  {
    if i >= base then i - base else i - base + n
  }

  lemma SuccIsMod(n: nat, i: nat)
    requires i < n
    ensures (i + 1) % n == Succ(n, i)
  {}

  /** The bytes before the first NUL, as the command handler sees them. */
  function CStr(s: seq<byte>): Line {
    if s == [] || s[0] == 0 then [] else [s[0]] + CStr(s[1..])
  }

  lemma {:induction false} CStrOfLine(s: seq<byte>, l: Line)
    requires |l| < |s| && s[..|l|] == l && s[|l|] == 0 && 0 !in l
    ensures CStr(s) == l
    decreases |l|
  {
    if l != [] {
      assert s[0] == l[0] && l[0] in l;
      assert s[1..][..|l| - 1] == l[1..];
      CStrOfLine(s[1..], l[1..]);
    }
  }

  /** A scan that starts behind `last` meets buffer `i` before buffer `j`. */
  predicate Before(n: nat, last: nat, i: nat, j: nat)
    requires last < n && i < n && j < n
  {
    Off(n, Succ(n, last), i) < Off(n, Succ(n, last), j)
  }

  /**
   Scans the bitmap once round, starting behind `last`, for a set entry, and
   clears it; gives the number of buffers when no entry is set.
   */
  method GetValidBufIdx(bitmap: array<bool>, last: nat) returns (idx: nat)
    requires last < bitmap.Length
    modifies bitmap
    ensures Scanned(old(bitmap[..]), bitmap[..], last, idx)
  {
    var n := bitmap.Length;
    var loop := n;
    idx := last;
    while loop > 0
      invariant loop <= n && idx < n
      invariant loop == n ==> idx == last
      invariant loop < n ==> Off(n, Succ(n, last), idx) == n - loop - 1
      invariant bitmap[..] == old(bitmap[..])
      invariant forall i :: 0 <= i < n && Off(n, Succ(n, last), i) < n - loop ==> !bitmap[i]
    {
      SuccIsMod(n, idx);
      idx := (idx + 1) % n;
      if bitmap[idx] {
        bitmap[idx] := false;
        return;
      }
      loop := loop - 1;
    }
    return n;
  }

  /**
   Buffers in use form one cyclic window that starts at `base`: `busy` executing,
   then the ready ones up to `w`, then the receiving one; all others are free.
   */
  ghost predicate RingAt(n: nat, free: seq<bool>, ready: seq<bool>, base: nat, busy: nat, w: nat, rx: nat) {
    && base < n && |free| == n && |ready| == n && rx <= n && busy <= w <= n
    && (rx == n <==> w == n)
    && (rx < n ==> Off(n, base, rx) == w)
    && (forall i :: 0 <= i < n ==> (free[i] <==> Off(n, base, i) > w))
    && (forall i :: 0 <= i < n ==> (ready[i] <==> busy <= Off(n, base, i) < w))
  }

  /** Outcome of a bitmap scan from behind `last`, on the bitmap's values. */
  ghost predicate Scanned(before: seq<bool>, after: seq<bool>, last: nat, idx: nat)
    requires last < |before|
  {
    var n := |before|;
    && idx <= n
    && (idx == n ==> after == before && forall i :: 0 <= i < n ==> !before[i])
    && (idx < n ==> before[idx] && after == before[idx := false]
                    && forall i :: 0 <= i < n && Before(n, last, i, idx) ==> !before[i])
  }

  lemma RxStep(n: nat, free: seq<bool>, free': seq<bool>, ready: seq<bool>,
               base: nat, busy: nat, w: nat, rx: nat, rx': nat)
    requires RingAt(n, free, ready, base, busy, w, rx) && rx < n
    requires Scanned(free, free', rx, rx')
    ensures RingAt(n, free', ready[rx := true], base, busy, w + 1, rx')
  {
    var next := Succ(n, rx);
    if w + 1 < n {
      assert Off(n, base, next) == w + 1 && free[next];
      assert rx' < n;
      assert !Before(n, rx, next, rx');
      assert rx' == next;
    }
  }

  lemma TakeStep(n: nat, free: seq<bool>, ready: seq<bool>, ready': seq<bool>, base: nat, w: nat, rx: nat,
                 last: nat, idx: nat)
    requires RingAt(n, free, ready, base, 0, w, rx) && w > 0
    requires last < n && base == Succ(n, last)
    requires Scanned(ready, ready', last, idx)
    ensures idx == base
    ensures RingAt(n, free, ready', base, 1, w, rx)
  {
    assert Off(n, base, base) == 0 && ready[base];
    assert idx < n;
    assert !Before(n, last, base, idx);
  }

  lemma ReleaseStep(n: nat, free: seq<bool>, ready: seq<bool>, base: nat, w: nat, rx: nat)
    requires RingAt(n, free, ready, base, 1, w, rx)
    ensures RingAt(n, if rx == n then free else free[base := true], ready, Succ(n, base), 0, w - 1,
                   if rx == n then base else rx)
  {
    forall i | 0 <= i < n
      ensures Off(n, Succ(n, base), i) == if i == base then n - 1 else Off(n, base, i) - 1
    {}
  }

  /** Where buffer `i` starts in the common store of `LINE_MAX`-byte buffers. */
  function Start(i: nat): nat { i * 256 }

  /** The buffer holds the line as a NUL-terminated string. */
  ghost predicate HasLine(store: seq<byte>, i: nat, l: Line) {
    && |l| < LINE_MAX && Printable(l) && Start(i + 1) <= |store|
    && store[Start(i)..Start(i) + |l|] == l
    && store[Start(i) + |l|] == 0
  }

  lemma NulEnds(store: seq<byte>, i: nat, l: Line)
    requires |l| < LINE_MAX && Printable(l) && Start(i + 1) <= |store| && store[Start(i)..Start(i) + |l|] == l
    ensures HasLine(store[Start(i) + |l| := 0], i, l)
  {
    assert store[Start(i) + |l| := 0][Start(i)..Start(i) + |l|] == l;
  }

  /** Every buffer of the window holds its line. */
  ghost predicate Holds(n: nat, store: seq<byte>, base: nat, window: seq<Line>) {
    && base < n
    && forall i :: 0 <= i < n && Off(n, base, i) < |window| ==> HasLine(store, i, window[Off(n, base, i)])
  }

  lemma OldestIsSeen(n: nat, store: seq<byte>, base: nat, window: seq<Line>, idx: nat)
    requires Holds(n, store, base, window) && window != [] && idx < n && Off(n, base, idx) == 0
    requires |store| == Start(n)
    ensures CStr(store[Start(idx)..Start(idx + 1)]) == window[0]
  {
    var buf, l := store[Start(idx)..Start(idx + 1)], window[0];
    assert HasLine(store, idx, l);
    assert buf[..|l|] == store[Start(idx)..Start(idx) + |l|] && buf[|l|] == store[Start(idx) + |l|];
    CStrOfLine(buf, l);
  }

  /** A byte stored in a buffer outside the window leaves the window's lines alone. */
  lemma StoreStep(n: nat, store: seq<byte>, base: nat, window: seq<Line>, rx: nat, cnt: nat, b: byte)
    requires Holds(n, store, base, window) && rx < n && cnt < LINE_MAX && Off(n, base, rx) >= |window|
    requires Start(rx) + cnt < |store|
    ensures Holds(n, store[Start(rx) + cnt := b], base, window)
  {
    var store' := store[Start(rx) + cnt := b];
    forall i | 0 <= i < n && Off(n, base, i) < |window|
      ensures HasLine(store', i, window[Off(n, base, i)])
    {
      var l := window[Off(n, base, i)];
      assert HasLine(store, i, l);
      assert store'[Start(i)..Start(i) + |l|] == store[Start(i)..Start(i) + |l|];
    }
  }

  lemma HoldsOneMore(n: nat, store: seq<byte>, base: nat, window: seq<Line>, rx: nat, line: Line)
    requires Holds(n, store, base, window) && rx < n && Off(n, base, rx) == |window|
    requires HasLine(store, rx, line)
    ensures Holds(n, store, base, window + [line])
  {
    forall i | 0 <= i < n && Off(n, base, i) < |window + [line]|
      ensures HasLine(store, i, (window + [line])[Off(n, base, i)])
    {
      assert Off(n, base, i) == |window| ==> i == rx;
    }
  }

  lemma HoldsOneLess(n: nat, store: seq<byte>, base: nat, window: seq<Line>)
    requires Holds(n, store, base, window) && window != [] && |window| <= n
    ensures Holds(n, store, Succ(n, base), window[1..])
  {
    forall i | 0 <= i < n && Off(n, Succ(n, base), i) < |window[1..]|
      ensures HasLine(store, i, window[1..][Off(n, Succ(n, base), i)])
    {
      assert Off(n, base, i) == Off(n, Succ(n, base), i) + 1;
    }
  }

  /** Lines received are the released ones and the window; `done` tells that its oldest line is executed too. */
  ghost predicate Ledger(lines: seq<Line>, released: seq<Line>, window: seq<Line>, executed: seq<Line>, done: bool) {
    && lines == released + window
    && (done ==> window != [])
    && executed == if done then released + [window[0]] else released
  }

  lemma LedgerReceive(lines: seq<Line>, released: seq<Line>, window: seq<Line>, executed: seq<Line>,
                      done: bool, l: Line)
    requires Ledger(lines, released, window, executed, done)
    ensures Ledger(lines + [l], released, window + [l], executed, done)
  {
    assert released + (window + [l]) == released + window + [l];
  }

  lemma LedgerRelease(lines: seq<Line>, released: seq<Line>, window: seq<Line>, executed: seq<Line>)
    requires Ledger(lines, released, window, executed, true)
    ensures Ledger(lines, released + [window[0]], window[1..], executed, false)
  {
    assert released + [window[0]] + window[1..] == released + window;
  }

  /** A NUL behind the unfinished line makes it the next line of the window. */
  lemma LineEnds(n: nat, store: seq<byte>, base: nat, window: seq<Line>, rx: nat,
                 heard: seq<byte>, released: seq<Line>, executed: seq<Line>, done: bool)
    requires Holds(n, store, base, window) && rx < n && Off(n, base, rx) == |window|
    requires Ledger(Fold(heard).lines, released, window, executed, done)
    requires |Fold(heard).partial| < LINE_MAX && |store| == Start(n)
    requires store[Start(rx)..Start(rx) + |Fold(heard).partial|] == Fold(heard).partial
    ensures var line := Fold(heard).partial; var store' := store[Start(rx) + |line| := 0];
            && Holds(n, store', base, window) && HasLine(store', rx, line)
            && Ledger(Fold(heard + [LF]).lines, released, window + [line], executed, done)
            && Fold(heard + [LF]).partial == []
  {
    HeardIsClean(heard);
    FoldSnoc(heard, LF);
    var line := Fold(heard).partial;
    LedgerReceive(Fold(heard).lines, released, window, executed, done, line);
    StoreStep(n, store, base, window, rx, |line|, 0);
    NulEnds(store, rx, line);
  }

  lemma RxIsNext(n: nat, free: seq<bool>, ready: seq<bool>, base: nat, busy: nat, w: nat, rx: nat)
    requires RingAt(n, free, ready, base, busy, w, rx) && rx < n
    ensures Off(n, base, rx) == w
  {}

  class Console {
    const n: nat                    // number of line buffers
    const echo: bool                // whether the console is built with echo
    const freeBitmap: array<bool>
    const readyBitmap: array<bool>
    const store: array<byte>        // buffer i is store[Start(i)..Start(i + 1)]
    var lastCmdIdx: nat
    var rxIdx: nat                  // n when no buffer is left for reception
    var rxCnt: nat
    var sem: nat
    var pc: TaskPc
    var fifo: seq<byte>             // bytes waiting in the UART
    var savedData: int              // g_console_rx_data: a byte looked at too early, or negative

    ghost var window: seq<Line>     // lines received and not yet released, oldest first
    ghost var released: seq<Line>   // lines received and released, oldest first
    ghost var dropped: nat          // bytes thrown away for want of a buffer
    ghost var executed: seq<Line>   // what cmd_exec has been given, in order
    ghost var heard: seq<byte>      // bytes taken while a buffer was free for them; a line end counts as one LF

    function Busy(): nat reads this`pc { if pc.Waiting? || pc.HasToken? then 0 else 1 }

    /** The buffer the window starts with. */
    function Base(): nat
      reads this`pc, this`lastCmdIdx
    {
      if pc.Releasing? then lastCmdIdx else if lastCmdIdx < n then Succ(n, lastCmdIdx) else 0
    }

    predicate CmdDone() reads this`pc { pc.Executed? || pc.Releasing? }

    ghost predicate Rooms() {
      && n > 0 && freeBitmap.Length == n && readyBitmap.Length == n && freeBitmap != readyBitmap
      && store.Length == Start(n)
    }

    ghost predicate Ring()
      reads this`pc, this`lastCmdIdx, this`rxIdx, this`sem, this`window, freeBitmap, readyBitmap
    {
      && Rooms() && lastCmdIdx < n && rxIdx <= n && |window| <= n
      && RingAt(n, freeBitmap[..], readyBitmap[..], Base(), Busy(), |window|, rxIdx)
      && (Busy() == 1 ==> pc.idx == Base())
      && sem + (if pc.HasToken? then 1 else 0) == |window| - Busy()
    }

    ghost predicate WindowHolds()
      reads this`pc, this`lastCmdIdx, this`window, store
    {
      Holds(n, store[..], Base(), window)
    }

    /** Lines heard are the lines released followed by the window; those before the task's place are executed. */
    ghost predicate Ordered()
      reads this`heard, this`released, this`window, this`executed, this`pc
    {
      Ledger(Fold(heard).lines, released, window, executed, CmdDone())
    }

    /** The first `cnt` bytes of the receiving buffer are the unfinished line. */
    ghost predicate Partial(cnt: nat)
      reads this`heard, this`rxIdx, store
    {
      && Rooms() && cnt < LINE_MAX && rxIdx <= n
      && Fold(heard).partial == if rxIdx < n then store[..][Start(rxIdx)..Start(rxIdx) + cnt] else []
    }

    ghost predicate NoErase()
      reads this`savedData, this`fifo
    {
      savedData < 256 && (echo ==> savedData != BACKSPACE && savedData != DELETE) && KeepsText(echo, fifo)
    }

    ghost predicate Valid()
      reads this, freeBitmap, readyBitmap, store
    {
      Ring() && WindowHolds() && Ordered() && Partial(rxCnt) && NoErase()
    }

    constructor (bufNum: nat, echo: bool)
      requires bufNum > 0
      ensures Valid() && n == bufNum && this.echo == echo && pc.Waiting?
      ensures rxIdx == 0 && rxCnt == 0 && sem == 0 && lastCmdIdx == bufNum - 1
      ensures forall i :: 0 <= i < n ==> !readyBitmap[i] && (freeBitmap[i] <==> i != 0)
      ensures heard == [] && fifo == [] && savedData == 0 && dropped == 0
      ensures fresh(freeBitmap) && fresh(readyBitmap) && fresh(store)
    {
      n, this.echo := bufNum, echo;
      freeBitmap := new bool[bufNum](i => i != 0);
      readyBitmap := new bool[bufNum](_ => false);
      store := new byte[Start(bufNum)](_ => 0);
      lastCmdIdx := bufNum - 1;
      rxIdx, rxCnt, sem, pc := 0, 0, 0, Waiting;
      fifo, savedData := [], 0;
      window, released, executed, heard, dropped := [], [], [], [], 0;
    }

    /** Bytes arrive at the UART. */
    method Receive(bytes: seq<byte>)
      requires Valid() && KeepsText(echo, bytes)
      modifies this`fifo
      ensures Valid() && fifo == old(fifo) + bytes
    {
      fifo := fifo + bytes;
    }

    /** The bytes the interrupt handler will see, oldest first. */
    ghost function Unheard(): seq<byte>
      requires savedData < 256
      reads this`fifo, this`savedData
    {
      (if savedData >= 0 then [savedData] else []) + fifo
    }

    predicate IsRxReady() reads this`fifo, this`savedData { savedData >= 0 || fifo != [] }

    method GetRxData() returns (data: byte)
      requires IsRxReady() && NoErase()
      modifies this`fifo, this`savedData
      ensures NoErase() && savedData < 0
      ensures old(Unheard()) != [] && data == old(Unheard())[0] && Unheard() == old(Unheard())[1..]
    {
      if savedData >= 0 {
        data := savedData;
        savedData := -1;
      } else {
        data := fifo[0];
        fifo := fifo[1..];
      }
    }

    /** The interrupt completes a line: its buffer turns ready and the next free one receives. */
    method RxCmdline(ghost line: Line)
      requires Ring() && WindowHolds() && rxIdx < n && HasLine(store[..], rxIdx, line)
      modifies this`rxIdx, this`rxCnt, this`sem, this`window, freeBitmap, readyBitmap
      ensures Ring() && WindowHolds()
      ensures window == old(window) + [line] && rxCnt == 0 && sem == old(sem) + 1
    {
      ghost var rx, free, ready := rxIdx, freeBitmap[..], readyBitmap[..];
      readyBitmap[rxIdx] := true;
      rxIdx := GetValidBufIdx(freeBitmap, rxIdx);
      RxStep(n, free, freeBitmap[..], ready, Base(), Busy(), |window|, rx, rxIdx);
      rxCnt := 0;
      sem := sem + 1;
      HoldsOneMore(n, store[..], Base(), window, rx, line);
      window := window + [line];
    }

    method StoreByte(at: nat, data: byte)
      requires at < store.Length
      modifies store
      ensures store[..] == old(store[..])[at := data]
    {
      store[at] := data;
    }

    /** A printable byte joins the unfinished line; any other one, and a full buffer, resets it. */
    method PutText(cnt: nat, data: byte) returns (cnt': nat)
      requires Ring() && WindowHolds() && Ordered() && Partial(cnt) && rxIdx < n && data != LF
      modifies this`heard, store
      ensures heard == old(heard) + [data]
      ensures Ring() && WindowHolds() && Ordered() && Partial(cnt')
    {
      hide RingAt, Holds, Ledger, Busy, CmdDone;
      RxIsNext(n, freeBitmap[..], readyBitmap[..], Base(), Busy(), |window|, rxIdx);
      FoldSnoc(heard, data);
      heard := heard + [data];
      if IsPrint(data) {
        StoreStep(n, store[..], Base(), window, rxIdx, cnt, data);
        StoreByte(Start(rxIdx) + cnt, data);
        cnt' := if cnt + 1 >= LINE_MAX then 0 else cnt + 1;
      } else {
        cnt' := 0;
      }
    }

    /** Ends the unfinished line with a NUL. */
    method Terminate(cnt: nat) returns (ghost line: Line)
      requires Ring() && WindowHolds() && Ordered() && Partial(cnt) && rxIdx < n
      modifies this`heard, store
      ensures heard == old(heard) + [LF] && line == Fold(old(heard)).partial && Fold(heard).partial == []
      ensures WindowHolds() && HasLine(store[..], rxIdx, line)
      ensures Ledger(Fold(heard).lines, released, window + [line], executed, CmdDone())
    {
      hide RingAt, Holds, Ledger, HasLine, Fold, CmdDone, Busy;
      RxIsNext(n, freeBitmap[..], readyBitmap[..], Base(), Busy(), |window|, rxIdx);
      line := Fold(heard).partial;
      LineEnds(n, store[..], Base(), window, rxIdx, heard, released, executed, CmdDone());
      StoreByte(Start(rxIdx) + cnt, 0);
      heard := heard + [LF];
    }

    /** Ends the unfinished line and hands it over. */
    method EndLine(cnt: nat)
      requires Ring() && WindowHolds() && Ordered() && Partial(cnt) && rxIdx < n
      modifies this`rxIdx, this`rxCnt, this`sem, this`window, this`heard, freeBitmap, readyBitmap, store
      ensures heard == old(heard) + [LF] && rxCnt == 0
      ensures Ring() && WindowHolds() && Ordered() && Partial(0)
      ensures window == old(window) + [Fold(old(heard)).partial]
    {
      hide RingAt, Holds, Ledger, HasLine, Fold;
      ghost var line := Terminate(cnt);
      RxCmdline(line);
    }

    /** Throws away what is waiting in the UART. */
    method Discard()
      requires NoErase()
      modifies this`fifo, this`savedData, this`dropped
      ensures NoErase() && Unheard() == [] && dropped == old(dropped) + |old(Unheard())|
    {
      while IsRxReady()
        invariant NoErase() && dropped + |Unheard()| == old(dropped) + |old(Unheard())|
        decreases |Unheard()|
      {
        var _ := GetRxData();
        dropped := dropped + 1;
      }
    }

    /** The byte behind a carriage return is swallowed if it is a line feed and kept otherwise. */
    method LookAhead() returns (doRestart: bool)
      requires NoErase() && savedData < 0
      modifies this`fifo, this`savedData
      ensures NoErase() && |Unheard()| <= |old(Unheard())|
      ensures doRestart == (old(fifo) != [] && old(fifo)[0] != LF)
      ensures Unheard() == if old(fifo) != [] && old(fifo)[0] == LF then old(fifo)[1..] else old(fifo)
    {
      doRestart := false;
      if fifo != [] {
        var data := fifo[0];
        fifo := fifo[1..];
        if data != LF {
          savedData := data;
          doRestart := true;
        }
      }
    }

    /**
     The loop of the interrupt handler over one receiving buffer: it stops at a
     line end, or when the UART has no more data.
     */
    method RxText() returns (cnt: nat, ended: bool, data: byte)
      requires Valid() && rxIdx < n
      modifies this`fifo, this`savedData, this`heard, store
      ensures Ring() && WindowHolds() && Ordered() && Partial(cnt) && NoErase()
      ensures savedData < 256 && (ended ==> savedData < 0)
      ensures var u := old(Unheard()); var k := FirstEnd(u);
              && heard == old(heard) + u[..k] && (ended <==> k < |u|)
              && if ended then data == u[k] && Unheard() == u[k + 1..] else Unheard() == []
    {
      hide RingAt, Holds, Fold, HasLine, Ledger, KeepsText, HeardTo, Ring, WindowHolds, Ordered, Partial;
      cnt, ended, data := rxCnt, false, 0;
      ghost var heard0, u, k := heard, Unheard(), 0;
      HeardNothing(heard, u);
      while IsRxReady()
        invariant Ring() && WindowHolds() && Ordered() && Partial(cnt) && NoErase()
        invariant HeardTo(heard0, u, heard, Unheard(), k) && !ended
        decreases |Unheard()|
      {
        ghost var was, waiting := heard, Unheard();
        cnt, ended, data := RxByte(cnt);
        if ended {
          HeardToEnd(heard0, u, heard, waiting, k);
          return;
        }
        HeardOn(heard0, u, was, waiting, k);
        k := k + 1;
      }
      HeardToEnd(heard0, u, heard, Unheard(), k);
    }

    /** One byte of text, or the end of the line. */
    method RxByte(cnt: nat) returns (cnt': nat, ended: bool, data: byte)
      requires Ring() && WindowHolds() && Ordered() && Partial(cnt) && rxIdx < n && NoErase() && IsRxReady()
      modifies this`fifo, this`savedData, this`heard, store
      ensures Ring() && WindowHolds() && Ordered() && Partial(cnt') && NoErase() && savedData < 0
      ensures old(Unheard()) != [] && data == old(Unheard())[0] && Unheard() == old(Unheard())[1..]
      ensures ended <==> data == 10 || data == 13
      ensures if ended then heard == old(heard) else heard == old(heard) + [data]
    {
      hide RingAt, Holds, Fold, HasLine, Ledger, KeepsText, Ring, WindowHolds, Ordered, Partial;
      data := GetRxData();
      ended, cnt' := data == LF || data == CR, cnt;
      if !ended {
        cnt' := PutText(cnt, data);
      }
    }

    /** Serves one receiving buffer up to the first line end. */
    method RxOneBuffer() returns (doRestart: bool)
      requires Valid() && rxIdx < n
      modifies this`rxIdx, this`rxCnt, this`sem, this`window, this`fifo, this`savedData, this`heard
      modifies freeBitmap, readyBitmap, store
      ensures Valid() && Served(old(heard), old(Unheard()), heard, Unheard(), doRestart)
    {
      hide RingAt, Holds, Fold, HasLine, Ledger, KeepsText, Served;
      ghost var heard0, u := heard, Unheard();
      var cnt, ended, data := RxText();
      if ended {
        doRestart := FinishLine(cnt, data);
        Assoc(heard0, u[..FirstEnd(u)], [10]);
      } else {
        doRestart := false;
        rxCnt := cnt;
      }
      MakeServed(heard0, u, heard, Unheard(), doRestart);
    }

    /** A line end: what stands behind a CR is looked at before the line is handed over. */
    method FinishLine(cnt: nat, data: byte) returns (doRestart: bool)
      requires Ring() && WindowHolds() && Ordered() && Partial(cnt) && rxIdx < n && NoErase() && savedData < 0
      modifies this`rxIdx, this`rxCnt, this`sem, this`window, this`fifo, this`savedData, this`heard
      modifies freeBitmap, readyBitmap, store
      ensures Valid() && heard == old(heard) + [10]
      ensures var r := old(Unheard());
              if data == CR && r != [] then doRestart == (r[0] != 10) && Unheard() == if r[0] == 10 then r[1..] else r
              else !doRestart && Unheard() == r
    {
      hide RingAt, Holds, Fold, HasLine, Ledger, KeepsText, Ring, WindowHolds, Ordered, Partial;
      doRestart := false;
      if data == CR {
        doRestart := LookAhead();
      }
      EndLine(cnt);
    }

    /** One turn of the interrupt: a line for the receiving buffer, or nothing but lost bytes without one. */
    method RxTurn() returns (doRestart: bool)
      requires Valid()
      modifies this`rxIdx, this`rxCnt, this`sem, this`window, this`fifo, this`savedData, this`heard, this`dropped
      modifies freeBitmap, readyBitmap, store
      ensures Valid()
      ensures old(rxIdx) == n ==>
                !doRestart && rxIdx == n && Unheard() == [] && heard == old(heard)
                && dropped == old(dropped) + |old(Unheard())|
      ensures old(rxIdx) != n ==>
                dropped == old(dropped) && Served(old(heard), old(Unheard()), heard, Unheard(), doRestart)
    {
      hide RingAt, Holds, Fold, HasLine, Ledger, KeepsText, Served;
      doRestart := false;
      if rxIdx != n {
        doRestart := RxOneBuffer();
      } else {
        Discard();
      }
    }

    /** The receive interrupt; `rest` are the bytes that it has not heard, and it drops them if it is left without a
        buffer. */
    method RxCallback() returns (ghost rest: seq<byte>)
      requires Valid()
      modifies this`rxIdx, this`rxCnt, this`sem, this`window, this`fifo, this`savedData, this`heard, this`dropped
      modifies freeBitmap, readyBitmap, store
      ensures Valid() && ReadsTo(old(heard), old(Unheard()), heard, rest)
      ensures (Unheard() == rest && dropped == old(dropped))
           || (rxIdx == n && Unheard() == [] && dropped == old(dropped) + |rest|)
      ensures old(Unheard()) != [] ==> |Unheard()| < |old(Unheard())|
      ensures old(rxIdx) == n ==> heard == old(heard) && Unheard() == [] && dropped == old(dropped) + |old(Unheard())|
      ensures old(rxIdx) < n && CR !in old(Unheard()) ==>
                rest == Unheard() && Served(old(heard), old(Unheard()), heard, rest, false)
    {
      hide RingAt, Holds, Fold, HasLine, Ledger, Ring, WindowHolds, Ordered, Partial, ReadsTo, Served;
      ghost var heard0, unheard0, full := heard, Unheard(), rxIdx == n;
      var doRestart := RxTurn();
      rest := if full then unheard0 else Unheard();
      if full {
        ReadsNothing(heard, unheard0);
      } else {
        ServedReads(heard0, unheard0, heard, Unheard(), doRestart);
      }
      while doRestart
        invariant Valid() && ReadsTo(heard0, unheard0, heard, rest)
        invariant (Unheard() == rest && dropped == old(dropped))
               || (rxIdx == n && Unheard() == [] && dropped == old(dropped) + |rest|)
        invariant doRestart ==> Unheard() == rest && dropped == old(dropped) && !full && CR in unheard0
        invariant unheard0 != [] ==> |Unheard()| < |unheard0|
        invariant full ==> heard == heard0 && Unheard() == [] && dropped == old(dropped) + |unheard0|
        invariant !full && CR !in unheard0 ==>
          !doRestart && rest == Unheard() && Served(heard0, unheard0, heard, rest, false)
        decreases doRestart, |Unheard()|
      {
        ghost var heard1, unheard1, full1 := heard, Unheard(), rxIdx == n;
        doRestart := RxTurn();
        if !full1 {
          rest := Unheard();
          ServedReads(heard1, unheard1, heard, rest, doRestart);
          ReadsOn(heard0, unheard0, heard1, unheard1, heard, rest);
        }
      }
    }

    // ----- the console task, step by step -----

    /** OS_SemaphoreWait returns. */
    method TaskWait()
      requires Valid() && pc.Waiting? && sem > 0
      modifies this`sem, this`pc
      ensures Valid() && pc.HasToken? && sem == old(sem) - 1
    {
      sem := sem - 1;
      pc := HasToken;
    }

    /** First critical section: the task always finds a line for the token it holds. */
    method TaskTake()
      requires Valid() && pc.HasToken?
      modifies this`pc, readyBitmap
      ensures Valid() && pc.Executing? && window != []
    {
      hide RingAt, Holds, HasLine, Fold, Ledger, KeepsText, Scanned;
      ghost var ready := readyBitmap[..];
      var idx := GetValidBufIdx(readyBitmap, lastCmdIdx);
      TakeStep(n, freeBitmap[..], ready, readyBitmap[..], Base(), |window|, rxIdx, lastCmdIdx, idx);
      pc := Executing(idx);
    }

    /** cmd_exec runs on the buffer: the handler sees the oldest line, byte for byte. */
    method TaskExecute() returns (ghost cmd: Line)
      requires Valid() && pc.Executing?
      modifies this`pc, this`executed
      ensures Valid() && pc == Executed(old(pc.idx))
      ensures cmd == CStr(store[..][Start(pc.idx)..Start(pc.idx + 1)])
      ensures window != [] && cmd == window[0] && executed == old(executed) + [cmd]
    {
      hide RingAt, Holds, HasLine, Fold, CStr;
      cmd := CStr(store[..][Start(pc.idx)..Start(pc.idx + 1)]);
      OldestIsSeen(n, store[..], Base(), window, pc.idx);
      executed := executed + [cmd];
      pc := Executed(pc.idx);
    }

    /** last_cmd_buf_idx moves on. */
    method TaskSetLast()
      requires Valid() && pc.Executed?
      modifies this`pc, this`lastCmdIdx
      ensures Valid() && pc == Releasing(old(pc.idx))
    {
      lastCmdIdx := pc.idx;
      pc := Releasing(pc.idx);
    }

    /** Second critical section: the buffer goes to reception if that has none, to the free ones otherwise. */
    method TaskRelease()
      requires Valid() && pc.Releasing?
      modifies this`pc, this`rxIdx, this`rxCnt, this`window, this`released, freeBitmap
      ensures Valid() && pc.Waiting? && old(window) != [] && window == old(window)[1..]
    {
      hide Holds, Fold, Ledger, RingAt;
      ghost var free := freeBitmap[..];
      LedgerRelease(Fold(heard).lines, released, window, executed);
      HoldsOneLess(n, store[..], lastCmdIdx, window);
      ReleaseStep(n, free, readyBitmap[..], lastCmdIdx, |window|, rxIdx);
      if rxIdx == n {
        rxIdx := pc.idx;
        rxCnt := 0;
      } else {
        freeBitmap[pc.idx] := true;
        assert freeBitmap[..] == free[lastCmdIdx := true];
      }
      released := released + [window[0]];
      window := window[1..];
      pc := Waiting;
    }
  }

  // ----- what holds in every reachable state -----

  /** Each buffer is in exactly one place: receiving, ready, with the task, or free. */
  lemma InOnePlace(c: Console, i: nat)
    requires c.Valid() && i < c.n
    ensures 1 == (if c.rxIdx == i then 1 else 0) + (if c.readyBitmap[i] then 1 else 0)
                 + (if c.freeBitmap[i] then 1 else 0) + (if c.Busy() == 1 && c.pc.idx == i then 1 else 0)
  {
    assert RingAt(c.n, c.freeBitmap[..], c.readyBitmap[..], c.Base(), c.Busy(), |c.window|, c.rxIdx);
    assert c.freeBitmap[..][i] == c.freeBitmap[i] && c.readyBitmap[..][i] == c.readyBitmap[i];
  }

  function Count(bits: seq<bool>): nat {
    if bits == [] then 0 else Count(bits[..|bits| - 1]) + if bits[|bits| - 1] then 1 else 0
  }

  /** The cyclic interval of offsets [lo, hi) holds hi - lo buffers, `Below` of them with an index under m. */
  function Below(n: nat, base: nat, lo: nat, hi: nat, m: nat): nat
    requires base < n && lo <= hi <= n && m <= n
  {
    if m == 0 then 0 else Below(n, base, lo, hi, m - 1) + if lo <= Off(n, base, m - 1) < hi then 1 else 0
  }

  function Min(a: int, b: int): int { if a < b then a else b }

  function Max(a: int, b: int): int { if a < b then b else a }

  function Overlap(lo: int, hi: int, from: int, to: int): int { Max(0, Min(hi, to) - Max(lo, from)) }

  lemma {:induction false} BelowIsOverlap(n: nat, base: nat, lo: nat, hi: nat, m: nat)
    requires base < n && lo <= hi <= n && m <= n
    ensures Below(n, base, lo, hi, m)
         == Overlap(lo, hi, n - base, n - base + Min(m, base)) + Overlap(lo, hi, 0, Max(m - base, 0))
  {
    if m > 0 {
      BelowIsOverlap(n, base, lo, hi, m - 1);
    }
  }

  lemma {:induction false} CountIsBelow(n: nat, ready: seq<bool>, base: nat, lo: nat, hi: nat, m: nat)
    requires base < n && lo <= hi <= n && m <= n == |ready|
    requires forall i :: 0 <= i < n ==> (ready[i] <==> lo <= Off(n, base, i) < hi)
    ensures Count(ready[..m]) == Below(n, base, lo, hi, m)
  {
    if m > 0 {
      CountIsBelow(n, ready, base, lo, hi, m - 1);
      assert ready[..m][..m - 1] == ready[..m - 1];
    }
  }

  lemma ReadyCount(n: nat, free: seq<bool>, ready: seq<bool>, base: nat, busy: nat, w: nat, rx: nat)
    requires RingAt(n, free, ready, base, busy, w, rx)
    ensures Count(ready) == w - busy
  {
    CountIsBelow(n, ready, base, busy, w, n);
    BelowIsOverlap(n, base, busy, w, n);
    assert ready[..n] == ready;
  }

  /** The semaphore and the token the task holds count the ready buffers. */
  lemma SemaphoreCountsReady(c: Console)
    requires c.Valid()
    ensures c.sem + (if c.pc.HasToken? then 1 else 0) == Count(c.readyBitmap[..])
  {
    var ready := c.readyBitmap[..];
    assert RingAt(c.n, c.freeBitmap[..], ready, c.Base(), c.Busy(), |c.window|, c.rxIdx);
    ReadyCount(c.n, c.freeBitmap[..], ready, c.Base(), c.Busy(), |c.window|, c.rxIdx);
  }

  /** The lines executed are the first lines received, each once and in order. */
  lemma ExecutedInOrder(c: Console)
    requires c.Valid()
    ensures c.executed <= Fold(c.heard).lines
    ensures |Fold(c.heard).lines| - |c.executed| <= c.n
    ensures c.pc.Waiting? && c.sem == 0 ==> c.executed == Fold(c.heard).lines
  {
    if c.pc.Waiting? && c.sem == 0 {
      assert c.window == [];
    }
  }

  // ----- whole runs -----

  datatype Event = Arrive(bytes: seq<byte>) | Interrupt | Task

  function NewBytes(e: Event): seq<byte> { if e.Arrive? then e.bytes else [] }

  function Arrived(script: seq<Event>): seq<byte> {
    if script == [] then [] else Arrived(script[..|script| - 1]) + NewBytes(script[|script| - 1])
  }

  /** How many steps the task is away from waiting again. */
  function Rank(pc: TaskPc): nat {
    match pc
    case Waiting => 4
    case HasToken => 3
    case Executing(_) => 2
    case Executed(_) => 1
    case Releasing(_) => 0
  }

  predicate Blocked(c: Console) reads c`pc, c`sem { c.pc.Waiting? && c.sem == 0 }

  /** The next atomic step of the console task; it stays blocked while no line is ready. */
  method TaskStep(c: Console)
    requires c.Valid()
    modifies c`pc, c`sem, c`executed, c`released, c`window, c`lastCmdIdx, c`rxIdx, c`rxCnt, c.freeBitmap, c.readyBitmap
    ensures c.Valid()
    ensures old(Blocked(c)) ==> Blocked(c) && c.window == old(c.window) && c.executed == old(c.executed)
    ensures !old(Blocked(c)) ==>
              |c.window| < |old(c.window)| || (c.window == old(c.window) && Rank(c.pc) < Rank(old(c.pc)))
  {
    match c.pc
    case Waiting =>
      if c.sem > 0 {
        c.TaskWait();
      }
    case HasToken => c.TaskTake();
    case Executing(_) => var _ := c.TaskExecute();
    case Executed(_) => c.TaskSetLast();
    case Releasing(_) => c.TaskRelease();
  }

  /** One event. Bytes arrive, an interrupt takes at least one of them, the task moves on unless it is blocked; and
      bytes are dropped only when an interrupt has no buffer, and then all that are left. */
  method Happen(c: Console, e: Event) returns (ghost rest: seq<byte>)
    requires c.Valid() && KeepsText(c.echo, NewBytes(e))
    modifies c, c.freeBitmap, c.readyBitmap, c.store
    ensures c.Valid() && ReadsTo(old(c.heard), old(c.Unheard()) + NewBytes(e), c.heard, rest)
    ensures (c.Unheard() == rest && c.dropped == old(c.dropped))
         || (e.Interrupt? && c.rxIdx == c.n && c.Unheard() == [] && c.dropped == old(c.dropped) + |rest|)
    ensures !e.Interrupt? ==> c.Unheard() == old(c.Unheard()) + NewBytes(e) && c.heard == old(c.heard)
    ensures e.Interrupt? && old(c.Unheard()) != [] ==> |c.Unheard()| < |old(c.Unheard())|
    ensures e.Interrupt? && old(c.rxIdx) < c.n && CR !in old(c.Unheard()) ==> c.dropped == old(c.dropped)
    ensures e.Task? && !old(Blocked(c)) ==>
              |c.window| < |old(c.window)| || (c.window == old(c.window) && Rank(c.pc) < Rank(old(c.pc)))
  {
    hide RingAt, Holds, Fold, HasLine, Ledger, KeepsText, ReadsTo, Served, Reading;
    ghost var heard, unheard := c.heard, c.Unheard();
    rest := unheard + NewBytes(e);
    ReadsNothing(heard, rest);
    match e
    case Arrive(bytes) =>
      Assoc(if c.savedData >= 0 then [c.savedData] else [], c.fifo, bytes);
      c.Receive(bytes);
    case Interrupt =>
      assert unheard + [] == unheard;
      rest := c.RxCallback();
    case Task =>
      assert unheard + [] == unheard;
      TaskStep(c);
  }

  /** The stream that has arrived so far is heard or waiting, unless some of it was dropped; and nothing was dropped
      while there are more buffers than lines. */
  ghost predicate Accounted(c: Console, arrived: seq<byte>)
    requires c.savedData < 256
    reads c`fifo, c`savedData, c`heard, c`dropped
  {
    && (c.dropped == 0 ==> ReadsTo([], [0] + arrived, c.heard, c.Unheard()))
    && (|Fold(Ended(arrived)).lines| < c.n ==> c.dropped == 0)
  }

  /** Reception has a buffer as long as fewer lines than buffers have arrived. */
  lemma HasRoom(c: Console, arrived: seq<byte>, unheard: seq<byte>)
    requires c.Valid() && ReadsTo([], [0] + arrived, c.heard, unheard) && |Fold(Ended(arrived)).lines| < c.n
    ensures c.rxIdx < c.n
  {
    ReadsLines([0] + arrived, c.heard, unheard);
    assert Ended([0] + arrived) == [0] + Ended(arrived);
    LeadingNul(Ended(arrived));
    FullHasLines(c);
    hide *;
  }

  lemma FullHasLines(c: Console)
    requires c.Valid()
    ensures c.rxIdx == c.n ==> |Fold(c.heard).lines| >= c.n
  {
    hide Fold;
  }

  lemma LinesArrive(known: seq<byte>, more: seq<byte>)
    ensures |Fold(Ended(known)).lines| <= |Fold(Ended(known + more)).lines|
  {
    LinesGrow(Ended(known), Ended(more));
    assert Ended(known + more) == Ended(known) + Ended(more);
  }

  /** One event, seen from the stream that has arrived before it. */
  method HappenAccounted(c: Console, e: Event, ghost known: seq<byte>)
    requires c.Valid() && KeepsText(c.echo, NewBytes(e)) && Accounted(c, known)
    modifies c, c.freeBitmap, c.readyBitmap, c.store
    ensures c.Valid() && Accounted(c, known + NewBytes(e))
  {
    ghost var arrived := known + NewBytes(e);
    ghost var heard, unheard, dropped := c.heard, c.Unheard(), c.dropped;
    hide RingAt, Holds, Fold, HasLine, Ledger, KeepsText, ReadsTo, Ended;
    LinesArrive(known, NewBytes(e));
    Assoc([0], known, NewBytes(e));
    var rest := Happen(c, e);
    if dropped == 0 {
      ReadsMore([], [0] + known, heard, unheard, NewBytes(e));
      ReadsOn([], [0] + arrived, heard, unheard + NewBytes(e), c.heard, rest);
      if |Fold(Ended(arrived)).lines| < c.n {
        HasRoom(c, arrived, rest);
      }
    }
  }

  /**
   Any interleaving of arrivals, interrupts and task steps. Unless an interrupt
   found no buffer and dropped bytes, every byte is heard, and the executed lines
   are those of one fold over what was heard, however the stream was cut and
   whenever the task ran. Nothing is dropped while there are more buffers than
   lines, even if the task never runs.
   */
  method Session(bufNum: nat, echo: bool, script: seq<Event>) returns (c: Console)
    requires bufNum > 0
    requires forall i :: 0 <= i < |script| && script[i].Arrive? ==> KeepsText(echo, script[i].bytes)
    ensures c.Valid() && c.echo == echo && c.n == bufNum
    ensures fresh(c) && fresh(c.freeBitmap) && fresh(c.readyBitmap) && fresh(c.store)
    ensures c.dropped == 0 ==> ReadsTo([], [0] + Arrived(script), c.heard, c.Unheard())
    ensures c.executed <= Fold(c.heard).lines
    ensures c.dropped == 0 && CR !in Arrived(script) ==>
              && CR !in c.Unheard() && c.heard + c.Unheard() == [0] + Arrived(script)
              && c.executed <= Fold(Arrived(script)).lines
    ensures |Fold(Ended(Arrived(script))).lines| < bufNum ==> c.dropped == 0
  {
    hide RingAt, Holds, Fold, HasLine, Ledger, KeepsText, ReadsTo, Ended;
    c := new Console(bufNum, echo);
    assert Accounted(c, []) by {
      ReadsNothing([], [0]);
      assert c.Unheard() == [0] && [0] + [] == [0];
    }
    for i := 0 to |script|
      invariant fresh(c) && fresh(c.freeBitmap) && fresh(c.readyBitmap) && fresh(c.store)
      invariant c.Valid() && c.echo == echo && c.n == bufNum
      invariant Accounted(c, Arrived(script[..i]))
    {
      assert script[..i + 1][..i] == script[..i];
      HappenAccounted(c, script[i], Arrived(script[..i]));
    }
    assert script[..|script|] == script;
    ExecutedInOrder(c);
    if c.dropped == 0 && CR !in Arrived(script) {
      WithoutCr(Arrived(script), c.heard, c.Unheard());
    }
  }

  lemma WithoutCr(arrived: seq<byte>, heard: seq<byte>, unheard: seq<byte>)
    requires ReadsTo([], [0] + arrived, heard, unheard) && CR !in arrived
    ensures CR !in unheard && heard + unheard == [0] + arrived && Fold(heard).lines <= Fold(arrived).lines
  {
    ReadsSame([], [0] + arrived, heard, unheard);
    assert [] + ([0] + arrived) == [0] + arrived;
    LinesGrow(heard, unheard);
    LeadingNul(arrived);
  }

  /** Interrupts and task steps in turn, the task first, until nothing is left to do: every line heard has been
      executed, and every byte is heard, unless a CR with more behind it uses up the last buffer. */
  method Drain(c: Console)
    requires c.Valid()
    modifies c, c.freeBitmap, c.readyBitmap, c.store
    ensures c.Valid() && Blocked(c) && c.Unheard() == [] && c.executed == Fold(c.heard).lines
    ensures c.dropped >= old(c.dropped) && (CR !in old(c.Unheard()) ==> c.dropped == old(c.dropped))
    ensures c.dropped == old(c.dropped) ==> ReadsTo(old(c.heard), old(c.Unheard()), c.heard, [])
  {
    hide RingAt, Holds, Fold, HasLine, Ledger, KeepsText, ReadsTo, Served, Ended;
    ghost var heard0, unheard0 := c.heard, c.Unheard();
    ReadsNothing(heard0, unheard0);
    while !Blocked(c) || c.IsRxReady()
      invariant c.Valid() && c.dropped >= old(c.dropped)
      invariant CR !in unheard0 ==> CR !in c.Unheard() && c.dropped == old(c.dropped)
      invariant c.dropped == old(c.dropped) ==> ReadsTo(heard0, unheard0, c.heard, c.Unheard())
      decreases |c.Unheard()|, |c.window|, Rank(c.pc)
    {
      if !Blocked(c) {
        TaskStep(c);
      } else {
        BlockedReceives(c);
        ghost var heard, unheard, dropped := c.heard, c.Unheard(), c.dropped;
        ghost var rest := c.RxCallback();
        if CR !in unheard {
          ReadsSame(heard, unheard, c.heard, rest);
        }
        if dropped == old(c.dropped) {
          ReadsOn(heard0, unheard0, heard, unheard, c.heard, rest);
        }
      }
    }
    ExecutedInOrder(c);
  }

  /** A task that is blocked leaves a buffer to reception. */
  lemma BlockedReceives(c: Console)
    requires c.Valid() && Blocked(c)
    ensures c.rxIdx < c.n
  {}

  /** Whatever has happened before, once the console has drained and if nothing was dropped, every line of the whole
      stream has been executed exactly once and in order; only empty lines may differ, and only behind a CR. */
  method CompleteSession(bufNum: nat, echo: bool, script: seq<Event>) returns (c: Console)
    requires bufNum > 0
    requires forall i :: 0 <= i < |script| && script[i].Arrive? ==> KeepsText(echo, script[i].bytes)
    ensures c.Valid() && Blocked(c) && c.Unheard() == []
    ensures c.dropped == 0 ==> NonEmpty(c.executed) == NonEmpty(Fold(Ended(Arrived(script))).lines)
    ensures c.dropped == 0 && CR !in Arrived(script) ==> c.executed == Fold(Arrived(script)).lines
    ensures CR !in Arrived(script) && |Fold(Arrived(script)).lines| < bufNum ==> c.dropped == 0
  {
    hide RingAt, Holds, Fold, HasLine, Ledger, KeepsText, ReadsTo, Ended;
    c := Session(bufNum, echo, script);
    ghost var heard, unheard, dropped := c.heard, c.Unheard(), c.dropped;
    ghost var all := Arrived(script);
    EndedIsSame(all);
    if dropped == 0 && CR !in all {
      WithoutCr(all, heard, unheard);
    }
    Drain(c);
    if c.dropped == 0 {
      ReadsOn([], [0] + all, heard, unheard, c.heard, []);
      AllHeard(all, c.heard);
    }
  }

  lemma EndedIsSame(a: seq<byte>)
    ensures CR !in a ==> Ended(a) == a
  {}

  lemma AllHeard(arrived: seq<byte>, heard: seq<byte>)
    requires ReadsTo([], [0] + arrived, heard, [])
    ensures NonEmpty(Fold(heard).lines) == NonEmpty(Fold(Ended(arrived)).lines)
    ensures CR !in arrived ==> Fold(heard).lines == Fold(arrived).lines
  {
    ReadsLines([0] + arrived, heard, []);
    assert Ended([0] + arrived) == [0] + Ended(arrived);
    LeadingNul(Ended(arrived));
    if CR !in arrived {
      ReadsSame([], [0] + arrived, heard, []);
      assert [] + ([0] + arrived) == [0] + arrived && heard + [] == heard;
      LeadingNul(arrived);
    }
  }
}
