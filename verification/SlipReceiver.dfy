/** The receiver of os/dev/slip.c in its own form: a cyclic buffer with three indices and a phase.
    Every operation is shown to do to the stored queue what Slip says it does. */
module SlipReceiver {
  import opened Bytes
  import opened Slip
  import opened SlipWindow

  // ---------------------------------------------------------------------------
  // The ring

  /** Position `k` bytes after `b` in a ring of the given size. */
  function Idx(size: nat, b: nat, k: nat): nat
    requires b < size && k < size
  {
    if b + k < size then b + k else b + k - size
  }

  /** How far `p` lies after `b`. */
  function Off(size: nat, b: nat, p: nat): nat
    requires b < size && p < size
  {
    if b <= p then p - b else p + size - b
  }

  /** The whole ring, read from `b` on. */
  ghost function Rot(buf: seq<Byte>, b: nat): (r: seq<Byte>)
    requires b < |buf|
    ensures |r| == |buf|
  {
    seq(|buf|, k requires 0 <= k < |buf| => buf[Idx(|buf|, b, k)])
  }

  lemma RotStore(buf: seq<Byte>, b: nat, n: nat, c: Byte)
    requires b < |buf| && n < |buf|
    ensures Rot(buf[Idx(|buf|, b, n) := c], b) == Rot(buf, b)[n := c]
  {
  }

  lemma RotShift(buf: seq<Byte>, b: nat, j: nat)
    requires b < |buf| && j < |buf|
    ensures Rot(buf, Idx(|buf|, b, j)) == Rot(buf, b)[j..] + Rot(buf, b)[..j]
  {
  }

  /** The stretches of memory that hold the first `n` bytes. */
  lemma RotSpans(buf: seq<Byte>, b: nat, n: nat)
    requires b < |buf| && n < |buf|
    ensures b + n < |buf| ==> Rot(buf, b)[..n] == buf[b..b + n]
    ensures b + n >= |buf| ==> Rot(buf, b)[..|buf| - b] == buf[b..] && Rot(buf, b)[|buf| - b..n] == buf[..b + n - |buf|]
  {
  }

  lemma TakeTake(r: seq<Byte>, k: nat, e: nat)
    requires k <= e <= |r|
    ensures r[..e][..k] == r[..k] && r[..e][k..] == r[k..e]
  {
  }

  /** The queue in a ring read from its beginning. */
  ghost function Stored(r: seq<Byte>, n: nat, end: nat, phase: Phase): Queue
    requires end <= n < |r|
  {
    Queue(r[..n], end, phase, r[n..])
  }

  lemma StoredGiveUp(r: seq<Byte>, n: nat, end: nat, phase: Phase)
    requires end <= n < |r|
    ensures Stored(r, end, end, Rubbish) == GiveUp(Stored(r, n, end, phase))
  {
  }

  /** What storing a byte at `next_free` does to the queue. */
  lemma StoredInput(r: seq<Byte>, n: nat, end: nat, c: Byte)
    requires end <= n < |r|
    ensures Input(Stored(r, n, end, Ok), c) ==
      if n + 1 == |r| then Stored(r, end, end, Rubbish)
      else if c == END && n == end then Stored(r[n := c], n, end, Ok)
      else Stored(r[n := c], n + 1, if c == END && end == 0 then n else end, if c == ESC then Esc else Ok)
  {
    StoredGiveUp(r, n, end, Ok);
    UpdateParts(r, n, c);
  }

  lemma UpdateParts(r: seq<Byte>, n: nat, c: Byte)
    requires n < |r|
    ensures r[n := c][..n] == r[..n] && r[n := c][n..] == [c] + r[n..][1..]
    ensures r[n := c][..n + 1] == r[..n] + [c] && r[n := c][n + 1..] == r[n..][1..]
  {
  }

  /** Number of bytes from behind the terminator round to `next_free`. */
  function Left(size: nat, n: nat, end: nat): nat
    requires end <= n < size
  {
    if end < n then n - (end + 1) else size - 1
  }

  /** What a poll does to it, with the ring read from behind the packet. */
  lemma StoredPoll(r: seq<Byte>, n: nat, end: nat, phase: Phase)
    requires end <= n < |r|
    ensures var r' := if end + 1 < |r| then r[end + 1..] + r[..end + 1] else r;
      var left := Left(|r|, n, end);
      && FirstEnd(r'[..left]) <= left
      && Poll(Stored(r, n, end, phase)) == Stored(r', left, FirstEnd(r'[..left]), phase)
  {
    hide FirstEnd;
    var r' := if end + 1 < |r| then r[end + 1..] + r[..end + 1] else r;
    var left := Left(|r|, n, end);
    FirstEndBound(r'[..left]);
    PolledMemory(r, n, end, r', left);
  }

  /** The memory after a poll, read from behind the packet. */
  lemma PolledMemory(r: seq<Byte>, n: nat, end: nat, r': seq<Byte>, left: nat)
    requires end <= n < |r| && r' == (if end + 1 < |r| then r[end + 1..] + r[..end + 1] else r) && left == Left(|r|, n, end)
    ensures end < n ==> r'[..left] == r[..n][end + 1..] && r'[left..] == r[n..] + r[..n][..end + 1]
    ensures end == n ==> r'[..left] == r[n..][1..] + r[..n] && r'[left..] == [r[n..][0]]
  {
    if end < n {
      Rotated(r, n, end);
    } else if end + 1 < |r| {
      assert r[..end + 1] == r[..n] + [r[n]];
    } else {
      assert r[n..] == [r[n]];
    }
  }

  lemma Rotated(r: seq<Byte>, n: nat, end: nat)
    requires end < n < |r|
    ensures var r' := r[end + 1..] + r[..end + 1];
      r'[..n - (end + 1)] == r[..n][end + 1..] && r'[n - (end + 1)..] == r[n..] + r[..n][..end + 1]
  {
  }

  // ---------------------------------------------------------------------------
  // Copying a packet out

  /** State of a copying loop; `top` is the number of bytes of the output buffer ever written. */
  datatype Copied = Copied(out: seq<Byte>, esc: bool, top: nat)

  function Higher(a: nat, b: nat): nat {
    if a < b then b else a
  }

  function CopyByte(c: Copied, b: Byte): Copied {
    var d := DecodeByte(Decoded(c.out, c.esc), b);
    Copied(d.out, d.esc, Higher(c.top, |d.out|))
  }

  /** One loop over `s`. The length is tested before each byte, and an excess starts it anew. */
  function CopyLoop(c: Copied, s: seq<Byte>, blen: nat): Copied
    decreases |s|
  {
    if s == [] then c
    else if |c.out| > blen then c.(out := [])
    else CopyLoop(CopyByte(c, s[0]), s[1..], blen)
  }

  /** What a poll returns for a packet that lies in memory as `s1`, up to the end of the buffer,
      and `s2`, from its beginning: the packet if all but its last byte stay within `blen`; if
      `s1` by itself does not, what `s2` gives as a packet of its own; and otherwise nothing. */
  ghost function Output(s1: seq<Byte>, s2: seq<Byte>, blen: nat): seq<Byte>
    decreases |s1|
  {
    var s := s1 + s2;
    if s == [] || |Decode(s[..|s| - 1]).out| <= blen then Decode(s).out
    else if s1 != [] && |Decode(s1[..|s1| - 1]).out| > blen then Output([], s2, blen)
    else []
  }

  /** A packet that fits is returned as it is. */
  lemma OutputFits(s1: seq<Byte>, s2: seq<Byte>, blen: nat)
    requires |Decode(s1 + s2).out| <= blen
    ensures Output(s1, s2, blen) == Decode(s1 + s2).out
  {
    var s := s1 + s2;
    if s != [] {
      DecodeTake(s, |s| - 1);
    }
  }

  /** A packet that is a byte too long is still returned whole, and a longer one that does not
      wrap around is not returned at all. */
  lemma OutputTooLong(p: seq<Byte>, s1: seq<Byte>, s2: seq<Byte>, blen: nat)
    requires s1 + s2 == Encode(p) && blen < |p|
    ensures |p| == blen + 1 ==> Output(s1, s2, blen) == p
    ensures |p| > blen + 1 && s1 == [] ==> Output(s1, s2, blen) == []
  {
    hide Encode, Decode;
    ButLast(p);
    RoundTrip(p);
  }

  ghost function After(pre: seq<Byte>): Copied {
    Copied(Decode(pre).out, Decode(pre).esc, |Decode(pre).out|)
  }

  lemma CopyNext(pre: seq<Byte>, b: Byte)
    ensures CopyByte(After(pre), b) == After(pre + [b])
  {
    DecodeSnoc(pre, b);
    hide Decode;
    DecodeGrows(pre, [b]);
  }

  /** The loop goes through as long as it stays within the limit before each byte. */
  lemma {:induction false} CopyFits(pre: seq<Byte>, s: seq<Byte>, blen: nat)
    requires s == [] || |Decode(pre + s[..|s| - 1]).out| <= blen
    ensures CopyLoop(After(pre), s, blen) == After(pre + s)
    decreases |s|
  {
    hide Decode, CopyByte;
    if s == [] {
      assert pre + s == pre;
    } else {
      var t := s[1..];
      DecodeGrows(pre, s[..|s| - 1]);
      CopyNext(pre, s[0]);
      assert pre + [s[0]] + t == pre + s;
      if t != [] {
        assert pre + [s[0]] + t[..|t| - 1] == pre + s[..|s| - 1];
      }
      CopyFits(pre + [s[0]], t, blen);
    }
  }

  /** Otherwise it breaks off right after a byte too many, outside an escape. */
  lemma {:induction false} CopyBreaks(pre: seq<Byte>, s: seq<Byte>, blen: nat)
    requires s != [] && |Decode(pre).out| <= blen < |Decode(pre + s[..|s| - 1]).out|
    ensures CopyLoop(After(pre), s, blen) == Copied([], false, blen + 1)
    decreases |s|
  {
    hide Decode, CopyByte;
    var t, pre' := s[1..], pre + [s[0]];
    assert pre + [] == pre;
    CopyNext(pre, s[0]);
    assert pre' + t[..|t| - 1] == pre + s[..|s| - 1];
    if |Decode(pre').out| <= blen {
      CopyBreaks(pre', t, blen);
    } else {
      OneByteMore(pre, s[0]);
      assert CopyLoop(After(pre'), t, blen) == After(pre').(out := []);
    }
  }

  lemma OneByteMore(pre: seq<Byte>, b: Byte)
    requires |Decode(pre + [b]).out| > |Decode(pre).out|
    ensures |Decode(pre + [b]).out| == |Decode(pre).out| + 1 && !Decode(pre + [b]).esc
  {
    DecodeSnoc(pre, b);
  }

  /** `top` does not influence what is copied, and never falls. */
  lemma {:induction false} CopyTop(c: Copied, d: Copied, s: seq<Byte>, blen: nat)
    requires c.out == d.out && c.esc == d.esc
    ensures var c', d' := CopyLoop(c, s, blen), CopyLoop(d, s, blen);
      c'.out == d'.out && c'.esc == d'.esc && c.top <= c'.top && d'.top <= Higher(c'.top, d.top)
    decreases |s|
  {
    if s != [] && |c.out| <= blen {
      CopyTop(CopyByte(c, s[0]), CopyByte(d, s[0]), s[1..], blen);
    }
  }

  lemma {:induction false} CopyTopBound(c: Copied, s: seq<Byte>, blen: nat)
    requires c.top <= blen + 1 && |c.out| <= blen + 1
    ensures CopyLoop(c, s, blen).top <= blen + 1
    decreases |s|
  {
    if s != [] && |c.out| <= blen {
      CopyTopBound(CopyByte(c, s[0]), s[1..], blen);
    }
  }

  /** One loop over a whole packet. */
  lemma CopyOne(s: seq<Byte>, blen: nat)
    ensures var c := CopyLoop(After([]), s, blen);
      && c.out == Output([], s, blen) && c.top <= blen + 1
      && (c.top > blen <==> |Decode(s).out| > blen)
  {
    DecodeNothing();
    hide Decode;
    assert [] + s == s;
    if s == [] || |Decode(s[..|s| - 1]).out| <= blen {
      assert s != [] ==> [] + s[..|s| - 1] == s[..|s| - 1];
      CopyFits([], s, blen);
      CopyTopBound(After([]), s, blen);
    } else {
      assert [] + s[..|s| - 1] == s[..|s| - 1];
      CopyBreaks([], s, blen);
      DecodeTake(s, |s| - 1);
    }
  }

  /** Both loops over a packet that wraps around: what is returned, and that the output buffer is
      overrun, by one byte, exactly if the packet is too long for it. */
  lemma CopyBoth(s1: seq<Byte>, s2: seq<Byte>, blen: nat)
    ensures var c := CopyLoop(CopyLoop(After([]), s1, blen), s2, blen);
      && c.out == Output(s1, s2, blen) && c.top <= blen + 1
      && (c.top > blen <==> |Decode(s1 + s2).out| > blen)
  {
    DecodeNothing();
    hide Decode;
    var s := s1 + s2;
    assert s[..|s1|] == s1;
    DecodeTake(s, |s1|);
    if s1 == [] {
      assert s == s2;
      CopyOne(s2, blen);
    } else if |Decode(s1[..|s1| - 1]).out| > blen {
      assert [] + s1[..|s1| - 1] == s1[..|s1| - 1];
      CopyBreaks([], s1, blen);
      TooLongAnyway(s1, s2, blen);
      CopyOne(s2, blen);
      var c := Copied([], false, blen + 1);
      CopyTop(c, After([]), s2, blen);
      CopyTopBound(c, s2, blen);
    } else {
      assert [] + s1 == s1 && [] + s1[..|s1| - 1] == s1[..|s1| - 1];
      CopyFits([], s1, blen);
      assert CopyLoop(After([]), s1, blen) == After(s1);
      CopySecond(s1, s2, blen);
    }
  }

  lemma TooLongAnyway(s1: seq<Byte>, s2: seq<Byte>, blen: nat)
    requires s1 != [] && |Decode(s1[..|s1| - 1]).out| > blen
    ensures s1 + s2 != [] && |Decode((s1 + s2)[..|s1 + s2| - 1]).out| > blen && |Decode(s1 + s2).out| > blen
  {
    hide Decode;
    var s := s1 + s2;
    var t := s[..|s| - 1];
    assert t[..|s1| - 1] == s1[..|s1| - 1];
    DecodeTake(t, |s1| - 1);
    DecodeTake(s, |s| - 1);
  }

  lemma CopySecond(s1: seq<Byte>, s2: seq<Byte>, blen: nat)
    requires s1 != [] && |Decode(s1[..|s1| - 1]).out| <= blen
    ensures var c := CopyLoop(After(s1), s2, blen);
      && c.out == Output(s1, s2, blen) && c.top <= blen + 1
      && (c.top > blen <==> |Decode(s1 + s2).out| > blen)
  {
    hide Decode;
    var s := s1 + s2;
    assert s1 == s1[..|s1| - 1] + [s1[|s1| - 1]];
    GrowsByOne(s1[..|s1| - 1], s1[|s1| - 1]);
    if s2 == [] {
      assert s == s1;
    } else {
      assert s[..|s| - 1] == s1 + s2[..|s2| - 1];
      DecodeGrows(s1, s2[..|s2| - 1]);
      DecodeTake(s, |s| - 1);
      if |Decode(s[..|s| - 1]).out| <= blen {
        CopyFits(s1, s2, blen);
        CopyTopBound(After(s1), s2, blen);
      } else if |Decode(s1).out| <= blen {
        CopyBreaks(s1, s2, blen);
      } else {
        assert CopyLoop(After(s1), s2, blen) == After(s1).(out := []);
      }
    }
  }

  lemma GrowsByOne(t: seq<Byte>, b: Byte)
    ensures |Decode(t + [b]).out| <= |Decode(t).out| + 1
  {
    DecodeSnoc(t, b);
  }

  // ---------------------------------------------------------------------------
  // The receiver

  class Receiver {
    const rxbuf: array<Byte>
    var begin: nat
    var nextFree: nat
    var pktEnd: nat
    var phase: Phase

    ghost predicate Valid()
      reads this
    {
      && begin < rxbuf.Length && nextFree < rxbuf.Length && pktEnd < rxbuf.Length
      && Off(rxbuf.Length, begin, pktEnd) <= Off(rxbuf.Length, begin, nextFree)
    }

    /** The queue that the ring stores. */
    ghost function View(): (q: Queue)
      requires Valid()
      reads this, rxbuf
      ensures Sane(q) && |q.content| + |q.stale| == rxbuf.Length
    {
      Stored(Rot(rxbuf[..], begin), Off(rxbuf.Length, begin, nextFree), Off(rxbuf.Length, begin, pktEnd), phase)
    }

    /** Static memory, and rxbuf_init */
    constructor (size: nat)
      requires 0 < size
      ensures Valid() && fresh(rxbuf) && rxbuf.Length == size && View() == Fresh(size)
    {
      rxbuf := new Byte[size](_ => 0);
      begin, nextFree, pktEnd, phase := 0, 0, 0, Ok;
    }

    /** slip_input_byte; `poll` tells whether it asks for the process to be polled. */
    method InputByte(c: Byte) returns (poll: bool)
      requires Valid()
      modifies this, rxbuf
      ensures Valid() && View() == Input(old(View()), c)
      ensures poll <==> c == END && |View().content| > |old(View()).content|
      ensures begin == old(begin)
      ensures View().end != old(View()).end ==> poll
    {
      hide Rot, Stored;
      poll := false;
      ghost var r, n, e := Rot(rxbuf[..], begin), Off(rxbuf.Length, begin, nextFree), Off(rxbuf.Length, begin, pktEnd);
      StoredParts(r, n, e, phase);
      StoredGiveUp(r, n, e, phase);
      StoredPhase(r, n, e, phase);
      if phase == Rubbish {
        if c == END {
          phase := Ok;
        }
        return;
      }
      if phase == Esc {
        if c != ESC_END && c != ESC_ESC {
          phase := Rubbish;
          nextFree := pktEnd;
          return;
        }
        phase := Ok;
      }
      if c == ESC {
        phase := Esc;
      }
      poll := AddChar(c);
    }

    /** slip_input_byte from its label add_char on. */
    method AddChar(c: Byte) returns (poll: bool)
      requires Valid() && phase != Rubbish && (phase == Esc <==> c == ESC)
      modifies this, rxbuf
      ensures Valid() && View() == Input(old(View()).(phase := Ok), c)
      ensures poll <==> c == END && |View().content| > |old(View()).content|
      ensures begin == old(begin)
      ensures View().end != old(View()).end ==> poll
    {
      hide Rot, Stored, Input;
      poll := false;
      ghost var r, n, e := Rot(rxbuf[..], begin), Off(rxbuf.Length, begin, nextFree), Off(rxbuf.Length, begin, pktEnd);
      StoredParts(r, n, e, phase);
      StoredPhase(r, n, e, phase);
      StoredInput(r, n, e, c);
      AddedBytes(r, n, e, c);
      RotStore(rxbuf[..], begin, n, c);
      var curEnd := nextFree;
      nextFree := nextFree + 1;
      if nextFree == rxbuf.Length {
        nextFree := 0;
      }
      if nextFree == begin {
        phase := Rubbish;
        nextFree := pktEnd;
        return;
      }
      rxbuf[curEnd] := c;
      if c == END {
        if curEnd != pktEnd {
          if begin == pktEnd {
            pktEnd := curEnd;
          }
          poll := true;
          return;
        }
        nextFree := curEnd;
      }
    }

    /** One of the copying loops of slip_poll_handler, over `rxbuf[lo..hi]`. */
    method CopySpan(lo: nat, hi: nat, blen: nat, out: seq<Byte>, esc: bool, ghost top: nat)
      returns (out': seq<Byte>, esc': bool, ghost top': nat)
      requires lo <= hi <= rxbuf.Length
      ensures Copied(out', esc', top') == CopyLoop(Copied(out, esc, top), rxbuf[lo..hi], blen)
    {
      out', esc', top' := out, esc, top;
      var i := lo;
      while i < hi
        invariant lo <= i <= hi
        invariant CopyLoop(Copied(out', esc', top'), rxbuf[i..hi], blen) == CopyLoop(Copied(out, esc, top), rxbuf[lo..hi], blen)
      {
        assert rxbuf[i..hi][0] == rxbuf[i] && rxbuf[i..hi][1..] == rxbuf[i + 1..hi];
        if |out'| > blen {
          out' := [];
          return;
        }
        if esc' {
          if rxbuf[i] == ESC_ESC {
            out' := out' + [ESC];
          } else if rxbuf[i] == ESC_END {
            out' := out' + [END];
          }
          esc' := false;
        } else if rxbuf[i] == ESC {
          esc' := true;
        } else {
          out' := out' + [rxbuf[i]];
        }
        top' := Higher(top', |out'|);
        i := i + 1;
      }
    }

    /** Where the first packet wraps around, if it does. */
    ghost function Seam(): (k: nat)
      requires Valid()
      reads this
      ensures k <= View().end
    {
      if begin < pktEnd || begin == pktEnd then 0 else rxbuf.Length - begin
    }

    /** The copying half of slip_poll_handler: what it returns, and how much of the output buffer
        it writes. */
    method CopyPacket(blen: nat) returns (out: seq<Byte>, ghost top: nat)
      requires Valid() && begin != pktEnd
      ensures var p := View().content[..View().end];
        && out == Output(p[..Seam()], p[Seam()..], blen)
        && top <= blen + 1 && (top > blen <==> |Decode(p).out| > blen)
    {
      hide Decode, Rot, Output, CopyLoop;
      ghost var e := Off(rxbuf.Length, begin, pktEnd);
      ghost var r := Rot(rxbuf[..], begin);
      ghost var p := r[..e];
      StoredParts(r, Off(rxbuf.Length, begin, nextFree), e, phase);
      RotSpans(rxbuf[..], begin, e);
      DecodeNothing();
      var esc := false;
      out, top := [], 0;
      assert Copied(out, esc, top) == After([]);
      if begin < pktEnd {
        assert rxbuf[begin..pktEnd] == p == p[0..] && p[..0] == [];
        out, esc, top := CopySpan(begin, pktEnd, blen, out, esc, top);
        CopyOne(p, blen);
      } else {
        ghost var k := rxbuf.Length - begin;
        TakeTake(r, k, e);
        assert rxbuf[begin..rxbuf.Length] == rxbuf[..][begin..];
        assert rxbuf[0..pktEnd] == rxbuf[..][..pktEnd];
        out, esc, top := CopySpan(begin, rxbuf.Length, blen, out, esc, top);
        out, esc, top := CopySpan(0, pktEnd, blen, out, esc, top);
        assert p[..k] + p[k..] == p;
        CopyBoth(p[..k], p[k..], blen);
      }
    }

    /** slip_poll_handler; `again` tells whether it asks to be polled once more, and `top` how many
        bytes of the output buffer are written. */
    method PollHandler(blen: nat) returns (out: seq<Byte>, again: bool, ghost top: nat)
      requires Valid()
      modifies this
      ensures Valid()
      ensures old(View()).end == 0 ==> View() == old(View()) && out == [] && top == 0
      ensures old(View()).end > 0 ==> View() == Poll(old(View()))
      ensures old(View()).end > 0 ==>
        var p := old(View()).content[..old(View()).end];
        && out == Output(p[..old(Seam())], p[old(Seam())..], blen)
        && top <= blen + 1 && (top > blen <==> |Decode(p).out| > blen)
      ensures again <==> old(View()).end > 0 && END in View().content
    {
      hide Decode, Rot, FirstEnd, Stored, Output, Poll;
      again := false;
      StoredParts(Rot(rxbuf[..], begin), Off(rxbuf.Length, begin, nextFree), Off(rxbuf.Length, begin, pktEnd), phase);
      if begin == pktEnd {
        return [], false, 0;
      }
      out, top := CopyPacket(blen);
      again := Remove();
    }

    /** The second half of slip_poll_handler: the copied packet is taken off. */
    method Remove() returns (again: bool)
      requires Valid()
      modifies `begin, `pktEnd
      ensures Valid() && View() == Poll(old(View()))
      ensures again <==> END in View().content
    {
      hide Rot, FirstEnd, Stored, Poll;
      ghost var r, n, e := Rot(rxbuf[..], begin), Off(rxbuf.Length, begin, nextFree), Off(rxbuf.Length, begin, pktEnd);
      StoredPoll(r, n, e, phase);
      if e + 1 < rxbuf.Length {
        RotShift(rxbuf[..], begin, e + 1);
      }
      Advance();
      ghost var r', left := Rot(rxbuf[..], pktEnd), Left(rxbuf.Length, n, e);
      assert Off(rxbuf.Length, pktEnd, nextFree) == left;
      again := FindEnd(nextFree);
      StoredParts(r', left, Off(rxbuf.Length, begin, pktEnd), phase);
      assert View().content == r'[..left];
    }

    /** Steps over the terminator of the copied packet. */
    method Advance()
      requires Valid()
      modifies `pktEnd
      ensures pktEnd == if old(pktEnd) + 1 == rxbuf.Length then 0 else old(pktEnd) + 1
      ensures old(View()).end < |old(View()).content| ==>
        Valid() && View() == old(View()).(end := old(View()).end + 1)
    {
      pktEnd := pktEnd + 1;
      if pktEnd == rxbuf.Length {
        pktEnd := 0;
      }
    }

    /** The rest of slip_poll_handler: with `pktEnd` just past the packet, look for the next
        terminator up to `limit`, where `nextFree` was. */
    method FindEnd(limit: nat) returns (again: bool)
      requires pktEnd < rxbuf.Length && limit < rxbuf.Length
      modifies `begin, `pktEnd
      ensures begin == old(pktEnd) && pktEnd < rxbuf.Length
      ensures var m := Off(rxbuf.Length, begin, pktEnd);
        && m == FirstEnd(Rot(rxbuf[..], begin)[..Off(rxbuf.Length, begin, limit)]) <= Off(rxbuf.Length, begin, limit)
        && (again <==> END in Rot(rxbuf[..], begin)[..Off(rxbuf.Length, begin, limit)])
    {
      again := false;
      var size := rxbuf.Length;
      ghost var rest := Rot(rxbuf[..], pktEnd)[..Off(size, pktEnd, limit)];
      FirstEndBound(rest);
      hide FirstEnd;
      var cur: nat := pktEnd;
      while cur != limit
        invariant cur < size && Off(size, pktEnd, cur) <= |rest| && pktEnd == old(pktEnd)
        invariant forall i :: 0 <= i < Off(size, pktEnd, cur) ==> rest[i] != END
        decreases |rest| - Off(size, pktEnd, cur)
      {
        if rxbuf[cur] == END {
          FirstEndIs(rest, Off(size, pktEnd, cur));
          begin, pktEnd := pktEnd, cur;
          again := true;
          return;
        }
        cur := cur + 1;
        if cur == size {
          cur := 0;
        }
      }
      FirstEndNone(rest);
      begin := pktEnd;
    }

    /** The same when bytes have arrived since `limit` was noted. */
    method Finish(limit: nat)
      requires Valid() && begin != pktEnd && limit < rxbuf.Length
      requires View().end <= Off(rxbuf.Length, begin, limit) <= |View().content|
      modifies `begin, `pktEnd
      ensures Valid() && View() == Release(old(View()), old(Off(rxbuf.Length, begin, limit)))
    {
      hide Rot, FirstEnd, Stored;
      ghost var b, r, n, e := begin, Rot(rxbuf[..], begin), Off(rxbuf.Length, begin, nextFree), Off(rxbuf.Length, begin, pktEnd);
      ghost var k := Off(rxbuf.Length, begin, limit);
      StoredParts(r, n, e, phase);
      StoredRelease(r, n, e, k, phase);
      RotShift(rxbuf[..], begin, e);
      assert Off(rxbuf.Length, pktEnd, limit) == k - e && Off(rxbuf.Length, pktEnd, nextFree) == n - e;
      var _ := FindEnd(limit);
      StoredParts(Rot(rxbuf[..], begin), n - e, Off(rxbuf.Length, begin, pktEnd), phase);
    }
  }

  /** What releasing the memory up to `pkt_end` does to the queue. */
  lemma StoredRelease(r: seq<Byte>, n: nat, e: nat, k: nat, phase: Phase)
    requires 0 < e <= k <= n < |r|
    ensures var r' := r[e..] + r[..e];
      && FirstEnd(r'[..k - e]) <= k - e
      && Release(Stored(r, n, e, phase), k) == Stored(r', n - e, FirstEnd(r'[..k - e]), phase)
  {
    var r' := r[e..] + r[..e];
    FirstEndBound(r'[..k - e]);
    hide FirstEnd;
    assert r'[..n - e] == r[..n][e..] && r'[n - e..] == r[n..] + r[..n][..e] && r'[..k - e] == r[..n][e..k];
  }

  lemma StoredParts(r: seq<Byte>, n: nat, end: nat, phase: Phase)
    requires end <= n < |r|
    ensures var q := Stored(r, n, end, phase);
      q.content == r[..n] && q.end == end && q.phase == phase && q.stale == r[n..]
    ensures r[..n][..end] == r[..end]
  {
  }

  /** Whether the queue gets longer. */
  lemma AddedBytes(r: seq<Byte>, n: nat, e: nat, c: Byte)
    requires e <= n < |r|
    ensures var q := Input(Stored(r, n, e, Ok), c);
      && |Stored(r, n, e, Ok).content| == n && Stored(r, n, e, Ok).end == e
      && (|q.content| > n <==> n + 1 < |r| && !(c == END && n == e))
      && (q.end != e ==> c == END && n + 1 < |r| && n != e)
  {
  }

  lemma StoredPhase(r: seq<Byte>, n: nat, end: nat, phase: Phase)
    requires end <= n < |r|
    ensures Stored(r, n, end, Ok) == Stored(r, n, end, phase).(phase := Ok)
    ensures Stored(r, n, end, Esc) == Stored(r, n, end, phase).(phase := Esc)
  {
  }

  // ---------------------------------------------------------------------------
  // The process

  /** slip_process fed by the interrupt, with an output buffer that can take whatever the ring can
      hold: over any bytes and polls, the packets handed to the stack are those of the session. */
  method Process(r: Receiver, blen: nat, events: seq<Event>) returns (got: seq<seq<Byte>>)
    requires r.Valid() && r.View() == Fresh(r.rxbuf.Length) && r.rxbuf.Length <= blen + 1
    modifies r, r.rxbuf
    ensures r.Valid() && r.View() == Play(r.rxbuf.Length, events).q
    ensures got == Play(r.rxbuf.Length, events).got
  {
    hide Play, Input, Poll, Decode;
    got := [];
    var size := r.rxbuf.Length;
    NothingPlayed(size);
    for i := 0 to |events|
      invariant r.Valid() && r.View() == Play(size, events[..i]).q
      invariant got == Play(size, events[..i]).got
    {
      ghost var s := Play(size, events[..i]);
      PlayNext(size, events, i);
      match events[i]
      case Receive(c) =>
        var _ := r.InputByte(c);
      case PollNow =>
        PolledAtMost(s.q, r.Seam(), size, blen);
        var out, _, _ := r.PollHandler(blen);
        if out != [] {
          got := got + [out];
        }
    }
    assert events[..|events|] == events;
  }

  /** The local variables of a poll under way; `limit` is `cur_next_free`. */
  datatype Local = Idle | Kept(out: seq<Byte>) | Noted(out: seq<Byte>, limit: nat)

  ghost predicate Agrees(stage: Stage, size: nat, begin: nat, v: Local) {
    match stage
    case Waiting => v == Idle
    case Taken(p) => v == Kept(p)
    case Looked(p, k) => v.Noted? && v.out == p && begin < size && v.limit < size && Off(size, begin, v.limit) == k
  }

  /** The same with polls that the interrupt cuts into. */
  method ProcessStaged(r: Receiver, blen: nat, steps: seq<Step>) returns (got: seq<seq<Byte>>)
    requires r.Valid() && r.View() == Fresh(r.rxbuf.Length) && r.rxbuf.Length <= blen + 1
    modifies r, r.rxbuf
    ensures r.Valid() && r.View() == Perform(r.rxbuf.Length, steps).q
    ensures got == Perform(r.rxbuf.Length, steps).got
  {
    hide Perform, Act, Agrees;
    got := [];
    var size := r.rxbuf.Length;
    NothingPerformed(size);
    var v := Idle;
    assert Agrees(Waiting, size, r.begin, v) by {
      IdleAgrees(size, r.begin);
    }
    for i := 0 to |steps|
      invariant r.Valid() && r.View() == Perform(size, steps[..i]).q && got == Perform(size, steps[..i]).got
      invariant Agrees(Perform(size, steps[..i]).stage, size, r.begin, v)
    {
      PerformNext(size, steps, i);
      v, got := ProcessStep(r, blen, steps[i], v, got, Perform(size, steps[..i]));
    }
    assert steps[..|steps|] == steps;
  }

  lemma IdleAgrees(size: nat, begin: nat)
    ensures Agrees(Waiting, size, begin, Idle)
  {
  }

  method ProcessStep(r: Receiver, blen: nat, e: Step, v: Local, got: seq<seq<Byte>>, ghost s: Staged)
    returns (v': Local, got': seq<seq<Byte>>)
    requires r.Valid() && r.View() == s.q && got == s.got && r.rxbuf.Length <= blen + 1
    requires Agrees(s.stage, r.rxbuf.Length, r.begin, v) && (s.stage != Waiting ==> 0 < s.q.end)
    modifies r, r.rxbuf
    ensures r.Valid() && r.View() == Act(s, e).q && got' == Act(s, e).got
    ensures Agrees(Act(s, e).stage, r.rxbuf.Length, r.begin, v')
  {
    hide Input, Poll, Decode, Release, Rot;
    v', got' := v, got;
    match e
    case Arrive(c) =>
      var _ := r.InputByte(c);
    case Take =>
      if v == Idle && r.begin != r.pktEnd {
        v', got' := TakeOut(r, blen, got, s);
      }
    case Look =>
      if v.Kept? {
        v' := Noted(v.out, r.nextFree);
      }
    case Commit =>
      if v.Noted? {
        var size := r.rxbuf.Length;
        var k := Off(size, r.begin, v.limit);
        if Off(size, r.begin, r.pktEnd) <= k <= Off(size, r.begin, r.nextFree) {
          r.Finish(v.limit);
          got' := if v.out == [] then got else got + [v.out];
          v' := Idle;
        }
      }
  }

  /** The first step of a poll. */
  method TakeOut(r: Receiver, blen: nat, got: seq<seq<Byte>>, ghost s: Staged) returns (v: Local, got': seq<seq<Byte>>)
    requires r.Valid() && r.View() == s.q && got == s.got && r.rxbuf.Length <= blen + 1
    requires s.stage == Waiting && r.begin != r.pktEnd
    modifies r
    ensures r.Valid() && r.View() == Act(s, Take).q && got' == Act(s, Take).got
    ensures Agrees(Act(s, Take).stage, r.rxbuf.Length, r.begin, v)
  {
    hide Poll, Decode, Rot;
    PolledAtMost(s.q, r.Seam(), r.rxbuf.Length, blen);
    ghost var top;
    var out;
    out, top := r.CopyPacket(blen);
    if r.pktEnd != r.nextFree {
      r.Advance();
      v, got' := Kept(out), got;
    } else {
      var _ := r.Remove();
      v := Idle;
      got' := if out == [] then got else got + [out];
    }
  }

  lemma NothingPerformed(size: nat)
    requires 0 < size
    ensures Perform(size, []) == Staged(Fresh(size), [], [], Waiting)
  {
  }

  lemma PerformNext(size: nat, steps: seq<Step>, i: nat)
    requires 0 < size && i < |steps|
    ensures Perform(size, steps[..i + 1]) == Act(Perform(size, steps[..i]), steps[i])
  {
    hide Input, Poll, Release, Decode;
    assert steps[..i + 1][..i] == steps[..i];
  }

  /** What is decoded is never longer than what was stored. */
  lemma PolledAtMost(q: Queue, k: nat, size: nat, blen: nat)
    requires Sane(q) && k <= q.end && |q.content| + |q.stale| == size <= blen + 1
    ensures var p := q.content[..q.end]; Output(p[..k], p[k..], blen) == Decode(p).out
  {
    var p := q.content[..q.end];
    assert p[..k] + p[k..] == p;
    DecodeShortens(p);
    OutputFits(p[..k], p[k..], blen);
  }

  lemma {:induction false} DecodeShortens(s: seq<Byte>)
    ensures |Decode(s).out| <= |s|
    decreases |s|
  {
    if s != [] {
      DecodeShortens(s[..|s| - 1]);
    }
  }

  /** The same with an output buffer that can take each packet, for a stream of frames and a ring
      that never fills: the packets handed on are the first of those sent, in order. */
  method ProcessFrames(r: Receiver, blen: nat, events: seq<Event>, ghost ps: seq<seq<Byte>>)
    returns (got: seq<seq<Byte>>)
    requires r.Valid() && r.View() == Fresh(r.rxbuf.Length)
    requires NonEmpty(ps) && forall i :: 0 <= i < |ps| ==> |ps[i]| <= blen
    requires NeverFull(r.rxbuf.Length, events) && Play(r.rxbuf.Length, events).sent <= Frames(ps)
    modifies r, r.rxbuf
    ensures r.Valid() && r.View() == Play(r.rxbuf.Length, events).q
    ensures got == Play(r.rxbuf.Length, events).got && got <= ps
  {
    hide Play, NeverFull, Frames, InStep, Input, Poll, Decode;
    got := [];
    var size := r.rxbuf.Length;
    NothingPlayed(size);
    for i := 0 to |events|
      invariant r.Valid() && r.View() == Play(size, events[..i]).q
      invariant got == Play(size, events[..i]).got
    {
      ghost var s := Play(size, events[..i]);
      PrefixRuns(size, events, i);
      PacketsInOrder(ps, size, events[..i]);
      PlayNext(size, events, i);
      match events[i]
      case Receive(c) =>
        var _ := r.InputByte(c);
      case PollNow =>
        if s.q.end > 0 {
          PolledPacket(ps, s, r.Seam(), blen);
        }
        var out, _, _ := r.PollHandler(blen);
        if out != [] {
          got := got + [out];
        }
    }
    assert events[..|events|] == events;
    PacketsInOrder(ps, size, events);
    InOrder(ps, Play(size, events));
  }

  lemma PolledPacket(ps: seq<seq<Byte>>, s: Session, k: nat, blen: nat)
    requires NonEmpty(ps) && InStep(ps, s) && 0 < s.q.end && k <= s.q.end <= |s.q.content|
    requires forall i :: 0 <= i < |ps| ==> |ps[i]| <= blen
    ensures var p := s.q.content[..s.q.end]; Output(p[..k], p[k..], blen) == Decode(p).out != []
  {
    hide InStep, Decode, Encode, FirstEnd;
    FirstFrame(ps, s);
    RoundTrip(ps[|s.got|]);
    var p := s.q.content[..s.q.end];
    assert p[..k] + p[k..] == p;
    OutputFits(p[..k], p[k..], blen);
  }

  lemma InOrder(ps: seq<seq<Byte>>, s: Session)
    requires InStep(ps, s)
    ensures s.got <= ps
  {
  }
}
