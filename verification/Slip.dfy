/** SLIP between tools/tunslip6.c and os/dev/slip.c: the encoder on the host, and on the
    mote an interrupt-side automaton and a poll-side decoder that share a cyclic buffer. The
    framing is that of RFC 1055. */
module Slip {
  import opened Bytes

  const END: Byte := 192
  const ESC: Byte := 219
  const ESC_END: Byte := 220
  const ESC_ESC: Byte := 221

  // ---------------------------------------------------------------------------
  // The encoder

  function EncodeByte(b: Byte): seq<Byte> {
    if b == END then [ESC, ESC_END] else if b == ESC then [ESC, ESC_ESC] else [b]
  }

  function Encode(p: seq<Byte>): seq<Byte>
    decreases |p|
  {
    if p == [] then [] else Encode(p[..|p| - 1]) + EncodeByte(p[|p| - 1])
  }

  /** `write_to_serial` without XON/XOFF flow control: what it appends to slip_buf. */
  method WriteToSerial(p: seq<Byte>) returns (out: seq<Byte>)
    ensures out == Encode(p) + [END]
  {
    out := [];
    for i := 0 to |p|
      invariant out == Encode(p[..i])
    {
      assert p[..i + 1][..i] == p[..i];
      if p[i] == END {
        out := out + [ESC];
        out := out + [ESC_END];
        assert out == Encode(p[..i]) + EncodeByte(p[i]);
      } else if p[i] == ESC {
        out := out + [ESC];
        out := out + [ESC_ESC];
        assert out == Encode(p[..i]) + EncodeByte(p[i]);
      } else {
        out := out + [p[i]];
      }
    }
    assert p[..|p|] == p;
    out := out + [END];
  }

  /** The decoder's state after some input: bytes produced, and whether an escape is open. */
  datatype Decoded = Decoded(out: seq<Byte>, esc: bool)

  function DecodeByte(d: Decoded, b: Byte): Decoded {
    if d.esc then
      if b == ESC_ESC then Decoded(d.out + [ESC], false)
      else if b == ESC_END then Decoded(d.out + [END], false)
      else Decoded(d.out, false)
    else if b == ESC then Decoded(d.out, true)
    else Decoded(d.out + [b], false)
  }

  function Decode(s: seq<Byte>): Decoded
    decreases |s|
  {
    if s == [] then Decoded([], false) else DecodeByte(Decode(s[..|s| - 1]), s[|s| - 1])
  }

  lemma DecodeNothing()
    ensures Decode([]) == Decoded([], false)
  {
  }

  lemma DecodeSnoc(s: seq<Byte>, b: Byte)
    ensures Decode(s + [b]) == DecodeByte(Decode(s), b)
  {
    assert (s + [b])[..|s|] == s;
  }

  lemma EncodeSnoc(p: seq<Byte>, b: Byte)
    ensures Encode(p + [b]) == Encode(p) + EncodeByte(b)
  {
    assert (p + [b])[..|p|] == p;
  }

  lemma DecodeOne(b: Byte)
    requires b != ESC
    ensures Decode([b]) == Decoded([b], false)
  {
    DecodeNothing();
    DecodeSnoc([], b);
    assert [] + [b] == [b];
  }

  lemma EncodeOne(b: Byte)
    requires b != END && b != ESC
    ensures Encode([b]) == [b]
  {
    EncodeSnoc([], b);
    assert [] + [b] == [b];
  }

  lemma DecodeEscape(s: seq<Byte>, b: Byte)
    requires !Decode(s).esc
    ensures Decode(s + EncodeByte(b)) == Decoded(Decode(s).out + [b], false)
  {
    hide Decode;
    if b == END || b == ESC {
      var x := if b == END then ESC_END else ESC_ESC;
      DecodeSnoc(s, ESC);
      DecodeSnoc(s + [ESC], x);
      assert s + EncodeByte(b) == s + [ESC] + [x];
    } else {
      DecodeSnoc(s, b);
    }
  }

  /** Decoding undoes encoding. */
  lemma {:induction false} RoundTrip(p: seq<Byte>)
    ensures Decode(Encode(p)) == Decoded(p, false)
    decreases |p|
  {
    if p != [] {
      hide Encode, Decode, EncodeByte;
      var n := |p| - 1;
      RoundTrip(p[..n]);
      assert p == p[..n] + [p[n]];
      OneByteBack(p[..n], p[n]);
    }
  }

  lemma OneByteBack(q: seq<Byte>, b: Byte)
    requires Decode(Encode(q)) == Decoded(q, false)
    ensures Decode(Encode(q + [b])) == Decoded(q + [b], false)
  {
    hide Encode, Decode, EncodeByte;
    EncodeSnoc(q, b);
    DecodeEscape(Encode(q), b);
  }

  /** Every ESC is followed by an escape code. */
  ghost predicate Closed(s: seq<Byte>) {
    forall i :: 0 <= i < |s| && s[i] == ESC ==> i + 1 < |s| && (s[i + 1] == ESC_END || s[i + 1] == ESC_ESC)
  }

  /** An encoded packet contains no END, and every ESC in it opens a valid escape. */
  ghost predicate Escaped(s: seq<Byte>) {
    (forall i :: 0 <= i < |s| ==> s[i] != END) && Closed(s)
  }

  lemma {:induction false} EncodeEscapes(p: seq<Byte>)
    ensures Escaped(Encode(p)) && |p| <= |Encode(p)|
    decreases |p|
  {
    if p != [] {
      var q := p[..|p| - 1];
      EncodeEscapes(q);
      var s, e := Encode(q), EncodeByte(p[|p| - 1]);
      forall i | 0 <= i < |s + e| && (s + e)[i] == ESC
        ensures i + 1 < |s + e| && ((s + e)[i + 1] == ESC_END || (s + e)[i + 1] == ESC_ESC)
      {
        if i < |s| {
          assert s[i] == ESC;
        }
      }
    }
  }

  // ---------------------------------------------------------------------------
  // The receiver, abstractly

  datatype Phase = Ok | Esc | Rubbish

  /** The ring as a queue of bytes: `content` from `begin` to `next_free`, and the offset
      `end` of `pkt_end`, which is 0 when no complete packet is buffered. The rest of the memory
      keeps its old bytes, `stale`, from `next_free` round to `begin`; one slot always stays
      unused. */
  datatype Queue = Queue(content: seq<Byte>, end: nat, phase: Phase, stale: seq<Byte>)

  ghost predicate Sane(q: Queue) {
    q.end <= |q.content| && q.stale != []
  }

  /** An initialised ring in zeroed memory. */
  function Fresh(size: nat): Queue {
    Queue([], 0, Ok, seq(size, _ => 0))
  }

  /** Offset of the first END, or 0 if there is none. */
  function FirstEnd(s: seq<Byte>): nat
    decreases |s|
  {
    if s == [] then 0
    else
      var n := |s| - 1;
      if exists i :: 0 <= i < n && s[i] == END then FirstEnd(s[..n]) else if s[n] == END then n else 0
  }

  lemma {:induction false} FirstEndIs(s: seq<Byte>, m: nat)
    requires m < |s| && s[m] == END && forall i :: 0 <= i < m ==> s[i] != END
    ensures FirstEnd(s) == m
    decreases |s|
  {
    var n := |s| - 1;
    if m < n {
      FirstEndIs(s[..n], m);
    }
  }

  lemma FirstEndNone(s: seq<Byte>)
    requires forall i :: 0 <= i < |s| ==> s[i] != END
    ensures FirstEnd(s) == 0
  {
  }

  /** Gives up what comes after the first packet. */
  function GiveUp(q: Queue): Queue
    requires q.end <= |q.content|
  {
    q.(phase := Rubbish, content := q.content[..q.end], stale := q.content[q.end..] + q.stale)
  }

  /** Effect of one received byte. */
  function Input(q: Queue, c: Byte): Queue
    requires q.end <= |q.content| && q.stale != []
  {
    if q.phase == Rubbish then
      if c == END then q.(phase := Ok) else q
    else if q.phase == Esc && c != ESC_END && c != ESC_ESC then GiveUp(q)
    else if |q.stale| == 1 then GiveUp(q)
    else if c != END then
      q.(content := q.content + [c], stale := q.stale[1..], phase := if c == ESC then Esc else Ok)
    else if |q.content| != q.end then
      q.(content := q.content + [c], stale := q.stale[1..], phase := Ok,
         end := if q.end == 0 then |q.content| else q.end)
    else
      q.(phase := Ok, stale := [END] + q.stale[1..])
  }

  /** What follows the first packet: usually the bytes after its terminator. When the terminator
      has been given up, the search for the next one goes on into stale memory, all around. */
  function Rest(q: Queue): seq<Byte>
    requires q.end <= |q.content| && q.stale != []
  {
    if q.end < |q.content| then q.content[q.end + 1..] else q.stale[1..] + q.content
  }

  /** Effect of a poll that takes a packet. */
  function Poll(q: Queue): Queue
    requires q.end <= |q.content| && q.stale != []
  {
    var rest := Rest(q);
    q.(content := rest, end := FirstEnd(rest),
       stale := if q.end < |q.content| then q.stale + q.content[..q.end + 1] else [q.stale[0]])
  }

  lemma InputIsSane(q: Queue, c: Byte)
    requires Sane(q)
    ensures Sane(Input(q, c)) && |Input(q, c).content| + |Input(q, c).stale| == |q.content| + |q.stale|
  {
  }

  lemma PollIsSane(q: Queue)
    requires Sane(q)
    ensures Sane(Poll(q)) && |Poll(q).content| + |Poll(q).stale| == |q.content| + |q.stale|
  {
    FirstEndBound(Rest(q));
  }

  // ---------------------------------------------------------------------------
  // What arrives

  datatype Event = Receive(c: Byte) | PollNow

  /** The receiver after some events, what has been sent to it, and what polls returned. */
  datatype Session = Session(q: Queue, sent: seq<Byte>, got: seq<seq<Byte>>)

  /** One event. A decoded packet is handed on unless it is empty. */
  ghost function React(s: Session, e: Event): Session
    requires Sane(s.q)
  {
    match e
    case Receive(c) => s.(q := Input(s.q, c), sent := s.sent + [c])
    case PollNow =>
      if 0 < s.q.end then
        var p := Decode(s.q.content[..s.q.end]).out;
        s.(q := Poll(s.q), got := if p == [] then s.got else s.got + [p])
      else s
  }

  lemma ReactIsSane(s: Session, e: Event)
    requires Sane(s.q)
    ensures var q := React(s, e).q;
      Sane(q) && |q.content| + |q.stale| == |s.q.content| + |s.q.stale|
  {
    hide Input, Poll, Sane;
    match e
    case Receive(c) => InputIsSane(s.q, c);
    case PollNow => PollIsSane(s.q);
  }

  lemma FirstEndBound(s: seq<Byte>)
    ensures FirstEnd(s) <= |s| && (FirstEnd(s) > 0 ==> FirstEnd(s) < |s| && s[FirstEnd(s)] == END)
    ensures FirstEnd(s) > 0 ==> forall i :: 0 <= i < FirstEnd(s) ==> s[i] != END
    ensures FirstEnd(s) == 0 ==> forall i :: 0 < i < |s| ==> s[i] == END ==> s[0] == END
    decreases |s|
  {
    if s != [] {
      var n := |s| - 1;
      FirstEndBound(s[..n]);
    }
  }

  ghost function Play(size: nat, events: seq<Event>): (s: Session)
    requires 0 < size
    ensures Sane(s.q) && |s.q.content| + |s.q.stale| == size
    decreases |events|
  {
    if events == [] then Session(Fresh(size), [], [])
    else
      var n := |events| - 1;
      var s := Play(size, events[..n]);
      ReactIsSane(s, events[n]);
      React(s, events[n])
  }

  /** The ring has room whenever a byte arrives. */
  ghost predicate NeverFull(size: nat, events: seq<Event>)
    requires 0 < size
    decreases |events|
  {
    events == [] ||
    var n := |events| - 1;
    NeverFull(size, events[..n]) && (events[n].Receive? ==> |Play(size, events[..n]).q.content| + 1 < size)
  }

  /** The byte stream for a list of packets. */
  ghost function Frames(ps: seq<seq<Byte>>): seq<Byte>
    decreases |ps|
  {
    if ps == [] then [] else Frames(ps[..|ps| - 1]) + (Encode(ps[|ps| - 1]) + [END])
  }

  lemma FramesSnoc(ps: seq<seq<Byte>>, p: seq<Byte>)
    ensures Frames(ps + [p]) == Frames(ps) + (Encode(p) + [END])
  {
    assert (ps + [p])[..|ps|] == ps;
  }

  lemma {:induction false} FramesPrefix(ps: seq<seq<Byte>>, d: nat)
    requires d <= |ps|
    ensures Frames(ps[..d]) <= Frames(ps)
    decreases |ps|
  {
    if d == |ps| {
      assert ps[..d] == ps;
    } else {
      var n := |ps| - 1;
      FramesPrefix(ps[..n], d);
      assert ps[..n][..d] == ps[..d];
    }
  }

  lemma PrefixChain(a: seq<Byte>, b: seq<Byte>, c: seq<Byte>)
    requires a + b <= c
    ensures forall i :: 0 <= i < |b| ==> c[|a| + i] == b[i]
  {
    forall i | 0 <= i < |b| ensures c[|a| + i] == b[i] {
      assert (a + b)[|a| + i] == b[i];
    }
  }

  /** After the first `d` packets the stream goes on with packet `d`. */
  lemma FramesNext(ps: seq<seq<Byte>>, d: nat)
    requires d < |ps|
    ensures Frames(ps[..d + 1]) == Frames(ps[..d]) + (Encode(ps[d]) + [END])
    ensures |Frames(ps[..d])| + |Encode(ps[d])| < |Frames(ps)|
    ensures forall i :: 0 <= i <= |Encode(ps[d])| ==>
      Frames(ps)[|Frames(ps[..d])| + i] == (Encode(ps[d]) + [END])[i]
  {
    hide Frames, Encode;
    assert ps[..d + 1] == ps[..d] + [ps[d]];
    FramesSnoc(ps[..d], ps[d]);
    FramesPrefix(ps, d + 1);
    PrefixChain(Frames(ps[..d]), Encode(ps[d]) + [END], Frames(ps));
  }

  lemma ClosedJoin(s: seq<Byte>, t: seq<Byte>)
    requires Closed(s) && Closed(t)
    ensures Closed(s + t)
  {
    forall i | 0 <= i < |s + t| && (s + t)[i] == ESC
      ensures i + 1 < |s + t| && ((s + t)[i + 1] == ESC_END || (s + t)[i + 1] == ESC_ESC)
    {
      if i < |s| {
        assert s[i] == ESC;
      } else {
        assert t[i - |s|] == ESC;
      }
    }
  }

  lemma {:induction false} FramesClosed(ps: seq<seq<Byte>>)
    ensures Closed(Frames(ps))
    decreases |ps|
  {
    if ps != [] {
      var n := |ps| - 1;
      FramesClosed(ps[..n]);
      EncodeEscapes(ps[n]);
      assert Closed(Encode(ps[n])) && Closed([END]);
      hide Closed, Encode;
      ClosedJoin(Encode(ps[n]), [END]);
      ClosedJoin(Frames(ps[..n]), Encode(ps[n]) + [END]);
    } else {
      assert Frames(ps) == [];
    }
  }

  /** In the stream for a list of packets every ESC is followed by its code. */
  lemma EscapeCode(ps: seq<seq<Byte>>, sent: seq<Byte>, c: Byte)
    requires sent + [c] <= Frames(ps) && sent != [] && sent[|sent| - 1] == ESC
    ensures c == ESC_END || c == ESC_ESC
  {
    FramesClosed(ps);
    var n := |sent| - 1;
    hide Frames;
    assert Frames(ps)[n] == sent[n] && Frames(ps)[n + 1] == (sent + [c])[n + 1];
  }

  ghost predicate NonEmpty(ps: seq<seq<Byte>>) {
    forall i :: 0 <= i < |ps| ==> ps[i] != []
  }

  /** Polls so far returned the first packets in order; the ring holds exactly the bytes
      received after them. */
  ghost predicate InStep(ps: seq<seq<Byte>>, s: Session) {
    && |s.got| <= |ps| && s.got == ps[..|s.got|]
    && s.sent <= Frames(ps)
    && |Frames(s.got)| <= |s.sent| && s.q.content == s.sent[|Frames(s.got)|..]
    && s.q.end == FirstEnd(s.q.content)
    && s.q.phase == if s.sent != [] && s.sent[|s.sent| - 1] == ESC then Esc else Ok
  }

  /** `c` agrees, as far as it goes, with the frame of an encoded packet. */
  ghost predicate Starts(c: seq<Byte>, e: seq<Byte>) {
    forall i :: 0 <= i <= |e| && i < |c| ==> c[i] == if i < |e| then e[i] else END
  }

  ghost predicate NoEnd(e: seq<Byte>) {
    e != [] && forall i :: 0 <= i < |e| ==> e[i] != END
  }

  lemma FirstEndOfFrame(c: seq<Byte>, e: seq<Byte>)
    requires Starts(c, e) && NoEnd(e)
    ensures FirstEnd(c) == if |e| < |c| then |e| else 0
    ensures |e| < |c| ==> c[..|e|] == e
  {
    hide FirstEnd;
    if |e| < |c| {
      FirstEndIs(c, |e|);
    } else {
      FirstEndNone(c);
    }
  }

  /** The ring holds the beginning of packet number `|got|` of the stream, byte for byte. */
  lemma HoldsNext(ps: seq<seq<Byte>>, s: Session)
    requires NonEmpty(ps) && InStep(ps, s) && |s.got| < |ps|
    ensures Starts(s.q.content, Encode(ps[|s.got|])) && NoEnd(Encode(ps[|s.got|]))
  {
    hide Frames, Encode, FirstEnd;
    var d := |s.got|;
    FramesNext(ps, d);
    EncodeEscapes(ps[d]);
    var e, off := Encode(ps[d]), |Frames(s.got)|;
    forall i | 0 <= i <= |e| && i < |s.q.content| ensures s.q.content[i] == (e + [END])[i] {
      assert s.q.content[i] == s.sent[off + i] == Frames(ps)[off + i];
    }
  }

  /** With every packet returned, the ring is empty. */
  lemma NothingLeft(ps: seq<seq<Byte>>, s: Session)
    requires InStep(ps, s) && |s.got| == |ps|
    ensures s.q.content == [] && s.sent == Frames(ps)
  {
    hide Frames, FirstEnd;
    assert ps[..|s.got|] == ps;
  }

  lemma FirstEndSnoc(s: seq<Byte>, c: Byte)
    requires s != [] ==> s[0] != END
    ensures c != END ==> FirstEnd(s + [c]) == FirstEnd(s)
    ensures c == END && s != [] ==> FirstEnd(s + [c]) == if FirstEnd(s) == 0 then |s| else FirstEnd(s)
  {
    hide FirstEnd;
    FirstEndBound(s);
    if FirstEnd(s) > 0 {
      FirstEndIs(s + [c], FirstEnd(s));
    } else {
      assert forall i :: 0 <= i < |s| ==> s[i] != END;
      if c == END {
        FirstEndIs(s + [c], |s|);
      } else {
        FirstEndNone(s);
        FirstEndNone(s + [c]);
      }
    }
  }

  /** The byte that comes next is acceptable in the automaton's phase, and no END comes
      when the ring is empty. */
  lemma NextByte(ps: seq<seq<Byte>>, s: Session, c: Byte)
    requires NonEmpty(ps) && InStep(ps, s) && s.sent + [c] <= Frames(ps)
    ensures s.q.phase == Esc ==> c == ESC_END || c == ESC_ESC
    ensures s.q.content == [] ==> c != END
    ensures s.q.content != [] ==> s.q.content[0] != END
  {
    hide Frames, FirstEnd, Encode;
    var n, d := |s.sent|, |s.got|;
    assert c == Frames(ps)[n];
    if d == |ps| {
      NothingLeft(ps, s);
      assert false;
    }
    HoldsNext(ps, s);
    FramesNext(ps, d);
    FramesClosed(ps);
    assert n > 0 ==> Frames(ps)[n - 1] == s.sent[n - 1];
    if s.q.content == [] {
      assert Frames(ps)[|Frames(ps[..d])| + 0] == (Encode(ps[d]) + [END])[0];
    }
  }

  /** A byte that fits the phase is appended, and completes a packet if it is the first END. */
  lemma Accepts(q: Queue, c: Byte)
    requires Sane(q) && 1 < |q.stale| && q.phase != Rubbish && q.end == FirstEnd(q.content)
    requires q.phase == Esc ==> c == ESC_END || c == ESC_ESC
    requires if q.content == [] then c != END else q.content[0] != END
    ensures Input(q, c) == q.(content := q.content + [c], stale := q.stale[1..], end := FirstEnd(q.content + [c]),
                              phase := if c == ESC then Esc else Ok)
  {
    FirstEndBound(q.content);
    FirstEndSnoc(q.content, c);
    hide FirstEnd;
  }

  /** A byte is appended when the phase allows it and it does not look like an empty packet. */
  lemma Appends(q: Queue, c: Byte)
    requires Sane(q) && 1 < |q.stale| && q.phase != Rubbish && q.end != |q.content|
    requires q.phase == Esc ==> c == ESC_END || c == ESC_ESC
    ensures Input(q, c) == q.(content := q.content + [c], stale := q.stale[1..],
                              phase := if c == ESC then Esc else Ok,
                              end := if c == END && q.end == 0 then |q.content| else q.end)
  {
  }

  lemma InputInStep(ps: seq<seq<Byte>>, s: Session, c: Byte)
    requires NonEmpty(ps) && InStep(ps, s) && Sane(s.q) && 1 < |s.q.stale|
    requires s.sent + [c] <= Frames(ps)
    ensures InStep(ps, React(s, Receive(c)))
  {
    hide Frames, FirstEnd, Input;
    NextByte(ps, s, c);
    Accepts(s.q, c);
    assert (s.sent + [c])[|Frames(s.got)|..] == s.q.content + [c];
  }

  /** The first END in the ring closes the next packet. */
  lemma FirstFrame(ps: seq<seq<Byte>>, s: Session)
    requires NonEmpty(ps) && InStep(ps, s) && 0 < s.q.end
    ensures |s.got| < |ps| && s.q.end < |s.q.content| && s.q.content[..s.q.end] == Encode(ps[|s.got|])
  {
    FirstEndBound(s.q.content);
    hide Frames, FirstEnd, Encode;
    if |s.got| == |ps| {
      NothingLeft(ps, s);
      assert false;
    }
    HoldsNext(ps, s);
    hide Starts, NoEnd;
    FirstEndOfFrame(s.q.content, Encode(ps[|s.got|]));
  }

  lemma DropDrop(s: seq<Byte>, a: nat, b: nat)
    requires a + b <= |s|
    ensures s[a..][b..] == s[a + b..]
  {
  }

  lemma GotNext(ps: seq<seq<Byte>>, got: seq<seq<Byte>>)
    requires |got| < |ps| && got == ps[..|got|]
    ensures got + [ps[|got|]] == ps[..|got| + 1]
    ensures |Frames(ps[..|got| + 1])| == |Frames(got)| + |Encode(ps[|got|])| + 1
  {
    hide Frames, Encode;
    FramesNext(ps, |got|);
  }

  /** Taking the packet off the ring advances all the counts together. */
  lemma Dequeued(ps: seq<seq<Byte>>, s: Session, s': Session)
    requires InStep(ps, s) && |s.got| < |ps| && s.q.end < |s.q.content|
    requires s.q.end == |Encode(ps[|s.got|])|
    requires Sane(s.q) && s' == Session(Poll(s.q), s.sent, s.got + [ps[|s.got|]])
    ensures InStep(ps, s')
  {
    hide Frames, FirstEnd, Encode;
    GotNext(ps, s.got);
    DropDrop(s.sent, |Frames(s.got)|, s.q.end + 1);
  }

  lemma PollInStep(ps: seq<seq<Byte>>, s: Session)
    requires NonEmpty(ps) && InStep(ps, s) && Sane(s.q)
    ensures InStep(ps, React(s, PollNow))
  {
    hide Frames, FirstEnd, Encode, Decode, Poll;
    if 0 < s.q.end {
      FirstFrame(ps, s);
      RoundTrip(ps[|s.got|]);
      assert ps[|s.got|] != [];
      var s' := React(s, PollNow);
      hide InStep;
      Dequeued(ps, s, s');
    }
  }

  /** For any stream of non-empty packets and any interleaving of bytes and polls in which
      the ring never fills, the polls return the packets in order. */
  lemma {:induction false} PacketsInOrder(ps: seq<seq<Byte>>, size: nat, events: seq<Event>)
    requires 0 < size && NonEmpty(ps) && NeverFull(size, events) && Play(size, events).sent <= Frames(ps)
    ensures InStep(ps, Play(size, events))
    decreases |events|
  {
    if events == [] {
      assert ps[..0] == [];
    } else {
      var n := |events| - 1;
      var s := Play(size, events[..n]);
      hide InStep, Input, Poll, Frames;
      assert s.sent <= Play(size, events).sent;
      PacketsInOrder(ps, size, events[..n]);
      match events[n]
      case Receive(c) => InputInStep(ps, s, c);
      case PollNow => PollInStep(ps, s);
    }
  }

  lemma SentAll(ps: seq<seq<Byte>>, s: Session)
    requires NonEmpty(ps) && InStep(ps, s) && s.sent == Frames(ps) && s.q.end == 0
    ensures |s.got| == |ps|
  {
    hide Frames, FirstEnd, Encode;
    var d := |s.got|;
    if d < |ps| {
      HoldsNext(ps, s);
      assert |Encode(ps[d])| > 0;
      hide Starts, NoEnd;
      FirstEndOfFrame(s.q.content, Encode(ps[d]));
      FramesNext(ps, d);
    }
  }

  /** Once everything has been sent and no complete packet is buffered, every packet has
      been returned and the ring is empty. */
  lemma AllDelivered(ps: seq<seq<Byte>>, size: nat, events: seq<Event>)
    requires 0 < size && NonEmpty(ps) && NeverFull(size, events) && Play(size, events).sent == Frames(ps)
    requires Play(size, events).q.end == 0
    ensures Play(size, events).got == ps && Play(size, events).q.content == []
  {
    PacketsInOrder(ps, size, events);
    var s := Play(size, events);
    hide Play, NeverFull, Frames, FirstEnd;
    SentAll(ps, s);
    NothingLeft(ps, s);
    assert ps[..|s.got|] == ps;
  }

  lemma {:induction false} DecodeGrows(a: seq<Byte>, b: seq<Byte>)
    ensures |Decode(a).out| <= |Decode(a + b).out|
    decreases |b|
  {
    if b == [] {
      assert a + b == a;
    } else {
      var n := |b| - 1;
      DecodeGrows(a, b[..n]);
      assert a + b == a + b[..n] + [b[n]];
      hide Decode;
      DecodeSnoc(a + b[..n], b[n]);
    }
  }

  lemma DecodeTake(s: seq<Byte>, i: nat)
    requires i <= |s|
    ensures |Decode(s[..i]).out| <= |Decode(s).out|
  {
    assert s == s[..i] + s[i..];
    DecodeGrows(s[..i], s[i..]);
  }

  /** All but the last byte of an encoded packet decode to all but its last byte. */
  lemma ButLast(p: seq<Byte>)
    requires p != []
    ensures var e := Encode(p); e != [] && Decode(e[..|e| - 1]).out == p[..|p| - 1]
  {
    hide Decode;
    var q, b, e := p[..|p| - 1], p[|p| - 1], Encode(p);
    RoundTrip(q);
    if b == END || b == ESC {
      assert e[..|e| - 1] == Encode(q) + [ESC];
      DecodeSnoc(Encode(q), ESC);
    } else {
      assert e[..|e| - 1] == Encode(q);
    }
  }

  lemma {:induction false} PrefixRuns(size: nat, events: seq<Event>, i: nat)
    requires 0 < size && i <= |events|
    ensures Play(size, events[..i]).sent <= Play(size, events).sent
    ensures NeverFull(size, events) ==> NeverFull(size, events[..i])
    decreases |events|
  {
    if i == |events| {
      assert events[..i] == events;
    } else {
      var n := |events| - 1;
      PrefixRuns(size, events[..n], i);
      hide Input, Poll;
      assert events[..n][..i] == events[..i];
    }
  }

  lemma PlayNext(size: nat, events: seq<Event>, i: nat)
    requires 0 < size && i < |events|
    ensures Play(size, events[..i + 1]) == React(Play(size, events[..i]), events[i])
  {
    hide Input, Poll;
    assert events[..i + 1][..i] == events[..i];
  }

  lemma NothingPlayed(size: nat)
    requires 0 < size
    ensures Play(size, []) == Session(Fresh(size), [], [])
  {
  }

  /** The ring holds exactly the bytes received and not yet returned, at every moment of a run, if
      and only if it has room whenever a byte arrives. */
  lemma {:induction false} InStepIffNeverFull(ps: seq<seq<Byte>>, size: nat, events: seq<Event>)
    requires 0 < size && NonEmpty(ps) && Play(size, events).sent <= Frames(ps)
    ensures (forall i :: 0 <= i <= |events| ==> InStep(ps, Play(size, events[..i]))) <==> NeverFull(size, events)
    decreases |events|
  {
    hide InStep, Input, Poll, Frames;
    if NeverFull(size, events) {
      forall i | 0 <= i <= |events| ensures InStep(ps, Play(size, events[..i])) {
        PrefixRuns(size, events, i);
        PacketsInOrder(ps, size, events[..i]);
      }
    }
    if events != [] && forall i :: 0 <= i <= |events| ==> InStep(ps, Play(size, events[..i])) {
      var n := |events| - 1;
      PrefixRuns(size, events, n);
      forall i | 0 <= i <= n ensures InStep(ps, Play(size, events[..n][..i])) {
        assert events[..n][..i] == events[..i];
      }
      InStepIffNeverFull(ps, size, events[..n]);
      assert events[..|events|] == events;
      match events[n]
      case PollNow =>
      case Receive(c) => FullIsNotInStep(ps, Play(size, events[..n]), c);
    }
  }

  lemma FullIsNotInStep(ps: seq<seq<Byte>>, s: Session, c: Byte)
    requires Sane(s.q) && InStep(ps, s) && InStep(ps, React(s, Receive(c)))
    ensures 1 < |s.q.stale|
  {
    hide Frames, FirstEnd;
  }

  // ---------------------------------------------------------------------------
  // Bad escapes

  /** The ring after some bytes, with no poll in between. */
  ghost function Feed(q: Queue, s: seq<Byte>): (r: Queue)
    requires Sane(q)
    ensures Sane(r)
    decreases |s|
  {
    if s == [] then q
    else
      var n := |s| - 1;
      InputIsSane(Feed(q, s[..n]), s[n]);
      Input(Feed(q, s[..n]), s[n])
  }

  lemma {:induction false} FeedJoin(q: Queue, s: seq<Byte>, t: seq<Byte>)
    requires Sane(q)
    ensures Feed(q, s + t) == Feed(Feed(q, s), t)
    decreases |t|
  {
    hide Input, Sane;
    if t == [] {
      assert s + t == s;
    } else {
      var n := |t| - 1;
      FeedJoin(q, s, t[..n]);
      assert (s + t)[..|s| + n] == s + t[..n] && (s + t)[|s| + n] == t[n];
    }
  }

  lemma FeedOne(q: Queue, c: Byte)
    requires Sane(q)
    ensures Feed(q, [c]) == Input(q, c)
  {
    assert [c][..0] == [] && Feed(q, []) == q;
  }

  /** Correctly escaped bytes are stored as long as there is room. */
  lemma {:induction false} FeedStores(q: Queue, s: seq<Byte>, n: nat)
    requires Sane(q) && q.phase == Ok && Escaped(s) && n <= |s| < |q.stale|
    ensures Feed(q, s[..n]) ==
      Queue(q.content + s[..n], q.end, if 0 < n && s[n - 1] == ESC then Esc else Ok, q.stale[n..])
  {
    if n > 0 {
      FeedStores(q, s, n - 1);
      assert s[..n][..n - 1] == s[..n - 1];
      assert q.content + s[..n] == q.content + s[..n - 1] + [s[n - 1]];
      assert q.stale[n - 1..][1..] == q.stale[n..];
      assert 1 < n && s[n - 2] == ESC ==> s[n - 1] == ESC_END || s[n - 1] == ESC_ESC;
    }
  }

  /** After an error nothing is taken up to the next END. */
  lemma {:induction false} FeedSkips(q: Queue, s: seq<Byte>)
    requires Sane(q) && q.phase == Rubbish && forall i :: 0 <= i < |s| ==> s[i] != END
    ensures Feed(q, s) == q
    decreases |s|
  {
    if s != [] {
      FeedSkips(q, s[..|s| - 1]);
    }
  }

  /** A byte that is no escape code, behind an ESC, costs whatever follows the first complete packet in
      the ring, and what is still to come of the packet it belongs to, but nothing else: the next packet
      finds the receiver as if there had been none. */
  lemma BadPacketDropped(q: Queue, pre: seq<Byte>, x: Byte, post: seq<Byte>)
    requires Sane(q) && q.phase == Ok && Escaped(pre) && |pre| + 1 < |q.stale|
    requires x != ESC_END && x != ESC_ESC && forall i :: 0 <= i < |post| ==> post[i] != END
    ensures var r := Feed(q, pre + [ESC, x] + post + [END]);
      && r.content == q.content[..q.end] && r.end == q.end && r.phase == Ok
      && r.stale == q.content[q.end..] + pre + [ESC] + q.stale[|pre| + 1..]
  {
    var q3 := Feed(q, pre + [ESC] + [x]);
    FeedBad(q, pre, x);
    hide Input, Sane, Feed;
    FeedJoin(q, pre + [ESC] + [x], post);
    FeedSkips(q3, post);
    FeedJoin(q, pre + [ESC] + [x] + post, [END]);
    FeedOne(q3, END);
    assert pre + [ESC] + [x] == pre + [ESC, x];
    RubbishEnds(q3);
  }

  lemma FeedBad(q: Queue, pre: seq<Byte>, x: Byte)
    requires Sane(q) && q.phase == Ok && Escaped(pre) && |pre| + 1 < |q.stale| && x != ESC_END && x != ESC_ESC
    ensures Feed(q, pre + [ESC] + [x]) ==
      Queue(q.content[..q.end], q.end, Rubbish, q.content[q.end..] + pre + [ESC] + q.stale[|pre| + 1..])
  {
    hide Feed, Input, Sane, Escaped;
    var q1, c := Feed(q, pre), q.content + pre + [ESC];
    var q2 := Queue(c, q.end, Esc, q.stale[|pre| + 1..]);
    FeedOk(q, pre);
    FeedJoin(q, pre, [ESC]);
    FeedOne(q1, ESC);
    EscStored(q1);
    assert q.stale[|pre|..][1..] == q.stale[|pre| + 1..];
    FeedJoin(q, pre + [ESC], [x]);
    FeedOne(q2, x);
    BadGivenUp(q2, x);
    GivenUpParts(q, pre);
  }

  lemma GivenUpParts(q: Queue, pre: seq<Byte>)
    requires Sane(q)
    ensures (q.content + pre + [ESC])[q.end..] == q.content[q.end..] + pre + [ESC]
    ensures (q.content + pre + [ESC])[..q.end] == q.content[..q.end]
  {
  }

  lemma FeedOk(q: Queue, pre: seq<Byte>)
    requires Sane(q) && q.phase == Ok && Escaped(pre) && |pre| + 1 < |q.stale|
    ensures Feed(q, pre) == Queue(q.content + pre, q.end, Ok, q.stale[|pre|..]) && Sane(Feed(q, pre))
  {
    assert 0 < |pre| ==> pre[|pre| - 1] != ESC;
    hide Feed, Escaped;
    FeedStores(q, pre, |pre|);
    assert pre[..|pre|] == pre;
  }

  lemma EscStored(q: Queue)
    requires Sane(q) && q.phase == Ok && 1 < |q.stale|
    ensures Input(q, ESC) == Queue(q.content + [ESC], q.end, Esc, q.stale[1..]) && Sane(Input(q, ESC))
  {
  }

  lemma BadGivenUp(q: Queue, x: Byte)
    requires Sane(q) && q.phase == Esc && x != ESC_END && x != ESC_ESC
    ensures Input(q, x) == Queue(q.content[..q.end], q.end, Rubbish, q.content[q.end..] + q.stale)
  {
  }

  lemma RubbishEnds(q: Queue)
    requires Sane(q) && q.phase == Rubbish
    ensures Input(q, END) == q.(phase := Ok)
  {
  }

  /** What is still to come is decoded alike from the same state. */
  lemma {:induction false} DecodeAlike(s: seq<Byte>, s': seq<Byte>, t: seq<Byte>)
    requires Decode(s) == Decode(s')
    ensures Decode(s + t) == Decode(s' + t)
    decreases |t|
  {
    hide Decode, DecodeByte;
    if t == [] {
      assert s + t == s && s' + t == s';
    } else {
      var n := |t| - 1;
      DecodeAlike(s, s', t[..n]);
      DecodeSnoc(s + t[..n], t[n]);
      DecodeSnoc(s' + t[..n], t[n]);
      assert s + t == s + t[..n] + [t[n]] && s' + t == s' + t[..n] + [t[n]];
    }
  }

  /** The decoder drops an ESC with a byte that is no escape code, and nothing else. */
  lemma UnknownEscapeDropped(s: seq<Byte>, x: Byte, t: seq<Byte>)
    requires !Decode(s).esc && x != ESC_END && x != ESC_ESC
    ensures Decode(s + [ESC, x] + t) == Decode(s + t)
  {
    hide Decode;
    DecodeSnoc(s, ESC);
    DecodeSnoc(s + [ESC], x);
    assert s + [ESC, x] == s + [ESC] + [x];
    DecodeAlike(s, s + [ESC, x], t);
  }
}
