/** Frames that begin with an END as well as ending in one, as slip_write of os/dev/slip.c sends
    them. The receiver delivers such a stream exactly if every leading END finds the ring empty. */
module SlipLeading {
  import opened Bytes
  import opened Sequences
  import opened Slip

  /** The byte stream for a list of packets, each between two ENDs. */
  ghost function Framed(ps: seq<seq<Byte>>): seq<Byte>
    decreases |ps|
  {
    if ps == [] then [] else Framed(ps[..|ps| - 1]) + ([END] + Encode(ps[|ps| - 1]) + [END])
  }

  lemma FramedSnoc(ps: seq<seq<Byte>>, p: seq<Byte>)
    ensures Framed(ps + [p]) == Framed(ps) + ([END] + Encode(p) + [END])
  {
    assert (ps + [p])[..|ps|] == ps;
  }

  lemma {:induction false} FramedPrefix(ps: seq<seq<Byte>>, d: nat)
    requires d <= |ps|
    ensures Framed(ps[..d]) <= Framed(ps)
    decreases |ps|
  {
    if d == |ps| {
      assert ps[..d] == ps;
    } else {
      var n := |ps| - 1;
      FramedPrefix(ps[..n], d);
      assert ps[..n][..d] == ps[..d];
    }
  }

  lemma {:induction false} FramedClosed(ps: seq<seq<Byte>>)
    ensures Closed(Framed(ps))
    decreases |ps|
  {
    if ps == [] {
      assert Framed(ps) == [];
    } else {
      var n := |ps| - 1;
      FramedClosed(ps[..n]);
      EncodeEscapes(ps[n]);
      assert Closed(Encode(ps[n])) && Closed([END]);
      hide Closed, Encode;
      ClosedJoin([END], Encode(ps[n]));
      ClosedJoin([END] + Encode(ps[n]), [END]);
      ClosedJoin(Framed(ps[..n]), [END] + Encode(ps[n]) + [END]);
    }
  }

  lemma {:induction false} FramedEnds(ps: seq<seq<Byte>>)
    ensures Framed(ps) != [] ==> Framed(ps)[|Framed(ps)| - 1] == END
  {
  }

  lemma FramedLonger(ps: seq<seq<Byte>>, i: nat, j: nat)
    requires i <= j <= |ps|
    ensures |Framed(ps[..i])| <= |Framed(ps[..j])|
  {
    hide Framed;
    assert ps[..j][..i] == ps[..i];
    FramedPrefix(ps[..j], i);
  }

  /** Frame `d` as it follows those before it. */
  lemma FramedNext(ps: seq<seq<Byte>>, d: nat)
    requires d < |ps|
    ensures Framed(ps[..d + 1]) == Framed(ps[..d]) + ([END] + Encode(ps[d]) + [END])
    ensures Framed(ps[..d + 1]) <= Framed(ps)
  {
    hide Framed, Encode;
    TakeNext(ps, d);
    FramedSnoc(ps[..d], ps[d]);
    FramedPrefix(ps, d + 1);
  }

  lemma SameBytes(a: seq<Byte>, x: seq<Byte>, y: seq<Byte>, t: seq<Byte>)
    requires a + x <= t && a + y <= t
    ensures forall i :: 0 <= i < |x| && i < |y| ==> x[i] == y[i]
  {
    PrefixChain(a, x, t);
    PrefixChain(a, y, t);
  }

  /** What comes after the leading END of frame `d` begins with the packet. */
  lemma FrameBytes(ps: seq<seq<Byte>>, d: nat, x: seq<Byte>)
    requires d < |ps| && Framed(ps[..d]) + [END] + x <= Framed(ps)
    ensures Starts(x, Encode(ps[d]))
  {
    FramedNext(ps, d);
    hide Framed, Encode;
    var e, base := Encode(ps[d]), Framed(ps[..d]);
    Regroup([END], e, [END]);
    Regroup(base, [END], e + [END]);
    SameBytes(base + [END], x, e + [END], Framed(ps));
  }

  lemma PacketBytes(p: seq<Byte>)
    requires p != []
    ensures NoEnd(Encode(p))
  {
    EncodeEscapes(p);
  }

  ghost predicate PhaseOk(s: Session) {
    s.q.phase == if s.sent != [] && s.sent[|s.sent| - 1] == ESC then Esc else Ok
  }

  /** The stream never opens a bad escape. */
  lemma CodeFollows(ps: seq<seq<Byte>>, s: Session, c: Byte)
    requires PhaseOk(s) && s.sent + [c] <= Framed(ps) && s.q.phase == Esc
    ensures c == ESC_END || c == ESC_ESC
  {
    FramedClosed(ps);
    var n := |s.sent| - 1;
    hide Framed;
    assert Framed(ps)[n] == s.sent[n] && Framed(ps)[n + 1] == (s.sent + [c])[n + 1];
  }

  /** The byte at this position of the stream is the leading END of a frame. */
  ghost predicate AtLead(ps: seq<seq<Byte>>, n: nat) {
    exists d :: 0 <= d < |ps| && n == |Framed(ps[..d])|
  }

  /** Every leading END finds the ring empty. */
  ghost predicate LeadsFindEmpty(ps: seq<seq<Byte>>, size: nat, events: seq<Event>)
    requires 0 < size
    decreases |events|
  {
    events == [] ||
    var n := |events| - 1;
    var s := Play(size, events[..n]);
    LeadsFindEmpty(ps, size, events[..n]) &&
      (events[n].Receive? && AtLead(ps, |s.sent|) ==> s.q.content == [])
  }

  // ---------------------------------------------------------------------------
  // As long as they do

  /** Between frames, with the ring empty. */
  ghost predicate Idle(s: Session) {
    s.sent == Framed(s.got) && s.q.content == [] && s.q.end == 0
  }

  /** Within a frame, with its bytes in the ring. */
  ghost predicate Within(ps: seq<seq<Byte>>, s: Session) {
    && |s.got| < |ps|
    && |s.q.content| <= |Encode(ps[|s.got|])| + 1
    && s.sent == Framed(s.got) + [END] + s.q.content
    && s.q.end == FirstEnd(s.q.content)
  }

  ghost predicate InTurn(ps: seq<seq<Byte>>, s: Session) {
    && |s.got| <= |ps| && s.got == ps[..|s.got|]
    && s.sent <= Framed(ps) && PhaseOk(s)
    && (Idle(s) || Within(ps, s))
  }

  lemma LeadInTurn(ps: seq<seq<Byte>>, s: Session, c: Byte)
    requires NonEmpty(ps) && InTurn(ps, s) && Idle(s) && Sane(s.q) && 1 < |s.q.stale| && s.sent + [c] <= Framed(ps)
    ensures InTurn(ps, React(s, Receive(c)))
  {
    var d := |s.got|;
    FramedEnds(s.got);
    hide Framed, Encode;
    assert ps[..|ps|] == ps;
    FramedNext(ps, d);
    Regroup([END], Encode(ps[d]), [END]);
    SameBytes(s.sent, [c], [END] + (Encode(ps[d]) + [END]), Framed(ps));
    assert [c][0] == ([END] + (Encode(ps[d]) + [END]))[0];
    assert c == END;
    assert s.sent + [c] == Framed(s.got) + [END] + [];
    FirstEndNone([]);
  }

  /** With the whole frame received, the stream is at its end or at the next leading END. */
  lemma FullFrame(ps: seq<seq<Byte>>, s: Session)
    requires NonEmpty(ps) && Within(ps, s) && s.got == ps[..|s.got|] && s.sent <= Framed(ps)
    requires |s.q.content| == |Encode(ps[|s.got|])| + 1
    ensures s.q.content == Encode(ps[|s.got|]) + [END] && s.sent == Framed(ps[..|s.got| + 1])
    ensures s.sent == Framed(ps) || AtLead(ps, |s.sent|)
  {
    hide Framed, Encode;
    var d := |s.got|;
    var e := Encode(ps[d]);
    FrameBytes(ps, d, s.q.content);
    assert s.q.content == e + [END];
    FramedNext(ps, d);
    Regroup([END], e, [END]);
    Regroup(Framed(ps[..d]), [END], e + [END]);
    assert ps[..|ps|] == ps;
  }

  /** The next byte of the frame, when the frame is not complete. */
  lemma NextInFrame(ps: seq<seq<Byte>>, s: Session, c: Byte)
    requires NonEmpty(ps) && Within(ps, s) && s.got == ps[..|s.got|] && s.sent + [c] <= Framed(ps)
    requires |s.q.content| <= |Encode(ps[|s.got|])|
    ensures if s.q.content == [] then c != END else s.q.content[0] != END
  {
    var d, x := |s.got|, s.q.content;
    hide Framed, Encode, FirstEnd;
    PacketBytes(ps[d]);
    Regroup(Framed(s.got) + [END], x, [c]);
    FrameBytes(ps, d, x + [c]);
    assert (x + [c])[0] == if x == [] then c else x[0];
  }

  lemma ByteInTurn(ps: seq<seq<Byte>>, s: Session, c: Byte)
    requires NonEmpty(ps) && InTurn(ps, s) && Within(ps, s) && Sane(s.q) && 1 < |s.q.stale|
    requires s.sent + [c] <= Framed(ps) && (AtLead(ps, |s.sent|) ==> s.q.content == [])
    ensures InTurn(ps, React(s, Receive(c)))
  {
    hide Framed, Encode, FirstEnd, Input, AtLead;
    if |s.q.content| == |Encode(ps[|s.got|])| + 1 {
      FullFrame(ps, s);
      assert false;
    }
    NextInFrame(ps, s, c);
    if s.q.phase == Esc {
      CodeFollows(ps, s, c);
    }
    Accepts(s.q, c);
    Regroup(Framed(s.got) + [END], s.q.content, [c]);
  }

  lemma PollInTurn(ps: seq<seq<Byte>>, s: Session)
    requires NonEmpty(ps) && InTurn(ps, s) && Sane(s.q)
    ensures InTurn(ps, React(s, PollNow))
  {
    hide Framed, Encode, FirstEnd, Decode;
    if 0 < s.q.end {
      var d, x := |s.got|, s.q.content;
      var e := Encode(ps[d]);
      PacketBytes(ps[d]);
      FrameBytes(ps, d, x);
      FirstEndOfFrame(x, e);
      assert x == e + [END];
      RoundTrip(ps[d]);
      assert ps[d] != [];
      FirstEndNone([]);
      assert Rest(s.q) == [];
      FramedNext(ps, d);
      assert s.got + [ps[d]] == ps[..d + 1];
      assert s.sent == Framed(ps[..d + 1]);
    }
  }

  lemma StepInTurn(ps: seq<seq<Byte>>, s: Session, e: Event)
    requires NonEmpty(ps) && InTurn(ps, s) && Sane(s.q) && React(s, e).sent <= Framed(ps)
    requires e.Receive? ==> 1 < |s.q.stale| && (AtLead(ps, |s.sent|) ==> s.q.content == [])
    ensures InTurn(ps, React(s, e))
  {
    hide Input, Poll, Framed, AtLead;
    match e
    case PollNow => PollInTurn(ps, s);
    case Receive(c) =>
      if Idle(s) {
        LeadInTurn(ps, s, c);
      } else {
        ByteInTurn(ps, s, c);
      }
  }

  /** While every leading END finds the ring empty, the polls return the packets in order. */
  lemma {:induction false} LeadsInTurn(ps: seq<seq<Byte>>, size: nat, events: seq<Event>)
    requires 0 < size && NonEmpty(ps) && NeverFull(size, events) && Play(size, events).sent <= Framed(ps)
    requires LeadsFindEmpty(ps, size, events)
    ensures InTurn(ps, Play(size, events))
    decreases |events|
  {
    hide InTurn, Input, Poll, Framed, AtLead;
    if events == [] {
      StartInTurn(ps, size);
    } else {
      var n := |events| - 1;
      var s := Play(size, events[..n]);
      assert s.sent <= Play(size, events).sent;
      LeadsInTurn(ps, size, events[..n]);
      StepInTurn(ps, s, events[n]);
    }
  }

  lemma StartInTurn(ps: seq<seq<Byte>>, size: nat)
    ensures InTurn(ps, Session(Fresh(size), [], []))
  {
    assert ps[..0] == [];
  }

  // ---------------------------------------------------------------------------
  // Once one does not

  /** Packet `j` has come out too long. */
  ghost predicate Stray(ps: seq<seq<Byte>>, j: nat, s: Session) {
    j < |ps| && j < |s.got| && |s.got[j]| > |ps[j]|
  }

  /** The leading END of frame `j` was stored behind packet `j - 1`; `x` was received after it. */
  ghost predicate Behind(ps: seq<seq<Byte>>, j: nat, s: Session, x: seq<Byte>)
    requires 0 < j < |ps|
  {
    && s.got == ps[..j - 1] && s.q.end == |Encode(ps[j - 1])|
    && s.q.content == Encode(ps[j - 1]) + [END] + ([END] + x)
  }

  /** It heads the ring, and no terminator has been found after it. */
  ghost predicate Stuck(ps: seq<seq<Byte>>, j: nat, s: Session, x: seq<Byte>)
    requires 0 < j < |ps|
  {
    s.got == ps[..j] && s.q.end == 0 && s.q.content == [END] + x
  }

  /** It heads the ring, and counts as part of packet `j`. */
  ghost predicate Joined(ps: seq<seq<Byte>>, j: nat, s: Session, x: seq<Byte>)
    requires 0 < j < |ps|
  {
    && s.got == ps[..j] && s.q.content == [END] + x
    && |Encode(ps[j])| < s.q.end < |s.q.content| && Encode(ps[j]) <= x
  }

  ghost predicate Spoilt(ps: seq<seq<Byte>>, j: nat, s: Session) {
    && 0 < j < |ps|
    && (Stray(ps, j, s) ||
        (s.sent <= Framed(ps) && PhaseOk(s) &&
         exists x :: s.sent == Framed(ps[..j]) + [END] + x && (Behind(ps, j, s, x) || Stuck(ps, j, s, x) || Joined(ps, j, s, x))))
  }

  /** From then on, the packets are not all delivered. */
  lemma SpoiltIsWrong(ps: seq<seq<Byte>>, j: nat, s: Session)
    requires Spoilt(ps, j, s)
    ensures s.got != ps
  {
    hide Framed, Encode;
  }

  lemma BehindReceive(ps: seq<seq<Byte>>, j: nat, s: Session, c: Byte, x: seq<Byte>)
    requires NonEmpty(ps) && 0 < j < |ps| && Behind(ps, j, s, x) && Sane(s.q) && 1 < |s.q.stale| && s.q.phase != Rubbish
    requires s.q.phase == Esc ==> c == ESC_END || c == ESC_ESC
    ensures Behind(ps, j, React(s, Receive(c)), x + [c])
  {
    hide Encode, Input;
    Appends(s.q, c);
    var e := Encode(ps[j - 1]);
    assert e + [END] + ([END] + x) + [c] == e + [END] + ([END] + (x + [c]));
    PacketLength(ps, j - 1);
    assert ps[j - 1] != [];
  }

  lemma PacketLength(ps: seq<seq<Byte>>, d: nat)
    requires d < |ps|
    ensures |ps[d]| <= |Encode(ps[d])|
  {
    EncodeEscapes(ps[d]);
  }

  lemma StuckReceive(ps: seq<seq<Byte>>, j: nat, s: Session, c: Byte, x: seq<Byte>)
    requires NonEmpty(ps) && 0 < j < |ps| && Stuck(ps, j, s, x) && Sane(s.q) && 1 < |s.q.stale| && s.q.phase != Rubbish
    requires s.q.phase == Esc ==> c == ESC_END || c == ESC_ESC
    requires Framed(ps[..j]) + [END] + (x + [c]) <= Framed(ps)
    ensures Stuck(ps, j, React(s, Receive(c)), x + [c]) || Joined(ps, j, React(s, Receive(c)), x + [c])
  {
    hide Framed, Encode;
    Appends(s.q, c);
    var s', y := React(s, Receive(c)), x + [c];
    hide Input;
    Regroup([END], x, [c]);
    if c != END {
      assert Stuck(ps, j, s', y);
    } else {
      PacketBytes(ps[j]);
      FrameBytes(ps, j, y);
      EndOfFrame(y, Encode(ps[j]), |x|);
    }
  }

  /** The first END in a frame is its last byte. */
  lemma EndOfFrame(y: seq<Byte>, e: seq<Byte>, i: nat)
    requires Starts(y, e) && NoEnd(e) && i < |y| && y[i] == END
    ensures |e| <= i && e <= y
  {
    assert |e| <= i;
    assert y[..|e|] == e;
  }

  lemma JoinedReceive(ps: seq<seq<Byte>>, j: nat, s: Session, c: Byte, x: seq<Byte>)
    requires 0 < j < |ps| && Joined(ps, j, s, x) && Sane(s.q) && 1 < |s.q.stale| && s.q.phase != Rubbish
    requires s.q.phase == Esc ==> c == ESC_END || c == ESC_ESC
    ensures Joined(ps, j, React(s, Receive(c)), x + [c])
  {
    hide Encode, Input;
    Appends(s.q, c);
    assert [END] + x + [c] == [END] + (x + [c]);
  }

  lemma SpoiltReceive(ps: seq<seq<Byte>>, j: nat, s: Session, c: Byte)
    requires NonEmpty(ps) && Spoilt(ps, j, s) && Sane(s.q) && 1 < |s.q.stale| && s.sent + [c] <= Framed(ps)
    ensures Spoilt(ps, j, React(s, Receive(c)))
  {
    hide Framed, Encode, Input, Behind, Stuck, Joined;
    if !Stray(ps, j, s) {
      var x :| s.sent == Framed(ps[..j]) + [END] + x && (Behind(ps, j, s, x) || Stuck(ps, j, s, x) || Joined(ps, j, s, x));
      var s', y := React(s, Receive(c)), x + [c];
      if s.q.phase == Esc {
        CodeFollows(ps, s, c);
      }
      ReceivePhase(s, c);
      Regroup(Framed(ps[..j]) + [END], x, [c]);
      if Behind(ps, j, s, x) {
        BehindReceive(ps, j, s, c, x);
      } else if Stuck(ps, j, s, x) {
        StuckReceive(ps, j, s, c, x);
      } else {
        JoinedReceive(ps, j, s, c, x);
      }
      assert s'.sent == Framed(ps[..j]) + [END] + y;
    }
  }

  lemma ReceivePhase(s: Session, c: Byte)
    requires Sane(s.q) && PhaseOk(s) && 1 < |s.q.stale| && (s.q.phase == Esc ==> c == ESC_END || c == ESC_ESC)
    ensures PhaseOk(React(s, Receive(c)))
  {
  }

  /** Decoding goes on behind a stray END. */
  lemma {:induction false} DecodeBehind(p: seq<Byte>)
    ensures Decode([END] + Encode(p)) == Decoded([END] + p, false)
    decreases |p|
  {
    if p == [] {
      assert [END] + Encode(p) == [] + [END];
      DecodeSnoc([], END);
      DecodeNothing();
    } else {
      hide Encode, Decode, EncodeByte;
      var n := |p| - 1;
      DecodeBehind(p[..n]);
      assert p == p[..n] + [p[n]];
      ByteBehind(p[..n], p[n]);
    }
  }

  lemma ByteBehind(q: seq<Byte>, b: Byte)
    requires Decode([END] + Encode(q)) == Decoded([END] + q, false)
    ensures Decode([END] + Encode(q + [b])) == Decoded([END] + (q + [b]), false)
  {
    hide Encode, Decode, EncodeByte;
    EncodeSnoc(q, b);
    DecodeEscape([END] + Encode(q), b);
    Regroup([END], Encode(q), EncodeByte(b));
    Regroup([END], q, [b]);
  }

  lemma JoinedIsLong(e: seq<Byte>, p: seq<Byte>, c: seq<Byte>)
    requires e == Encode(p) && [END] + e <= c
    ensures |Decode(c).out| > |p|
  {
    hide Decode, Encode;
    var y := c[1 + |e|..];
    assert c == [END] + e + y;
    DecodeBehind(p);
    DecodeGrows([END] + e, y);
  }

  lemma BehindPoll(ps: seq<seq<Byte>>, j: nat, s: Session, x: seq<Byte>)
    requires NonEmpty(ps) && 0 < j < |ps| && Behind(ps, j, s, x) && Sane(s.q) && 0 < s.q.end
    ensures Stuck(ps, j, React(s, PollNow), x)
  {
    hide Encode, FirstEnd, Decode;
    var e := Encode(ps[j - 1]);
    assert s.q.content[..s.q.end] == e && s.q.content[s.q.end + 1..] == [END] + x;
    FirstEndIs([END] + x, 0);
    hide Poll;
    RoundTrip(ps[j - 1]);
    assert ps[j - 1] != [];
    TakeNext(ps, j - 1);
    StuckQueue(s.q, x);
  }

  lemma StuckQueue(q: Queue, x: seq<Byte>)
    requires Sane(q) && q.end < |q.content| && q.content[q.end + 1..] == [END] + x && FirstEnd([END] + x) == 0
    ensures Poll(q).content == [END] + x && Poll(q).end == 0
  {
  }

  lemma JoinedPoll(ps: seq<seq<Byte>>, j: nat, s: Session, x: seq<Byte>)
    requires 0 < j < |ps| && Joined(ps, j, s, x) && Sane(s.q)
    ensures Stray(ps, j, React(s, PollNow))
  {
    var c := s.q.content[..s.q.end];
    assert [END] + Encode(ps[j]) <= c;
    JoinedIsLong(Encode(ps[j]), ps[j], c);
    hide Encode, Decode, Poll;
    assert React(s, PollNow).got == s.got + [Decode(c).out];
  }

  lemma SpoiltPoll(ps: seq<seq<Byte>>, j: nat, s: Session)
    requires NonEmpty(ps) && Spoilt(ps, j, s) && Sane(s.q)
    ensures Spoilt(ps, j, React(s, PollNow))
  {
    hide Framed, Encode, Decode, Poll, Behind, Joined;
    if 0 < s.q.end && !Stray(ps, j, s) {
      var x :| s.sent == Framed(ps[..j]) + [END] + x && (Behind(ps, j, s, x) || Stuck(ps, j, s, x) || Joined(ps, j, s, x));
      if Behind(ps, j, s, x) {
        BehindPoll(ps, j, s, x);
        PollPhase(s);
      } else {
        JoinedPoll(ps, j, s, x);
      }
    } else if Stray(ps, j, s) {
      assert React(s, PollNow).got[..|s.got|] == s.got;
    }
  }

  lemma PollPhase(s: Session)
    requires Sane(s.q) && PhaseOk(s)
    ensures PhaseOk(React(s, PollNow)) && React(s, PollNow).sent == s.sent
  {
  }

  /** Storing a leading END behind a packet begins it. */
  lemma LeadSpoils(ps: seq<seq<Byte>>, s: Session, c: Byte)
    requires NonEmpty(ps) && InTurn(ps, s) && Sane(s.q) && 1 < |s.q.stale| && s.sent + [c] <= Framed(ps)
    requires AtLead(ps, |s.sent|) && s.q.content != []
    ensures exists j :: Spoilt(ps, j, React(s, Receive(c)))
  {
    hide Framed, Encode, FirstEnd, Input;
    var d, x := |s.got|, s.q.content;
    var e := Encode(ps[d]);
    PacketBytes(ps[d]);
    FrameBytes(ps, d, x);
    LeadAfter(ps, s);
    assert x == e + [END];
    FramedNext(ps, d);
    assert s.sent == Framed(ps[..d + 1]);
    FirstEndOfFrame(x, e);
    FramedNext(ps, d + 1);
    assert (s.sent + [c])[|s.sent|] == END;
    Appends(s.q, c);
    var s' := React(s, Receive(c));
    assert s'.sent == Framed(ps[..d + 1]) + [END] + [];
    assert s'.q.content == e + [END] + ([END] + []);
    assert Behind(ps, d + 1, s', []);
    assert Spoilt(ps, d + 1, s');
  }

  /** A frame begins where the bytes of the frame in the ring end. */
  lemma LeadAfter(ps: seq<seq<Byte>>, s: Session)
    requires NonEmpty(ps) && Within(ps, s) && s.got == ps[..|s.got|] && s.q.content != [] && AtLead(ps, |s.sent|)
    ensures |s.q.content| == |Encode(ps[|s.got|])| + 1 && |s.got| + 1 < |ps|
  {
    hide Framed, Encode;
    var d := |s.got|;
    var k :| 0 <= k < |ps| && |s.sent| == |Framed(ps[..k])|;
    FramedNext(ps, d);
    if k <= d {
      FramedLonger(ps, k, d);
    } else {
      FramedLonger(ps, d + 1, k);
    }
  }

  /** Either all leading ENDs so far found the ring empty, or the session is spoilt. */
  lemma {:induction false} InTurnOrSpoilt(ps: seq<seq<Byte>>, size: nat, events: seq<Event>)
    requires 0 < size && NonEmpty(ps) && NeverFull(size, events) && Play(size, events).sent <= Framed(ps)
    requires !LeadsFindEmpty(ps, size, events)
    ensures exists j :: Spoilt(ps, j, Play(size, events))
    decreases |events|
  {
    hide InTurn, Spoilt, Input, Poll, Framed, AtLead;
    var n := |events| - 1;
    var s := Play(size, events[..n]);
    assert s.sent <= Play(size, events).sent;
    if LeadsFindEmpty(ps, size, events[..n]) {
      LeadsInTurn(ps, size, events[..n]);
      LeadSpoils(ps, s, events[n].c);
    } else {
      InTurnOrSpoilt(ps, size, events[..n]);
      var j :| Spoilt(ps, j, s);
      match events[n]
      case Receive(c) => SpoiltReceive(ps, j, s, c);
      case PollNow => SpoiltPoll(ps, j, s);
    }
  }

  /** When all has been sent and no packet is buffered, in a ring that never filled: every packet
      was returned, in order, if and only if every leading END found the ring empty. */
  lemma LeadingEndsIff(ps: seq<seq<Byte>>, size: nat, events: seq<Event>)
    requires 0 < size && NonEmpty(ps) && NeverFull(size, events) && Play(size, events).sent == Framed(ps)
    requires Play(size, events).q.end == 0
    ensures Play(size, events).got == ps <==> LeadsFindEmpty(ps, size, events)
  {
    var s := Play(size, events);
    hide Play, NeverFull, LeadsFindEmpty, Framed;
    if LeadsFindEmpty(ps, size, events) {
      LeadsInTurn(ps, size, events);
      AllSentInTurn(ps, s);
    } else {
      InTurnOrSpoilt(ps, size, events);
      var j :| Spoilt(ps, j, s);
      SpoiltIsWrong(ps, j, s);
    }
  }

  lemma AllSentInTurn(ps: seq<seq<Byte>>, s: Session)
    requires NonEmpty(ps) && InTurn(ps, s) && s.sent == Framed(ps) && s.q.end == 0
    ensures s.got == ps
  {
    hide Framed, Encode, FirstEnd;
    var d := |s.got|;
    if d < |ps| {
      FramedNext(ps, d);
      PacketBytes(ps[d]);
      if Within(ps, s) {
        FrameBytes(ps, d, s.q.content);
        FirstEndOfFrame(s.q.content, Encode(ps[d]));
      }
      assert false;
    }
    assert ps[..d] == ps;
  }

  // ---------------------------------------------------------------------------
  // Runs

  const TWO: seq<seq<Byte>> := [[1], [65]]

  /** Both frames of TWO arrive. The first is polled too late, and the second is polled once it is
      complete. */
  const LATE: seq<Event> := [Receive(END), Receive(1), Receive(END), Receive(END), PollNow, Receive(65), Receive(END), PollNow]

  /** The same with the first poll later still. */
  const LATER: seq<Event> := [Receive(END), Receive(1), Receive(END), Receive(END), Receive(65), Receive(END), PollNow, PollNow]

  const START: seq<Event> := [Receive(END), Receive(1), Receive(END), Receive(END)]

  lemma RoomNext(size: nat, events: seq<Event>, i: nat)
    requires 0 < size && i < |events| && NeverFull(size, events[..i])
    requires events[i].Receive? ==> |Play(size, events[..i]).q.content| + 1 < size
    ensures NeverFull(size, events[..i + 1])
  {
    hide Play;
    assert events[..i + 1][..i] == events[..i];
  }

  /** The bytes of the ring after the events, which decide the rest of its state here. */
  ghost predicate At(size: nat, events: seq<Event>, i: nat, content: seq<Byte>, end: nat, sent: seq<Byte>, got: seq<seq<Byte>>)
    requires 0 < size && i <= |events|
  {
    && var s := Play(size, events[..i]);
    && s.q.content == content && s.q.end == end && s.q.phase == Ok && s.sent == sent && s.got == got
    && NeverFull(size, events[..i])
  }

  lemma AtByte(size: nat, events: seq<Event>, i: nat, content: seq<Byte>, end: nat, sent: seq<Byte>, got: seq<seq<Byte>>)
    requires 0 < size && i < |events| && At(size, events, i, content, end, sent, got) && |content| + 1 < size
    requires events[i].Receive? && events[i].c != ESC && (events[i].c == END ==> content != [])
    requires end != |content| || content == []
    ensures var c := events[i].c;
      At(size, events, i + 1, content + [c], if c == END && end == 0 then |content| else end, sent + [c], got)
  {
    PlayNext(size, events, i);
    RoomNext(size, events, i);
    hide Play, NeverFull;
  }

  lemma AtDropped(size: nat, events: seq<Event>, i: nat, sent: seq<Byte>, got: seq<seq<Byte>>)
    requires 1 < size && i < |events| && At(size, events, i, [], 0, sent, got) && events[i] == Receive(END)
    ensures At(size, events, i + 1, [], 0, sent + [END], got)
  {
    PlayNext(size, events, i);
    RoomNext(size, events, i);
    hide Play, NeverFull;
  }

  lemma AtPolled(size: nat, events: seq<Event>, i: nat, content: seq<Byte>, end: nat, sent: seq<Byte>, got: seq<seq<Byte>>,
                 p: seq<Byte>, rest: seq<Byte>, next: nat)
    requires 0 < size && i < |events| && At(size, events, i, content, end, sent, got) && events[i] == PollNow
    requires 0 < end < |content| && Decode(content[..end]).out == p != [] && rest == content[end + 1..]
    requires FirstEnd(rest) == next
    ensures At(size, events, i + 1, rest, next, sent, got + [p])
  {
    PlayNext(size, events, i);
    RoomNext(size, events, i);
    hide Play, NeverFull, FirstEnd, Decode;
  }

  lemma EndBehind(events: seq<Event>)
    requires |events| >= 4 && events[..4] == START
    ensures At(8, events, 4, [1, END, END], 1, [END, 1, END, END], [])
  {
    NothingPlayed(8);
    assert events[..0] == [];
    assert forall i :: 0 <= i < 4 ==> events[i] == START[i];
    assert At(8, events, 0, [], 0, [], []);
    hide At;
    AtDropped(8, events, 0, [], []);
    AtByte(8, events, 1, [], 0, [] + [END], []);
    AtByte(8, events, 2, [] + [1], 0, [] + [END] + [1], []);
    AtByte(8, events, 3, [] + [1] + [END], 1, [] + [END] + [1] + [END], []);
    assert [] + [1] + [END] + [END] == [1, END, END] && [] + [END] + [1] + [END] + [END] == [END, 1, END, END];
  }

  /** Polled with only the END behind it, the first packet comes out right, and the second with the
      END in front. */
  lemma StrayByte()
    ensures At(8, LATE, 8, [], 0, Framed(TWO), [[1], [END, 65]]) && LATE[..8] == LATE
  {
    hide At, Decode, FirstEnd, Framed, Encode, Play, NeverFull;
    EndBehind(LATE);
    DecodeOne(1);
    assert [1, END, END][..1] == [1] && [1, END, END][2..] == [END];
    FirstEndIs([END], 0);
    AtPolled(8, LATE, 4, [1, END, END], 1, [END, 1, END, END], [], [1], [END], 0);
    AtByte(8, LATE, 5, [END], 0, [END, 1, END, END], [] + [[1]]);
    assert [END] + [65] == [END, 65];
    AtByte(8, LATE, 6, [END, 65], 0, [END, 1, END, END] + [65], [] + [[1]]);
    DecodeOne(END);
    DecodeSnoc([END], 65);
    var c := [END, 65] + [END];
    assert c[..2] == [END, 65] && c[3..] == [];
    FirstEndNone([]);
    AtPolled(8, LATE, 7, c, 2, [END, 1, END, END] + [65] + [END], [] + [[1]], [END, 65], [], 0);
    FramedTwo();
    assert [END, 1, END, END] + [65] + [END] == [END, 1, END, END, 65, END];
    assert [] + [[1]] + [[END, 65]] == [[1], [END, 65]];
    assert LATE[..8] == LATE;
  }

  /** With the second packet already waiting, it is not seen at all. */
  lemma HiddenPacket()
    ensures At(8, LATER, 7, [END, 65, END], 0, Framed(TWO), [[1]])
  {
    hide At, Decode, FirstEnd, Framed, Encode, Play, NeverFull;
    EndBehind(LATER);
    var c, sent := [1, END, END], [END, 1, END, END];
    AtByte(8, LATER, 4, c, 1, sent, []);
    AtByte(8, LATER, 5, c + [65], 1, sent + [65], []);
    DecodeOne(1);
    var d := c + [65] + [END];
    assert d[..1] == [1] && d[2..] == [END, 65, END];
    FirstEndIs([END, 65, END], 0);
    AtPolled(8, LATER, 6, d, 1, sent + [65] + [END], [], [1], [END, 65, END], 0);
    FramedTwo();
    assert sent + [65] + [END] == [END, 1, END, END, 65, END];
    assert [] + [[1]] == [[1]];
  }

  lemma FramedTwo()
    ensures Framed(TWO) == [END, 1, END, END, 65, END] && NonEmpty(TWO)
  {
    EncodeOne(1);
    EncodeOne(65);
    assert Framed([]) == [];
    assert [] + [[1]] == [[1]] && [[1]] + [[65]] == TWO;
    FramedSnoc([], [1]);
    FramedSnoc([[1]], [65]);
    hide Encode, Framed;
    assert Framed([[1]]) == [] + ([END] + [1] + [END]) == [END, 1, END];
    assert Framed(TWO) == [END, 1, END] + ([END] + [65] + [END]);
  }
}
