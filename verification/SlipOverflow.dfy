/** What becomes of a stream when bytes find the ring full: exactly which runs still deliver every
    packet. */
module SlipOverflow {
  import opened Bytes
  import opened Sequences
  import opened Slip

  // ---------------------------------------------------------------------------
  // Counting terminators

  ghost function Ends(s: seq<Byte>): nat
    decreases |s|
  {
    if s == [] then 0 else Ends(s[..|s| - 1]) + if s[|s| - 1] == END then 1 else 0
  }

  lemma EndsSnoc(s: seq<Byte>, b: Byte)
    ensures Ends(s + [b]) == Ends(s) + if b == END then 1 else 0
  {
    assert (s + [b])[..|s|] == s;
  }

  lemma {:induction false} EndsJoin(s: seq<Byte>, t: seq<Byte>)
    ensures Ends(s + t) == Ends(s) + Ends(t)
    decreases |t|
  {
    if t == [] {
      assert s + t == s;
    } else {
      var u, b := t[..|t| - 1], t[|t| - 1];
      EndsJoin(s, u);
      assert s + t == s + u + [b];
      EndsSnoc(s + u, b);
    }
  }

  lemma {:induction false} EndsNone(s: seq<Byte>)
    requires forall i :: 0 <= i < |s| ==> s[i] != END
    ensures Ends(s) == 0
    decreases |s|
  {
    if s != [] {
      EndsNone(s[..|s| - 1]);
    }
  }

  lemma {:induction false} FramesEnds(ps: seq<seq<Byte>>)
    ensures Ends(Frames(ps)) == |ps|
    decreases |ps|
  {
    if ps == [] {
      assert Frames(ps) == [];
    } else {
      var n := |ps| - 1;
      var e := Encode(ps[n]);
      FramesEnds(ps[..n]);
      EncodeEscapes(ps[n]);
      EndsNone(e);
      EndsSnoc(e, END);
      EndsJoin(Frames(ps[..n]), e + [END]);
    }
  }

  lemma FramesLast(ps: seq<seq<Byte>>)
    ensures Frames(ps) != [] ==> Frames(ps)[|Frames(ps)| - 1] == END
  {
  }

  /** A proper part of the stream lacks at least the last terminator. */
  lemma PrefixEnds(ps: seq<seq<Byte>>, s: seq<Byte>)
    requires s <= Frames(ps)
    ensures Ends(s) <= |ps| && (s != Frames(ps) ==> Ends(s) < |ps|)
  {
    FramesEnds(ps);
    FramesLast(ps);
    hide Frames, Ends;
    var t := Frames(ps)[|s|..];
    assert Frames(ps) == s + t;
    EndsJoin(s, t);
    if t != [] {
      EndsSnoc(t[..|t| - 1], t[|t| - 1]);
      assert t == t[..|t| - 1] + [t[|t| - 1]];
      assert t[|t| - 1] == Frames(ps)[|Frames(ps)| - 1];
    }
  }

  // ---------------------------------------------------------------------------
  // How many packets can still come

  /** The terminators that polls can come across in the ring as it is. When the waiting packet has
      lost its own, the search goes all around and comes back to the packet itself. */
  ghost function Waiting(q: Queue): nat
    requires Sane(q)
  {
    if q.end == 0 then Ends(q.content)
    else (if q.end < |q.content| then Ends(q.content[..q.end]) else 0) + 1 + Ends(Rest(q))
  }

  /** Packets returned, waiting and to come; in rubbish the next terminator will be dropped. */
  ghost function Hope(ps: seq<seq<Byte>>, s: Session): int
    requires Sane(s.q)
  {
    var rest := |ps| - Ends(s.sent);
    |s.got| + Waiting(s.q) + rest - if s.q.phase == Rubbish && rest > 0 then 1 else 0
  }

  /** An escape is open only right after an ESC. */
  ghost predicate EscOk(s: Session) {
    s.q.phase == Esc ==> s.sent != [] && s.sent[|s.sent| - 1] == ESC
  }

  /** No room for a byte that would have to be stored. */
  ghost predicate Refused(q: Queue, c: Byte) {
    && q.phase != Rubbish && !(q.phase == Esc && c != ESC_END && c != ESC_ESC)
    && |q.stale| == 1
  }

  lemma EscapeGood(ps: seq<seq<Byte>>, s: Session, c: Byte)
    requires EscOk(s) && s.sent + [c] <= Frames(ps) && s.q.phase == Esc
    ensures c == ESC_END || c == ESC_ESC
  {
    EscapeCode(ps, s.sent, c);
  }

  /** Storing a byte takes no terminator away, and only an END adds one; but behind a packet that has
      lost its terminator it covers up the memory the search would have come to. */
  lemma StoreWaiting(q: Queue, c: Byte)
    requires Sane(q) && 1 < |q.stale| && q.phase != Rubbish && (q.phase == Esc ==> c == ESC_END || c == ESC_ESC)
    ensures var q' := Input(q, c);
      && Sane(q') && q'.phase != Rubbish && Waiting(q') <= Waiting(q) + (if c == END && |q.content| != q.end then 1 else 0)
      && (q.end == |q.content| > 0 && c != END ==> Waiting(q') == Waiting(q) - Ends(q.stale[1..]))
  {
    InputIsSane(q, c);
    if q.end == |q.content| > 0 {
      if c == END {
        assert Input(q, c).stale[1..] == q.stale[1..];
      } else {
        StoreBehind(q, c);
      }
    } else if q.end == 0 {
      EndsSnoc(q.content, c);
      if c == END && q.content != [] {
        assert Rest(Input(q, c)) == [] && Input(q, c).content[..|q.content|] == q.content;
      }
    } else {
      var q' := Input(q, c);
      assert q'.content[..q.end] == q.content[..q.end];
      assert Rest(q') == Rest(q) + [c];
      EndsSnoc(Rest(q), c);
    }
  }

  lemma StoreBehind(q: Queue, c: Byte)
    requires Sane(q) && 1 < |q.stale| && q.phase != Rubbish && (q.phase == Esc ==> c == ESC_END || c == ESC_ESC)
    requires q.end == |q.content| > 0 && c != END
    ensures Sane(Input(q, c)) && Waiting(Input(q, c)) == Waiting(q) - Ends(q.stale[1..])
  {
    InputIsSane(q, c);
    var q' := Input(q, c);
    assert q'.content[..q.end] == q.content && Rest(q') == [];
    EndsJoin(q.stale[1..], q.content);
  }

  /** A byte that is not refused gives no new hope. */
  lemma ReceiveHope(ps: seq<seq<Byte>>, s: Session, c: Byte)
    requires Sane(s.q) && EscOk(s) && s.sent + [c] <= Frames(ps) && !Refused(s.q, c)
    ensures var s' := React(s, Receive(c));
      && Sane(s'.q) && EscOk(s') && Hope(ps, s') <= Hope(ps, s)
      && (s.q.phase != Rubbish && c == END && |s.q.content| == s.q.end ==> Hope(ps, s') < Hope(ps, s))
      && (s.q.phase != Rubbish && c != END && s.q.end == |s.q.content| > 0 ==>
            Hope(ps, s') == Hope(ps, s) - Ends(s.q.stale[1..]))
  {
    hide Frames, Input, Rest;
    PrefixEnds(ps, s.sent + [c]);
    EndsSnoc(s.sent, c);
    if s.q.phase == Rubbish {
      RubbishInput(s.q, c);
    } else {
      if s.q.phase == Esc {
        EscapeGood(ps, s, c);
      }
      StoreWaiting(s.q, c);
      EscapeOpens(s.q, c);
    }
  }

  lemma EscapeOpens(q: Queue, c: Byte)
    requires Sane(q) && 1 < |q.stale| && q.phase != Rubbish && (q.phase == Esc ==> c == ESC_END || c == ESC_ESC)
    ensures Input(q, c).phase == Esc ==> c == ESC
  {
  }

  lemma RubbishInput(q: Queue, c: Byte)
    requires Sane(q) && q.phase == Rubbish
    ensures Input(q, c) == if c == END then q.(phase := Ok) else q
    ensures Sane(Input(q, c)) && Waiting(Input(q, c)) == Waiting(q)
  {
  }

  /** Nor does a poll; and hope is lost when nothing is returned, or a packet with an END in it. */
  lemma PollHope(ps: seq<seq<Byte>>, s: Session)
    requires Sane(s.q) && EscOk(s)
    ensures var s' := React(s, PollNow);
      && Sane(s'.q) && EscOk(s') && s'.sent == s.sent && s'.q.phase == s.q.phase
      && Hope(ps, s') <= Hope(ps, s)
      && (0 < s.q.end && s'.got == s.got ==> Hope(ps, s') < Hope(ps, s))
      && (0 < s.q.end < |s.q.content| && Ends(s.q.content[..s.q.end]) > 0 ==> Hope(ps, s') < Hope(ps, s))
  {
    if 0 < s.q.end {
      PollIsSane(s.q);
      PollWaiting(s.q);
      hide Rest, Poll, Decode;
    }
  }

  lemma PollWaiting(q: Queue)
    requires Sane(q) && 0 < q.end
    ensures Sane(Poll(q)) && Waiting(Poll(q)) == Ends(Rest(q)) && Poll(q).phase == q.phase
  {
    PollIsSane(q);
    var rest, m := Rest(q), Poll(q).end;
    if m > 0 {
      FirstEndBound(rest);
      hide FirstEnd, Ends;
      EndsAround(rest, m);
      EndsNone(rest[..m]);
    }
  }

  /** Nor does a byte that is refused. It even costs one, unless the stale byte before the ring, which
      the search will come to now, is a terminator. */
  lemma RefusedHope(ps: seq<seq<Byte>>, s: Session, c: Byte)
    requires Sane(s.q) && EscOk(s) && s.sent + [c] <= Frames(ps) && Refused(s.q, c)
    ensures var s' := React(s, Receive(c));
      && s'.q == GiveUp(s.q) && Sane(s'.q) && EscOk(s') && s'.got == s.got
      && Hope(ps, s') <= Hope(ps, s) - (if c == END && s.sent + [c] != Frames(ps) then 2 else 1)
                         + (if 0 < s.q.end < |s.q.content| && s.q.stale == [END] then 1 else 0)
  {
    hide Frames;
    EndsSnoc(s.sent, c);
    PrefixEnds(ps, s.sent + [c]);
    if c != END {
      NotLast(ps, s.sent, c);
    }
    GiveUpWaiting(s.q);
    hide Ends, Waiting, Rest;
  }

  lemma GiveUpWaiting(q: Queue)
    requires Sane(q) && |q.stale| == 1
    ensures Sane(GiveUp(q))
    ensures Waiting(GiveUp(q)) <= Waiting(q) + (if 0 < q.end < |q.content| && q.stale == [END] then 1 else 0)
  {
    var q' := GiveUp(q);
    if 0 < q.end < |q.content| {
      var a, b := q.content[..q.end], q.content[q.end + 1..];
      assert q'.stale[1..] == b + q.stale;
      EndsJoin(b + q.stale, a);
      EndsJoin(b, q.stale);
      assert q.stale == [] + [q.stale[0]];
      EndsSnoc([], q.stale[0]);
    } else if q.end == 0 {
      assert q'.content == [];
    } else {
      assert q'.content == q.content && q'.stale == q.stale;
    }
  }

  lemma NotLast(ps: seq<seq<Byte>>, t: seq<Byte>, c: Byte)
    requires t + [c] <= Frames(ps) && c != END
    ensures t + [c] != Frames(ps)
  {
    FramesLast(ps);
  }

  lemma EndsAround(s: seq<Byte>, m: nat)
    requires m < |s| && s[m] == END
    ensures Ends(s) == Ends(s[..m]) + 1 + Ends(s[m + 1..])
  {
    assert Ends([]) == 0;
    hide Ends;
    EndsSnoc([], END);
    assert [] + [END] == [END];
    assert s == s[..m] + ([END] + s[m + 1..]);
    EndsJoin(s[..m], [END] + s[m + 1..]);
    EndsJoin([END], s[m + 1..]);
  }

  // ---------------------------------------------------------------------------
  // Up to the first refusal

  /** Event `i` is a byte that finds the ring full. */
  ghost predicate IsRefused(size: nat, events: seq<Event>, i: nat)
    requires 0 < size && i < |events|
  {
    events[i].Receive? && Refused(Play(size, events[..i]).q, events[i].c)
  }

  /** The slot before the ring's beginning holds the terminator of the last packet returned. */
  ghost predicate StaleTail(s: Session) {
    s.q.stale != [] && s.q.stale[|s.q.stale| - 1] == if s.got == [] then 0 else END
  }

  /** While the ring has had room for every byte. */
  ghost predicate Regular(ps: seq<seq<Byte>>, s: Session)
    requires Sane(s.q)
  {
    InStep(ps, s) && StaleTail(s) && EscOk(s) && Hope(ps, s) <= |ps|
  }

  lemma RegularReceive(ps: seq<seq<Byte>>, s: Session, c: Byte)
    requires NonEmpty(ps) && Sane(s.q) && Regular(ps, s) && s.sent + [c] <= Frames(ps) && !Refused(s.q, c)
    ensures Sane(React(s, Receive(c)).q) && Regular(ps, React(s, Receive(c))) && 1 < |s.q.stale|
  {
    hide Frames, Hope, FirstEnd;
    NextByte(ps, s, c);
    assert s.q.phase != Rubbish && 1 < |s.q.stale|;
    ReceiveHope(ps, s, c);
    InputInStep(ps, s, c);
    hide InStep;
    TailStays(s.q, c);
  }

  lemma TailStays(q: Queue, c: Byte)
    requires Sane(q) && 1 < |q.stale|
    ensures var t := Input(q, c).stale; t != [] && t[|t| - 1] == q.stale[|q.stale| - 1]
  {
  }

  lemma RegularPoll(ps: seq<seq<Byte>>, s: Session)
    requires NonEmpty(ps) && Sane(s.q) && Regular(ps, s)
    ensures Sane(React(s, PollNow).q) && Regular(ps, React(s, PollNow))
  {
    hide Frames, Hope, FirstEnd, InStep, StaleTail, EscOk;
    PollHope(ps, s);
    PollInStep(ps, s);
    PollTail(ps, s);
  }

  lemma PollTail(ps: seq<seq<Byte>>, s: Session)
    requires NonEmpty(ps) && Sane(s.q) && InStep(ps, s) && StaleTail(s)
    ensures StaleTail(React(s, PollNow))
  {
    hide Frames, FirstEnd, Encode, Decode, Poll;
    if 0 < s.q.end {
      FirstFrame(ps, s);
      assert s.q.end == FirstEnd(s.q.content);
      FirstEndBound(s.q.content);
      RoundTrip(ps[|s.got|]);
      assert ps[|s.got|] != [];
      hide InStep;
      TakenTail(s.q);
    }
  }

  lemma TakenTail(q: Queue)
    requires Sane(q) && 0 < q.end < |q.content| && q.content[q.end] == END
    ensures var t := Poll(q).stale; t != [] && t[|t| - 1] == END
  {
  }

  lemma RegularStart(ps: seq<seq<Byte>>, size: nat)
    requires 0 < size
    ensures Regular(ps, Session(Fresh(size), [], []))
  {
    assert ps[..0] == [];
  }

  lemma {:induction false} RegularUpTo(ps: seq<seq<Byte>>, size: nat, events: seq<Event>, i: nat)
    requires 0 < size && NonEmpty(ps) && i <= |events| && Play(size, events).sent <= Frames(ps)
    requires forall j :: 0 <= j < i ==> !IsRefused(size, events, j)
    ensures Regular(ps, Play(size, events[..i]))
    decreases i
  {
    hide Regular, Frames, Refused, Input, Poll;
    if i == 0 {
      assert events[..0] == [];
      RegularStart(ps, size);
    } else {
      RegularUpTo(ps, size, events, i - 1);
      assert !IsRefused(size, events, i - 1);
      PlayNext(size, events, i - 1);
      PrefixRuns(size, events, i);
      hide Play;
      var s := Play(size, events[..i - 1]);
      match events[i - 1]
      case Receive(c) => RegularReceive(ps, s, c);
      case PollNow => RegularPoll(ps, s);
    }
  }

  // ---------------------------------------------------------------------------
  // The refusal

  lemma SplitPrefix(a: seq<Byte>, b: seq<Byte>, t: seq<Byte>, c: Byte)
    requires t + [c] <= a + b
    ensures |t| < |a| ==> t + [c] <= a
    ensures |t| >= |a| ==> t == a + t[|a|..] && t[|a|..] + [c] <= b
  {
    if |t| < |a| {
      assert (a + b)[..|t| + 1] == a[..|t| + 1];
    } else {
      assert (a + b)[..|t| + 1] == a + b[..|t| + 1 - |a|];
      assert t == (t + [c])[..|t|] == a + b[..|t| - |a|];
    }
  }

  lemma FrameByte(part: seq<Byte>, e: seq<Byte>, c: Byte)
    requires part + [c] <= e + [END]
    ensures part <= e && (|part| < |e| ==> c == e[|part|]) && (part == e ==> c == END)
  {
    assert c == (part + [c])[|part|] == (e + [END])[|part|];
    assert part == (part + [c])[..|part|] == (e + [END])[..|part|] == e[..|part|];
  }

  /** A position in the stream is within some frame. */
  lemma {:induction false} FrameOf(ps: seq<seq<Byte>>, t: seq<Byte>, c: Byte) returns (r: nat, part: seq<Byte>)
    requires t + [c] <= Frames(ps)
    ensures r < |ps| && t == Frames(ps[..r]) + part && part + [c] <= Encode(ps[r]) + [END]
    decreases |ps|
  {
    FramesNone();
    var n := |ps| - 1;
    var a, e := Frames(ps[..n]), Encode(ps[n]);
    assert Frames(ps) == a + (e + [END]);
    hide Frames, Encode;
    SplitPrefix(a, e + [END], t, c);
    if |t| < |a| {
      r, part := FrameOf(ps[..n], t, c);
      assert ps[..n][..r] == ps[..r];
    } else {
      r, part := n, t[|a|..];
    }
  }

  lemma FramesNone()
    ensures Frames([]) == []
  {
  }

  lemma {:induction false} FramesBetween(ps: seq<seq<Byte>>, d: nat, r: nat)
    requires d <= r <= |ps|
    ensures Frames(ps[..r]) == Frames(ps[..d]) + Frames(ps[d..r])
    decreases r
  {
    hide Frames, Encode;
    FramesNone();
    if d == r {
      assert ps[d..r] == [];
    } else {
      var f := Encode(ps[r - 1]) + [END];
      FramesBetween(ps, d, r - 1);
      assert ps[..r] == ps[..r - 1] + [ps[r - 1]] && ps[d..r] == ps[d..r - 1] + [ps[r - 1]];
      FramesSnoc(ps[..r - 1], ps[r - 1]);
      FramesSnoc(ps[d..r - 1], ps[r - 1]);
      Regroup(Frames(ps[..d]), Frames(ps[d..r - 1]), f);
    }
  }

  /** Frame `k` in front of the others. */
  lemma FramesFirst(ps: seq<seq<Byte>>, k: nat, r: nat)
    requires k < r <= |ps|
    ensures Frames(ps[k..r]) == Encode(ps[k]) + [END] + Frames(ps[k + 1..r])
  {
    hide Frames, Encode;
    FramesBetween(ps[k..r], 1, r - k);
    assert ps[k..r][..r - k] == ps[k..r] && ps[k..r][1..r - k] == ps[k + 1..r] && ps[k..r][..1] == [] + [ps[k]];
    FramesSnoc([], ps[k]);
    FramesNone();
    assert [] + (Encode(ps[k]) + [END]) == Encode(ps[k]) + [END];
  }

  /** The queue when the byte is refused: packet `d` waits, part of packet `r` has come. */
  ghost predicate Filled(ps: seq<seq<Byte>>, d: nat, r: nat, part: seq<Byte>, s: Session) {
    && d < r < |ps| && part <= Encode(ps[r])
    && s.got == ps[..d] && s.q.end == |Encode(ps[d])|
    && s.q.content == Encode(ps[d]) + [END] + (Frames(ps[d + 1..r]) + part)
  }

  lemma WhatIsThere(ps: seq<seq<Byte>>, s: Session, c: Byte) returns (r: nat, part: seq<Byte>)
    requires NonEmpty(ps) && Sane(s.q) && InStep(ps, s) && s.sent + [c] <= Frames(ps) && 0 < s.q.end
    ensures Filled(ps, |s.got|, r, part, s)
    ensures |part| < |Encode(ps[r])| ==> c == Encode(ps[r])[|part|]
    ensures part == Encode(ps[r]) ==> c == END
    ensures s.sent == Frames(ps[..r]) + part
  {
    hide Frames, Encode, FirstEnd;
    var d := |s.got|;
    FirstFrame(ps, s);
    FirstEndBound(s.q.content);
    r, part := FrameOf(ps, s.sent, c);
    FrameByte(part, Encode(ps[r]), c);
    if r <= d {
      NoEndsIn(ps, s, r, part);
      assert false;
    }
    FramesBetween(ps, d, r);
    FramesFirst(ps, d, r);
    Regroup(Frames(ps[..d]), Frames(ps[d..r]), part);
    assert s.q.content == Frames(ps[d..r]) + part;
    Regroup(Encode(ps[d]) + [END], Frames(ps[d + 1..r]), part);
    assert s.q.content[..|Encode(ps[d])|] == Encode(ps[d]);
  }

  /** Only part of a frame contains no terminator. */
  lemma NoEndsIn(ps: seq<seq<Byte>>, s: Session, r: nat, part: seq<Byte>)
    requires InStep(ps, s) && r <= |s.got| && r < |ps|
    requires s.sent == Frames(ps[..r]) + part && part <= Encode(ps[r])
    ensures forall i :: 0 <= i < |s.q.content| ==> s.q.content[i] != END
  {
    EncodeEscapes(ps[r]);
    hide Encode, FirstEnd, Frames;
    var d := |s.got|;
    FramesBetween(ps, r, d);
    var x := |Frames(ps[r..d])|;
    DropInto(Frames(ps[..r]), part, x);
    assert s.q.content == part[x..];
    assert forall i :: 0 <= i < |part| ==> part[i] == Encode(ps[r])[i];
  }

  lemma DropInto(a: seq<Byte>, part: seq<Byte>, x: nat)
    requires x <= |part|
    ensures (a + part)[|a| + x..] == part[x..]
  {
  }

  // ---------------------------------------------------------------------------
  // What comes after it

  ghost predicate Lost(ps: seq<seq<Byte>>, s: Session)
    requires Sane(s.q)
  {
    Hope(ps, s) < |ps|
  }

  /** The next packet to come out, as far as it is there: packet `k`, or in the end the part of packet
      `r`, which the refused byte would have continued. */
  ghost function Head(ps: seq<seq<Byte>>, r: nat, part: seq<Byte>, k: nat): seq<Byte>
    requires k <= r < |ps|
  {
    if k < r then Encode(ps[k]) else part
  }

  /** What was given up behind it. */
  ghost function Behind(ps: seq<seq<Byte>>, r: nat, part: seq<Byte>, k: nat): seq<Byte>
    requires k <= r < |ps|
  {
    if k < r then Frames(ps[k + 1..r]) + part + [END] else []
  }

  ghost predicate UpTo(ps: seq<seq<Byte>>, r: nat, part: seq<Byte>, k: nat, s: Session) {
    k <= r < |ps| && part <= Encode(ps[r]) && (k == r ==> part != []) && s.got == ps[..k]
  }

  /** The next packet waits with its terminator, and what was given up behind it. */
  ghost predicate Queued(ps: seq<seq<Byte>>, r: nat, part: seq<Byte>, k: nat, w: seq<Byte>, s: Session) {
    && UpTo(ps, r, part, k, s) && s.q.end == |Head(ps, r, part, k)|
    && s.q.content == Head(ps, r, part, k) + [END] + (Behind(ps, r, part, k) + w)
  }

  /** The next packet has lost its terminator; the rest lies in stale memory, up to one more. */
  ghost predicate GivenUp(ps: seq<seq<Byte>>, r: nat, part: seq<Byte>, k: nat, v: seq<Byte>, s: Session) {
    && UpTo(ps, r, part, k, s) && s.q.end == |s.q.content| && s.q.content == Head(ps, r, part, k)
    && s.q.stale == [END] + (Behind(ps, r, part, k) + v)
    && Behind(ps, r, part, k) + v != [] && s.q.stale[|s.q.stale| - 1] == END
  }

  /** The part of packet `r` has been returned. */
  ghost predicate Broken(ps: seq<seq<Byte>>, r: nat, s: Session) {
    r < |ps| && r < |s.got| && |s.got[r]| < |ps[r]|
  }

  /** An END with nothing before it. */
  ghost predicate Empty(c: seq<Byte>) {
    exists i :: EmptyAt(c, i)
  }

  ghost predicate EmptyAt(c: seq<Byte>, i: int) {
    0 <= i < |c| && c[i] == END && (i == 0 || c[i - 1] == END)
  }

  /** Searches will come to an END with nothing before it, which takes a packet's place. */
  ghost predicate Spoilt(q: Queue)
    requires Sane(q)
  {
    if q.end < |q.content| then Empty(q.content) && (q.content[0] == END || q.end == FirstEnd(q.content))
    else 0 < q.end && 2 <= |q.stale| && q.stale[|q.stale| - 1] == END && Empty(Rest(q))
  }

  /** Part of packet `r` will be returned for the whole, if not too few packets. */
  ghost predicate Wrong(ps: seq<seq<Byte>>, r: nat, part: seq<Byte>, s: Session)
    requires Sane(s.q)
  {
    || Lost(ps, s) || Broken(ps, r, s) || Spoilt(s.q)
    || (exists k: nat, w :: Queued(ps, r, part, k, w, s)) || (exists k: nat, v :: GivenUp(ps, r, part, k, v, s))
  }

  ghost predicate Tracked(ps: seq<seq<Byte>>, r: nat, part: seq<Byte>, s: Session)
    requires Sane(s.q)
  {
    EscOk(s) && Hope(ps, s) <= |ps| && Wrong(ps, r, part, s)
  }

  lemma PacketEncoded(ps: seq<seq<Byte>>, k: nat)
    requires NonEmpty(ps) && k < |ps|
    ensures NoEnd(Encode(ps[k])) && Decode(Encode(ps[k])).out == ps[k] != []
  {
    EncodeEscapes(ps[k]);
    RoundTrip(ps[k]);
    hide Encode, Decode;
    assert ps[k] != [];
  }

  lemma HeadIs(ps: seq<seq<Byte>>, r: nat, part: seq<Byte>, k: nat)
    requires NonEmpty(ps) && k <= r < |ps| && part <= Encode(ps[r]) && (k == r ==> part != [])
    ensures NoEnd(Head(ps, r, part, k))
  {
    PacketEncoded(ps, k);
    hide Encode, Decode;
    if k == r {
      assert forall i :: 0 <= i < |part| ==> part[i] == Encode(ps[r])[i];
    }
  }

  /** Behind packet `k` comes the next one. */
  lemma BehindNext(ps: seq<seq<Byte>>, r: nat, part: seq<Byte>, k: nat)
    requires k < r < |ps|
    ensures Behind(ps, r, part, k) == Head(ps, r, part, k + 1) + [END] + Behind(ps, r, part, k + 1)
  {
    hide Frames, Encode;
    if k + 1 < r {
      FramesFirst(ps, k + 1, r);
      var e, f := Encode(ps[k + 1]), Frames(ps[k + 2..r]);
      assert e + [END] + f + part + [END] == e + [END] + (f + part + [END]);
    } else {
      FramesNone();
      assert ps[k + 1..r] == [];
      assert [] + part + [END] == part + [END] + [];
    }
  }

  // ---------------------------------------------------------------------------
  // A byte that is accepted

  lemma AcceptsBehind(q: Queue, c: Byte)
    requires Sane(q) && q.end == |q.content| > 0 && 2 <= |q.stale| && (c == END || q.phase == Rubbish)
    requires q.phase != Esc
    ensures var q' := Input(q, c);
      && q'.content == q.content && q'.end == q.end && Rest(q') == Rest(q) && |q'.stale| == |q.stale|
      && q'.stale[1..] == q.stale[1..] && (q.stale[0] == END ==> q'.stale == q.stale)
  {
  }

  /** A byte stored where the terminator was covers the stale memory behind it. */
  lemma CoveredUp(ps: seq<seq<Byte>>, s: Session, c: Byte)
    requires Sane(s.q) && EscOk(s) && Hope(ps, s) <= |ps| && s.sent + [c] <= Frames(ps) && s.q.phase != Rubbish && c != END
    requires s.q.end == |s.q.content| > 0 && 2 <= |s.q.stale| && s.q.stale[|s.q.stale| - 1] == END
    ensures Sane(React(s, Receive(c)).q) && Lost(ps, React(s, Receive(c)))
  {
    hide Frames, Input;
    ReceiveHope(ps, s, c);
    var t := s.q.stale[1..];
    EndsSnoc(t[..|t| - 1], END);
    assert t == t[..|t| - 1] + [END];
  }

  lemma QueuedReceive(ps: seq<seq<Byte>>, r: nat, part: seq<Byte>, k: nat, w: seq<Byte>, s: Session, c: Byte)
    requires NonEmpty(ps) && Sane(s.q) && EscOk(s) && Queued(ps, r, part, k, w, s)
    requires s.sent + [c] <= Frames(ps) && !Refused(s.q, c)
    ensures Sane(React(s, Receive(c)).q) && Wrong(ps, r, part, React(s, Receive(c)))
  {
    hide Frames, Encode, Behind, Head, Lost, Broken, Spoilt, GivenUp;
    InputIsSane(s.q, c);
    var s' := React(s, Receive(c));
    if s.q.phase == Rubbish {
      RubbishInput(s.q, c);
      assert Queued(ps, r, part, k, w, s');
    } else {
      if s.q.phase == Esc {
        EscapeGood(ps, s, c);
      }
      HeadIs(ps, r, part, k);
      Appends(s.q, c);
      hide Input;
      var h, b := Head(ps, r, part, k), Behind(ps, r, part, k);
      assert h + [END] + (b + w) + [c] == h + [END] + (b + (w + [c]));
      assert Queued(ps, r, part, k, w + [c], s');
    }
  }

  lemma GivenUpReceive(ps: seq<seq<Byte>>, r: nat, part: seq<Byte>, k: nat, v: seq<Byte>, s: Session, c: Byte)
    requires NonEmpty(ps) && Sane(s.q) && EscOk(s) && Hope(ps, s) <= |ps| && GivenUp(ps, r, part, k, v, s)
    requires s.sent + [c] <= Frames(ps) && !Refused(s.q, c)
    ensures var s' := React(s, Receive(c));
      Sane(s'.q) && Wrong(ps, r, part, s')
  {
    hide Frames, Encode, Behind, Head, Broken, Spoilt, Queued;
    InputIsSane(s.q, c);
    HeadIs(ps, r, part, k);
    if s.q.phase == Esc {
      EscapeGood(ps, s, c);
    }
    if c == END || s.q.phase == Rubbish {
      AcceptsBehind(s.q, c);
      assert GivenUp(ps, r, part, k, v, React(s, Receive(c)));
    } else {
      CoveredUp(ps, s, c);
    }
  }

  lemma EmptyKept(c: seq<Byte>, d: seq<Byte>)
    requires Empty(c)
    ensures Empty(c + d)
  {
    var i :| EmptyAt(c, i);
    assert EmptyAt(c + d, i);
  }

  lemma EmptyHasEnd(c: seq<Byte>)
    requires Empty(c)
    ensures c[0] != END ==> 0 < FirstEnd(c) < |c| && c[FirstEnd(c)] == END
    ensures c[0] == END ==> FirstEnd(c) == 0
    ensures FirstEnd(c) < |c|
  {
    FirstEndBound(c);
    if c[0] == END {
      FirstEndIs(c, 0);
    }
    hide FirstEnd;
    var i :| EmptyAt(c, i);
  }

  lemma SpoiltReceive(ps: seq<seq<Byte>>, s: Session, c: Byte)
    requires Sane(s.q) && EscOk(s) && Hope(ps, s) <= |ps| && Spoilt(s.q)
    requires s.sent + [c] <= Frames(ps) && !Refused(s.q, c)
    ensures Sane(React(s, Receive(c)).q) && (Lost(ps, React(s, Receive(c))) || Spoilt(React(s, Receive(c)).q))
  {
    hide Frames, Empty, FirstEnd, Rest, Hope;
    InputIsSane(s.q, c);
    if s.q.phase == Esc {
      EscapeGood(ps, s, c);
    }
    if s.q.phase == Rubbish && s.q.end < |s.q.content| {
      RubbishInput(s.q, c);
    } else if s.q.end < |s.q.content| {
      Appends(s.q, c);
      EmptyHasEnd(s.q.content);
      EmptyKept(s.q.content, [c]);
      if s.q.content[0] != END {
        FirstEndSnoc(s.q.content, c);
      }
      hide Input;
    } else if c == END || s.q.phase == Rubbish {
      AcceptsBehind(s.q, c);
    } else {
      CoveredUp(ps, s, c);
    }
  }

  lemma TrackedReceive(ps: seq<seq<Byte>>, r: nat, part: seq<Byte>, s: Session, c: Byte)
    requires NonEmpty(ps) && Sane(s.q) && Tracked(ps, r, part, s) && s.sent + [c] <= Frames(ps) && !Refused(s.q, c)
    ensures Sane(React(s, Receive(c)).q) && Tracked(ps, r, part, React(s, Receive(c)))
  {
    ReceiveHope(ps, s, c);
    WrongReceive(ps, r, part, s, c);
  }

  lemma WrongReceive(ps: seq<seq<Byte>>, r: nat, part: seq<Byte>, s: Session, c: Byte)
    requires NonEmpty(ps) && Sane(s.q) && Tracked(ps, r, part, s) && s.sent + [c] <= Frames(ps) && !Refused(s.q, c)
    ensures Sane(React(s, Receive(c)).q) && Wrong(ps, r, part, React(s, Receive(c)))
  {
    hide Hope, Queued, GivenUp, Spoilt, Input, Refused, Frames, EscOk;
    if Lost(ps, s) {
      ReceiveHope(ps, s, c);
    } else if Broken(ps, r, s) {
      InputIsSane(s.q, c);
      assert Broken(ps, r, React(s, Receive(c)));
    } else if Spoilt(s.q) {
      SpoiltReceive(ps, s, c);
    } else if k: nat, w :| Queued(ps, r, part, k, w, s) {
      hide Lost, Wrong;
      QueuedReceive(ps, r, part, k, w, s, c);
    } else {
      var k: nat, v :| GivenUp(ps, r, part, k, v, s);
      hide Lost, Wrong;
      GivenUpReceive(ps, r, part, k, v, s, c);
    }
  }

  // ---------------------------------------------------------------------------
  // A byte that is refused

  lemma QueuedRefused(ps: seq<seq<Byte>>, r: nat, part: seq<Byte>, k: nat, w: seq<Byte>, s: Session, s': Session)
    requires NonEmpty(ps) && Sane(s.q) && Queued(ps, r, part, k, w, s) && s.q.stale == [END]
    requires s'.q == GiveUp(s.q) && s'.got == s.got
    ensures GivenUp(ps, r, part, k, w + [END], s')
  {
    hide Frames, Encode, Behind, Head;
    var h, b := Head(ps, r, part, k), Behind(ps, r, part, k);
    HeadIs(ps, r, part, k);
    assert s.q.content[..|h|] == h && s.q.content[|h|..] == [END] + (b + w);
    assert [END] + (b + w) + [END] == [END] + (b + (w + [END]));
    assert s'.q.stale == s.q.content[|h|..] + [END];
  }

  lemma SpoiltRefused(q: Queue)
    requires Sane(q) && Spoilt(q) && q.stale == [END] && 0 < q.end < |q.content|
    ensures Sane(GiveUp(q)) && Spoilt(GiveUp(q))
  {
    hide FirstEnd;
    var c, m, q' := q.content, q.end, GiveUp(q);
    var rest := c[m + 1..] + [END] + c[..m];
    assert q'.stale == c[m..] + [END] && q'.stale[1..] == c[m + 1..] + [END];
    assert Rest(q') == rest;
    if c[0] == END {
      assert EmptyAt(rest, |c| - m);
    } else {
      FirstEndBound(c);
      BeyondFirst(c, m);
      EmptyKept(c[m + 1..], [END]);
      EmptyKept(c[m + 1..] + [END], c[..m]);
    }
  }

  /** The END with nothing before it comes after the first one. */
  lemma BeyondFirst(c: seq<Byte>, m: nat)
    requires Empty(c) && c[0] != END && m < |c| && c[m] == END && forall i :: 0 <= i < m ==> c[i] != END
    ensures Empty(c[m + 1..])
  {
    var i :| EmptyAt(c, i);
    assert i > m;
    assert EmptyAt(c[m + 1..], i - m - 1);
  }

  lemma TrackedRefused(ps: seq<seq<Byte>>, r: nat, part: seq<Byte>, s: Session, c: Byte)
    requires NonEmpty(ps) && Sane(s.q) && Tracked(ps, r, part, s) && s.sent + [c] <= Frames(ps) && Refused(s.q, c)
    ensures Sane(React(s, Receive(c)).q) && Tracked(ps, r, part, React(s, Receive(c)))
  {
    hide Hope, Frames, EscOk, Head, Behind, Encode, FirstEnd, Rest, Empty;
    RefusedHope(ps, s, c);
    var s' := React(s, Receive(c));
    hide Input, GiveUp;
    if !Lost(ps, s') && !Broken(ps, r, s) {
      assert 0 < s.q.end < |s.q.content| && s.q.stale == [END];
      if Spoilt(s.q) {
        SpoiltRefused(s.q);
      } else {
        hide Spoilt;
        var k: nat, w :| Queued(ps, r, part, k, w, s);
        QueuedRefused(ps, r, part, k, w, s, s');
      }
    }
  }

  // ---------------------------------------------------------------------------
  // A poll

  lemma PollFields(s: Session, p: seq<Byte>, rest: seq<Byte>)
    requires Sane(s.q) && 0 < s.q.end && Rest(s.q) == rest && Decode(s.q.content[..s.q.end]).out == p
    ensures var s' := React(s, PollNow);
      && s'.got == (if p == [] then s.got else s.got + [p])
      && s'.q.content == rest && s'.q.end == FirstEnd(rest)
  {
  }

  /** Packet `k` is returned, and the next one heads the ring; or an END with nothing before it, if
      nothing of packet `r` has come. */
  lemma NextHeads(ps: seq<seq<Byte>>, r: nat, part: seq<Byte>, k: nat, w: seq<Byte>, s: Session)
    requires NonEmpty(ps) && Sane(s.q) && k < r && UpTo(ps, r, part, k, s)
    requires 0 < s.q.end && s.q.content[..s.q.end] == Encode(ps[k]) && Rest(s.q) == Behind(ps, r, part, k) + w
    ensures Sane(React(s, PollNow).q)
    ensures if k + 1 == r && part == [] then Spoilt(React(s, PollNow).q) else Queued(ps, r, part, k + 1, w, React(s, PollNow))
  {
    hide Frames, Encode, Decode, FirstEnd, Rest, Behind, Head;
    PacketEncoded(ps, k);
    PollIsSane(s.q);
    PollFields(s, ps[k], Behind(ps, r, part, k) + w);
    TakeNext(ps, k);
    BehindNext(ps, r, part, k);
    var s' := React(s, PollNow);
    var h, b := Head(ps, r, part, k + 1), Behind(ps, r, part, k + 1);
    hide React, Poll;
    assert s'.q.content == h + [END] + (b + w);
    if k + 1 == r && part == [] {
      NoHead(ps, r);
      FirstEndIs(s'.q.content, 0);
      assert EmptyAt(s'.q.content, 0);
    } else {
      HeadIs(ps, r, part, k + 1);
      TakeFirst(s'.q.content, h, b + w);
    }
  }

  lemma NoHead(ps: seq<seq<Byte>>, r: nat)
    requires r < |ps|
    ensures Head(ps, r, [], r) == []
  {
  }

  lemma TakeFirst(c: seq<Byte>, e: seq<Byte>, z: seq<Byte>)
    requires c == e + [END] + z && NoEnd(e)
    ensures FirstEnd(c) == |e| && c[..|e|] == e && c[|e| + 1..] == z
  {
    hide FirstEnd;
    assert Starts(c, e);
    FirstEndOfFrame(c, e);
  }

  /** What is taken out as packet `r` in the end is too short. */
  lemma PartReturned(ps: seq<seq<Byte>>, r: nat, part: seq<Byte>, s: Session)
    requires NonEmpty(ps) && Sane(s.q) && EscOk(s) && Hope(ps, s) <= |ps| && UpTo(ps, r, part, r, s) && part != Encode(ps[r])
    requires 0 < s.q.end && s.q.content[..s.q.end] == part
    ensures Sane(React(s, PollNow).q) && (Lost(ps, React(s, PollNow)) || Broken(ps, r, React(s, PollNow)))
  {
    hide Frames, Encode, Decode, FirstEnd, Rest, Hope;
    PollHope(ps, s);
    PollFields(s, Decode(part).out, Rest(s.q));
    assert ps[r] != [];
    PartIsShort(ps[r], part);
    hide React, Poll;
  }

  lemma PartIsShort(p: seq<Byte>, part: seq<Byte>)
    requires p != [] && part <= Encode(p) && part != Encode(p)
    ensures |Decode(part).out| < |p|
  {
    hide Encode, Decode;
    ButLast(p);
    var e := Encode(p);
    var f := e[..|e| - 1];
    assert part == f[..|part|];
    DecodeTake(f, |part|);
  }

  lemma QueuedRest(ps: seq<seq<Byte>>, r: nat, part: seq<Byte>, k: nat, w: seq<Byte>, s: Session)
    requires NonEmpty(ps) && Sane(s.q) && Queued(ps, r, part, k, w, s)
    ensures var h := Head(ps, r, part, k);
      0 < s.q.end && s.q.content[..s.q.end] == h && Rest(s.q) == Behind(ps, r, part, k) + w
  {
    hide Head, Behind, Encode, Frames;
    HeadIs(ps, r, part, k);
    var h, z := Head(ps, r, part, k), Behind(ps, r, part, k) + w;
    hide Queued;
    assert s.q.content == h + [END] + z && s.q.end == |h| by {
      QueuedParts(ps, r, part, k, w, s);
    }
    assert s.q.content[..|h|] == h && s.q.content[|h| + 1..] == z;
  }

  lemma QueuedParts(ps: seq<seq<Byte>>, r: nat, part: seq<Byte>, k: nat, w: seq<Byte>, s: Session)
    requires Queued(ps, r, part, k, w, s)
    ensures s.q.content == Head(ps, r, part, k) + [END] + (Behind(ps, r, part, k) + w) && s.q.end == |Head(ps, r, part, k)|
  {
  }

  lemma GivenUpRest(ps: seq<seq<Byte>>, r: nat, part: seq<Byte>, k: nat, v: seq<Byte>, s: Session)
    requires NonEmpty(ps) && Sane(s.q) && GivenUp(ps, r, part, k, v, s)
    ensures var h := Head(ps, r, part, k);
      0 < s.q.end && s.q.content[..s.q.end] == h && Rest(s.q) == Behind(ps, r, part, k) + (v + h)
  {
    hide Head, Behind, Encode, Frames;
    HeadIs(ps, r, part, k);
    var h, b := Head(ps, r, part, k), Behind(ps, r, part, k);
    assert s.q.content[..|h|] == h;
    assert s.q.stale[1..] == b + v;
    assert b + v + h == b + (v + h);
  }

  lemma SpoiltPoll(ps: seq<seq<Byte>>, s: Session)
    requires Sane(s.q) && EscOk(s) && Hope(ps, s) <= |ps| && Spoilt(s.q) && 0 < s.q.end
    ensures Sane(React(s, PollNow).q) && (Lost(ps, React(s, PollNow)) || Spoilt(React(s, PollNow).q))
  {
    hide Hope, FirstEnd, Empty, Decode;
    PollHope(ps, s);
    var c, m, q' := s.q.content, s.q.end, Poll(s.q);
    assert React(s, PollNow).q == q' && q'.content == Rest(s.q) && q'.end == FirstEnd(Rest(s.q));
    if m < |c| && c[0] == END {
      EndAtHead(c, m);
    } else {
      if m < |c| {
        FirstEndBound(c);
        EmptyHasEnd(c);
        BeyondFirst(c, m);
      }
      hide Rest, React, Poll;
      assert Empty(q'.content);
      EmptyHasEnd(q'.content);
    }
  }

  lemma EndAtHead(c: seq<Byte>, m: nat)
    requires 0 < m <= |c| && c[0] == END
    ensures Ends(c[..m]) > 0
  {
    EndsAround(c[..m], 0);
  }

  lemma TrackedPoll(ps: seq<seq<Byte>>, r: nat, part: seq<Byte>, s: Session)
    requires NonEmpty(ps) && Sane(s.q) && Tracked(ps, r, part, s) && r < |ps| && part != Encode(ps[r])
    ensures Sane(React(s, PollNow).q) && Tracked(ps, r, part, React(s, PollNow))
  {
    PollHope(ps, s);
    WrongPoll(ps, r, part, s);
  }

  lemma WrongPoll(ps: seq<seq<Byte>>, r: nat, part: seq<Byte>, s: Session)
    requires NonEmpty(ps) && Sane(s.q) && Tracked(ps, r, part, s) && r < |ps| && part != Encode(ps[r])
    ensures Sane(React(s, PollNow).q) && Wrong(ps, r, part, React(s, PollNow))
  {
    hide Hope, Queued, GivenUp, Spoilt, Poll, Frames, EscOk, Decode, Encode, Head, Behind, Rest;
    if Lost(ps, s) {
      PollHope(ps, s);
    } else if Broken(ps, r, s) {
      PollIsSane(s.q);
      assert React(s, PollNow).got[..|s.got|] == s.got;
      assert Broken(ps, r, React(s, PollNow));
    } else if Spoilt(s.q) {
      if 0 < s.q.end {
        SpoiltPoll(ps, s);
      }
    } else if k: nat, w :| Queued(ps, r, part, k, w, s) {
      hide Lost, Wrong;
      QueuedPoll(ps, r, part, k, w, s);
    } else {
      var k: nat, v :| GivenUp(ps, r, part, k, v, s);
      hide Lost, Wrong;
      GivenUpPoll(ps, r, part, k, v, s);
    }
  }

  lemma QueuedPoll(ps: seq<seq<Byte>>, r: nat, part: seq<Byte>, k: nat, w: seq<Byte>, s: Session)
    requires NonEmpty(ps) && Sane(s.q) && EscOk(s) && Hope(ps, s) <= |ps| && Queued(ps, r, part, k, w, s) && part != Encode(ps[r])
    ensures var s' := React(s, PollNow);
      Sane(s'.q) && Wrong(ps, r, part, s')
  {
    hide Hope, Lost, Broken, Spoilt, Frames, EscOk, Decode, Encode, Behind, Rest, React, GivenUp;
    QueuedRest(ps, r, part, k, w, s);
    if k < r {
      NextHeads(ps, r, part, k, w, s);
    } else {
      PartReturned(ps, r, part, s);
    }
  }

  lemma GivenUpPoll(ps: seq<seq<Byte>>, r: nat, part: seq<Byte>, k: nat, v: seq<Byte>, s: Session)
    requires NonEmpty(ps) && Sane(s.q) && EscOk(s) && Hope(ps, s) <= |ps| && GivenUp(ps, r, part, k, v, s) && part != Encode(ps[r])
    ensures var s' := React(s, PollNow);
      Sane(s'.q) && Wrong(ps, r, part, s')
  {
    hide Hope, Lost, Broken, Spoilt, Frames, EscOk, Decode, Encode, Behind, Rest, React;
    GivenUpRest(ps, r, part, k, v, s);
    if k < r {
      NextHeads(ps, r, part, k, v + Head(ps, r, part, k), s);
    } else {
      PartReturned(ps, r, part, s);
    }
  }

  // ---------------------------------------------------------------------------
  // Runs

  lemma TrackedStep(ps: seq<seq<Byte>>, r: nat, part: seq<Byte>, s: Session, e: Event)
    requires NonEmpty(ps) && Sane(s.q) && Tracked(ps, r, part, s) && r < |ps| && part != Encode(ps[r])
    requires React(s, e).sent <= Frames(ps)
    ensures Sane(React(s, e).q) && Tracked(ps, r, part, React(s, e))
  {
    hide Tracked, Frames, Encode, Refused, Input, Poll;
    match e
    case Receive(c) =>
      if Refused(s.q, c) {
        TrackedRefused(ps, r, part, s, c);
      } else {
        TrackedReceive(ps, r, part, s, c);
      }
    case PollNow => TrackedPoll(ps, r, part, s);
  }

  lemma {:induction false} StaysTracked(ps: seq<seq<Byte>>, size: nat, events: seq<Event>, k: nat,
                                        r: nat, part: seq<Byte>, i: nat)
    requires 0 < size && NonEmpty(ps) && Play(size, events).sent <= Frames(ps)
    requires k <= i <= |events| && r < |ps| && part != Encode(ps[r])
    requires Tracked(ps, r, part, Play(size, events[..k]))
    ensures Tracked(ps, r, part, Play(size, events[..i]))
    decreases i
  {
    hide Tracked, Frames, Encode, React;
    if i > k {
      StaysTracked(ps, size, events, k, r, part, i - 1);
      PlayNext(size, events, i - 1);
      PrefixRuns(size, events, i);
      hide Play;
      TrackedStep(ps, r, part, Play(size, events[..i - 1]), events[i - 1]);
    }
  }

  lemma LostIsWrong(ps: seq<seq<Byte>>, s: Session)
    requires Sane(s.q) && Lost(ps, s) && s.sent == Frames(ps)
    ensures s.got != ps
  {
    FramesEnds(ps);
  }

  lemma SpoiltIsWrong(ps: seq<seq<Byte>>, s: Session)
    requires Sane(s.q) && Spoilt(s.q) && Hope(ps, s) <= |ps| && s.sent == Frames(ps) && s.q.end == 0
    ensures s.got != ps
  {
    FramesEnds(ps);
    var i :| EmptyAt(s.q.content, i);
    hide Frames, Ends;
    EndsAround(s.q.content, i);
  }

  lemma TrackedIsWrong(ps: seq<seq<Byte>>, r: nat, part: seq<Byte>, s: Session)
    requires NonEmpty(ps) && Sane(s.q) && Tracked(ps, r, part, s) && s.sent == Frames(ps) && s.q.end == 0
    ensures s.got != ps
  {
    hide Frames, Encode, Hope, Spoilt, Head, Behind;
    if Lost(ps, s) {
      LostIsWrong(ps, s);
    } else if Spoilt(s.q) {
      SpoiltIsWrong(ps, s);
    } else if !Broken(ps, r, s) {
      if k: nat, w :| Queued(ps, r, part, k, w, s) {
        HeadIs(ps, r, part, k);
      } else {
        var k: nat, v :| GivenUp(ps, r, part, k, v, s);
        HeadIs(ps, r, part, k);
      }
    }
  }

  /** The first refused byte, when it is not the last byte of the stream, or no packet waits, or none
      has been returned: something goes wrong from there on. */
  lemma FirstHurts(ps: seq<seq<Byte>>, s: Session, c: Byte) returns (r: nat, part: seq<Byte>)
    requires NonEmpty(ps) && Sane(s.q) && Regular(ps, s) && Refused(s.q, c) && s.sent + [c] <= Frames(ps)
    requires s.sent + [c] != Frames(ps) || s.q.end == 0 || s.got == []
    ensures r < |ps| && part != Encode(ps[r])
    ensures Sane(React(s, Receive(c)).q) && Tracked(ps, r, part, React(s, Receive(c)))
  {
    hide Frames, Encode, Hope, EscOk, InStep, FirstEnd, Behind, Head, Spoilt;
    RefusedHope(ps, s, c);
    assert ps != [] by {
      NoFrames(ps);
    }
    PacketEncoded(ps, 0);
    r, part := 0, [];
    if 0 < s.q.end && s.got != [] {
      r, part := WhatIsThere(ps, s, c);
      FilledParts(ps, |s.got|, r, part, s);
      if c == END {
        r, part := 0, [];
      } else {
        assert part != Encode(ps[r]);
        if s.q.stale == [END] {
          FilledRefused(ps, r, part, s, React(s, Receive(c)));
        }
      }
    }
  }

  lemma NoFrames(ps: seq<seq<Byte>>)
    ensures ps == [] ==> Frames(ps) == []
  {
  }

  /** With a terminator in the stale byte before the ring, the first refused byte leaves the packets in
      memory to come back. */
  lemma FilledRefused(ps: seq<seq<Byte>>, r: nat, part: seq<Byte>, s: Session, s': Session)
    requires NonEmpty(ps) && Sane(s.q) && Filled(ps, |s.got|, r, part, s) && s.q.stale == [END]
    requires s'.q == GiveUp(s.q) && s'.got == s.got
    ensures GivenUp(ps, r, part, |s.got|, [], s')
  {
    hide Frames, Encode;
    var d := |s.got|;
    var e, f := Encode(ps[d]), Frames(ps[d + 1..r]) + part;
    assert s.q.content[..|e|] == e && s.q.content[|e|..] == [END] + f;
    assert [END] + f + [END] == [END] + (f + [END] + []);
    assert s'.q.stale == [END] + (Behind(ps, r, part, d) + []);
  }

  // ---------------------------------------------------------------------------
  // The last byte

  /** With only the last byte refused, every packet comes back out of stale memory. */
  ghost predicate ComingBack(ps: seq<seq<Byte>>, d: nat, s: Session) {
    && d < |ps|
    && var r := |ps| - 1; var e := Encode(ps[r]);
       (s.got == ps && s.q.end == 0) || GivenUp(ps, r, e, d, [], s) || exists k: nat :: Queued(ps, r, e, k, Head(ps, r, e, d), s)
  }

  lemma AllBack(ps: seq<seq<Byte>>, d: nat, s: Session)
    requires NonEmpty(ps) && Sane(s.q) && d < |ps| && UpTo(ps, |ps| - 1, Encode(ps[|ps| - 1]), |ps| - 1, s)
    requires 0 < s.q.end && s.q.content[..s.q.end] == Encode(ps[|ps| - 1]) && NoEnd(Rest(s.q))
    ensures Sane(React(s, PollNow).q) && React(s, PollNow).got == ps && React(s, PollNow).q.end == 0
  {
    hide Frames, Encode, Decode, FirstEnd, Rest, Poll;
    PollIsSane(s.q);
    var r := |ps| - 1;
    PacketEncoded(ps, r);
    PollFields(s, ps[r], Rest(s.q));
    TakeNext(ps, r);
    assert ps[..r + 1] == ps;
    FirstEndNone(Rest(s.q));
  }

  lemma BackAgain(ps: seq<seq<Byte>>, d: nat, s: Session)
    requires NonEmpty(ps) && Sane(s.q) && ComingBack(ps, d, s) && d < |ps| - 1
    ensures Sane(React(s, PollNow).q) && ComingBack(ps, d, React(s, PollNow))
  {
    hide Frames, Decode, Encode, Rest, FirstEnd, Poll, Behind, Head;
    PollIsSane(s.q);
    var r := |ps| - 1;
    var e := Encode(ps[r]);
    PacketEncoded(ps, r);
    HeadIs(ps, r, e, d);
    if !(s.got == ps && s.q.end == 0) {
      hide React;
      if GivenUp(ps, r, e, d, [], s) {
        GivenUpRest(ps, r, e, d, [], s);
        assert [] + Head(ps, r, e, d) == Head(ps, r, e, d);
        HeadBefore(ps, r, e, d);
        NextHeads(ps, r, e, d, Head(ps, r, e, d), s);
      } else {
        var k: nat :| Queued(ps, r, e, k, Head(ps, r, e, d), s);
        QueuedBack(ps, d, k, s);
      }
    }
  }

  lemma HeadBefore(ps: seq<seq<Byte>>, r: nat, part: seq<Byte>, k: nat)
    requires k < r < |ps|
    ensures Head(ps, r, part, k) == Encode(ps[k])
  {
  }

  lemma HeadLast(ps: seq<seq<Byte>>, r: nat, part: seq<Byte>)
    requires r < |ps|
    ensures Head(ps, r, part, r) == part && Behind(ps, r, part, r) == []
  {
  }

  lemma QueuedBack(ps: seq<seq<Byte>>, d: nat, k: nat, s: Session)
    requires NonEmpty(ps) && Sane(s.q) && d < |ps| - 1
    requires var r := |ps| - 1; Queued(ps, r, Encode(ps[r]), k, Head(ps, r, Encode(ps[r]), d), s)
    ensures Sane(React(s, PollNow).q) && ComingBack(ps, d, React(s, PollNow))
  {
    hide Frames, Decode, Encode, Rest, FirstEnd, Poll, Behind, Head, React;
    PollIsSane(s.q);
    var r := |ps| - 1;
    var e := Encode(ps[r]);
    var w := Head(ps, r, e, d);
    HeadIs(ps, r, e, d);
    QueuedRest(ps, r, e, k, w, s);
    if k < r {
      PacketEncoded(ps, r);
      HeadBefore(ps, r, e, k);
      NextHeads(ps, r, e, k, w, s);
    } else {
      HeadLast(ps, r, e);
      assert [] + w == w;
      AllBack(ps, d, s);
    }
  }

  lemma {:induction false} AllComeBack(ps: seq<seq<Byte>>, size: nat, events: seq<Event>, k: nat, d: nat, i: nat)
    requires 0 < size && NonEmpty(ps) && k <= i <= |events| && d < |ps| - 1
    requires Play(size, events).sent == Frames(ps) == Play(size, events[..k]).sent
    requires ComingBack(ps, d, Play(size, events[..k]))
    ensures ComingBack(ps, d, Play(size, events[..i])) && Play(size, events[..i]).sent == Frames(ps)
    ensures forall j :: k <= j < i ==> !events[j].Receive?
    decreases i
  {
    hide ComingBack, Frames, React;
    if i > k {
      AllComeBack(ps, size, events, k, d, i - 1);
      PlayNext(size, events, i - 1);
      PrefixRuns(size, events, i);
      hide Play;
      BackStep(ps, d, Play(size, events[..i - 1]), events[i - 1]);
    }
  }

  lemma BackStep(ps: seq<seq<Byte>>, d: nat, s: Session, e: Event)
    requires NonEmpty(ps) && Sane(s.q) && ComingBack(ps, d, s) && d < |ps| - 1
    requires s.sent == Frames(ps) && React(s, e).sent <= Frames(ps)
    ensures !e.Receive? && ComingBack(ps, d, React(s, e)) && React(s, e).sent == Frames(ps)
  {
    hide ComingBack, Frames, Input, Poll;
    BackAgain(ps, d, s);
  }

  lemma BackIsAll(ps: seq<seq<Byte>>, d: nat, s: Session)
    requires NonEmpty(ps) && ComingBack(ps, d, s) && s.q.end == 0
    ensures s.got == ps
  {
    hide Frames, Encode, Behind, Head;
    var r := |ps| - 1;
    var e := Encode(ps[r]);
    PacketEncoded(ps, r);
    if s.got != ps {
      if GivenUp(ps, r, e, d, [], s) {
        HeadIs(ps, r, e, d);
      } else {
        var k: nat :| Queued(ps, r, e, k, Head(ps, r, e, d), s);
        HeadIs(ps, r, e, k);
      }
    }
  }

  lemma WholeStream(ps: seq<seq<Byte>>, r: nat, part: seq<Byte>)
    requires r < |ps| && part == Encode(ps[r]) && Frames(ps[..r]) + part + [END] == Frames(ps)
    ensures r == |ps| - 1
  {
    hide Frames, Encode;
    TakeNext(ps, r);
    FramesSnoc(ps[..r], ps[r]);
    Regroup(Frames(ps[..r]), part, [END]);
    assert ps[..|ps|] == ps;
    if r < |ps| - 1 {
      FramesBetween(ps, r + 1, |ps|);
      FramesFirst(ps, r + 1, |ps|);
    }
  }

  lemma RefusedLast(ps: seq<seq<Byte>>, s: Session, c: Byte, r: nat, part: seq<Byte>)
    requires NonEmpty(ps) && r < |ps| && part <= Encode(ps[r]) && (|part| < |Encode(ps[r])| ==> c == Encode(ps[r])[|part|])
    requires s.sent == Frames(ps[..r]) + part && s.sent + [c] == Frames(ps)
    ensures part == Encode(ps[r]) && r == |ps| - 1 && c == END
  {
    PacketEncoded(ps, r);
    FramesLast(ps);
    hide Frames, Encode, Decode;
    assert c == (s.sent + [c])[|s.sent|];
    WholeStream(ps, r, part);
  }

  lemma LastRefused(ps: seq<seq<Byte>>, s: Session, c: Byte)
    requires NonEmpty(ps) && Sane(s.q) && Regular(ps, s) && Refused(s.q, c) && s.sent + [c] == Frames(ps)
    requires 0 < s.q.end && s.got != []
    ensures |s.got| < |ps| - 1 && ComingBack(ps, |s.got|, React(s, Receive(c)))
  {
    hide Frames, Encode, Hope, EscOk, InStep, FirstEnd, Behind, Head, Filled, GivenUp, Input, GiveUp;
    RefusedHope(ps, s, c);
    var r, part := WhatIsThere(ps, s, c);
    FilledParts(ps, |s.got|, r, part, s);
    RefusedLast(ps, s, c, r, part);
    assert s.q.stale == [END];
    FilledRefused(ps, r, part, s, React(s, Receive(c)));
  }

  lemma FilledParts(ps: seq<seq<Byte>>, d: nat, r: nat, part: seq<Byte>, s: Session)
    requires Filled(ps, d, r, part, s)
    ensures d < r < |ps| && part <= Encode(ps[r])
  {
  }

  // ---------------------------------------------------------------------------
  // All runs

  /** Event `k` is the last byte of the stream, a packet waits, and one has been returned. */
  ghost predicate Harmless(ps: seq<seq<Byte>>, size: nat, events: seq<Event>, k: nat)
    requires 0 < size && k < |events| && events[k].Receive?
  {
    var s := Play(size, events[..k]);
    s.sent + [events[k].c] == Frames(ps) && 0 < s.q.end && s.got != []
  }

  lemma {:induction false} FirstRefusal(size: nat, events: seq<Event>, n: nat) returns (k: nat)
    requires 0 < size && n <= |events| && exists i :: 0 <= i < n && IsRefused(size, events, i)
    ensures k < n && IsRefused(size, events, k) && forall i :: 0 <= i < k ==> !IsRefused(size, events, i)
  {
    hide IsRefused;
    if i :| 0 <= i < n - 1 && IsRefused(size, events, i) {
      k := FirstRefusal(size, events, n - 1);
    } else {
      k := n - 1;
    }
  }

  lemma NoRefusal(ps: seq<seq<Byte>>, size: nat, events: seq<Event>)
    requires 0 < size && NonEmpty(ps) && Play(size, events).sent == Frames(ps) && Play(size, events).q.end == 0
    requires forall i :: 0 <= i < |events| ==> !IsRefused(size, events, i)
    ensures Play(size, events).got == ps
  {
    hide Frames, IsRefused, Regular;
    assert events[..|events|] == events;
    RegularUpTo(ps, size, events, |events|);
    var s := Play(size, events);
    hide Play;
    RegularInStep(ps, s);
    SentAll(ps, s);
    hide FirstEnd;
    assert ps[..|ps|] == ps;
  }

  lemma RegularInStep(ps: seq<seq<Byte>>, s: Session)
    requires Sane(s.q) && Regular(ps, s)
    ensures InStep(ps, s)
  {
  }

  lemma FirstDecides(ps: seq<seq<Byte>>, size: nat, events: seq<Event>, k: nat)
    requires 0 < size && NonEmpty(ps) && Play(size, events).sent == Frames(ps) && Play(size, events).q.end == 0
    requires k < |events| && IsRefused(size, events, k) && forall i :: 0 <= i < k ==> !IsRefused(size, events, i)
    ensures Play(size, events).got == ps <==> Harmless(ps, size, events, k)
    ensures Harmless(ps, size, events, k) ==> forall i :: k < i < |events| ==> !events[i].Receive?
  {
    hide Regular, Frames, Refused, Input, Poll, Encode, EscOk, ComingBack, Tracked;
    var s, c, n := Play(size, events[..k]), events[k].c, |events|;
    assert events[..n] == events;
    RegularUpTo(ps, size, events, k);
    PlayNext(size, events, k);
    PrefixRuns(size, events, k + 1);
    hide Play;
    assert Play(size, events[..k + 1]).sent == s.sent + [c];
    if Harmless(ps, size, events, k) {
      LastRefused(ps, s, c);
      AllComeBack(ps, size, events, k + 1, |s.got|, n);
      BackIsAll(ps, |s.got|, Play(size, events));
    } else {
      var r, part := FirstHurts(ps, s, c);
      StaysTracked(ps, size, events, k + 1, r, part, n);
      TrackedIsWrong(ps, r, part, Play(size, events));
    }
  }

  /** Once all has been sent and no packet is buffered, every packet was returned, in order, if and
      only if no byte was refused but possibly the very last one of the stream, with a packet waiting
      in the ring and one returned before. */
  lemma DeliveredIff(ps: seq<seq<Byte>>, size: nat, events: seq<Event>)
    requires 0 < size && NonEmpty(ps) && Play(size, events).sent == Frames(ps) && Play(size, events).q.end == 0
    ensures Play(size, events).got == ps <==>
      forall i :: 0 <= i < |events| && IsRefused(size, events, i) ==> Harmless(ps, size, events, i)
  {
    hide Play, Frames, Refused;
    if forall i :: 0 <= i < |events| ==> !IsRefused(size, events, i) {
      NoRefusal(ps, size, events);
    } else {
      var k := FirstRefusal(size, events, |events|);
      hide Play, Frames, Harmless, IsRefused;
      FirstDecides(ps, size, events, k);
      if Harmless(ps, size, events, k) {
        forall i | 0 <= i < |events| && IsRefused(size, events, i) ensures Harmless(ps, size, events, i) {
          RefusedIsByte(size, events, i);
          assert i == k;
        }
      }
    }
  }

  lemma RefusedIsByte(size: nat, events: seq<Event>, i: nat)
    requires 0 < size && i < |events| && IsRefused(size, events, i)
    ensures events[i].Receive?
  {
  }
}
