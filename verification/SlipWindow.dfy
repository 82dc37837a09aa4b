/** Polls of os/dev/slip.c that the interrupt cuts into. slip_poll_handler first copies the packet
    out and steps over its terminator, then notes how far the buffer is filled, and searches that
    far for the next terminator before it releases the packet's memory. Bytes arrive in between. */
module SlipWindow {
  import opened Bytes
  import opened Slip

  /** How far a poll has got: not begun, the packet copied, or the end of the search noted too. */
  datatype Stage = Waiting | Taken(p: seq<Byte>) | Looked(p: seq<Byte>, limit: nat)

  datatype Step = Arrive(c: Byte) | Take | Look | Commit

  datatype Staged = Staged(q: Queue, sent: seq<Byte>, got: seq<seq<Byte>>, stage: Stage)

  /** Releasing the memory up to `pkt_end` and searching for the next terminator up to `limit`. */
  function Release(q: Queue, limit: nat): Queue
    requires q.end <= limit <= |q.content|
  {
    Queue(q.content[q.end..], FirstEnd(q.content[q.end..limit]), q.phase, q.stale + q.content[..q.end])
  }

  ghost function HandOn(got: seq<seq<Byte>>, p: seq<Byte>): seq<seq<Byte>> {
    if p == [] then got else got + [p]
  }

  /** One step. A poll whose terminator has been given up is taken to be undivided. A release up to
      a limit that has been given up is not part of this model. */
  ghost function Act(s: Staged, e: Step): Staged
    requires Sane(s.q)
  {
    match e
    case Arrive(c) => s.(q := Input(s.q, c), sent := s.sent + [c])
    case Take =>
      if s.stage != Waiting || s.q.end == 0 then s
      else
        var p := Decode(s.q.content[..s.q.end]).out;
        if s.q.end < |s.q.content| then s.(q := s.q.(end := s.q.end + 1), stage := Taken(p))
        else s.(q := Poll(s.q), got := HandOn(s.got, p))
    case Look => if s.stage.Taken? then s.(stage := Looked(s.stage.p, |s.q.content|)) else s
    case Commit =>
      if s.stage.Looked? && s.q.end <= s.stage.limit <= |s.q.content|
      then Staged(Release(s.q, s.stage.limit), s.sent, HandOn(s.got, s.stage.p), Waiting)
      else s
  }

  lemma ActIsSane(s: Staged, e: Step)
    requires Sane(s.q)
    ensures var q := Act(s, e).q; Sane(q) && |q.content| + |q.stale| == |s.q.content| + |s.q.stale|
    ensures (s.stage != Waiting ==> 0 < s.q.end) ==> Act(s, e).stage != Waiting ==> 0 < Act(s, e).q.end
  {
    hide Poll, FirstEnd, Decode;
    match e
    case Arrive(c) => InputIsSane(s.q, c);
    case Take => PollIsSane(s.q);
    case Look =>
    case Commit =>
      if s.stage.Looked? && s.q.end <= s.stage.limit <= |s.q.content| {
        FirstEndBound(s.q.content[s.q.end..s.stage.limit]);
      }
  }

  ghost function Perform(size: nat, steps: seq<Step>): (s: Staged)
    requires 0 < size
    ensures Sane(s.q) && |s.q.content| + |s.q.stale| == size && (s.stage != Waiting ==> 0 < s.q.end)
    decreases |steps|
  {
    if steps == [] then Staged(Fresh(size), [], [], Waiting)
    else
      var n := |steps| - 1;
      var s := Perform(size, steps[..n]);
      ActIsSane(s, steps[n]);
      Act(s, steps[n])
  }

  /** The ring has room whenever a byte arrives, with the packet being polled still in it. */
  ghost predicate HasRoom(size: nat, steps: seq<Step>)
    requires 0 < size
    decreases |steps|
  {
    steps == [] ||
    var n := |steps| - 1;
    HasRoom(size, steps[..n]) && (steps[n].Arrive? ==> |Perform(size, steps[..n]).q.content| + 1 < size)
  }

  /** The search ends before a terminator that has arrived since its limit was noted. */
  ghost predicate Misses(s: Staged) {
    && s.stage.Looked? && s.q.end <= s.stage.limit <= |s.q.content|
    && END !in s.q.content[s.q.end..s.stage.limit] && END in s.q.content[s.stage.limit..]
  }

  /** No poll misses a terminator. */
  ghost predicate SeesAll(size: nat, steps: seq<Step>)
    requires 0 < size
    decreases |steps|
  {
    steps == [] ||
    var n := |steps| - 1;
    SeesAll(size, steps[..n]) && (steps[n] == Commit ==> !Misses(Perform(size, steps[..n])))
  }

  /** Undivided, the three steps are the poll. */
  lemma TakeLookCommit(s: Staged)
    requires Sane(s.q) && s.stage == Waiting && s.q.end < |s.q.content|
    ensures var s1 := Act(s, Take); var s2 := Act(s1, Look); var s3 := Act(s2, Commit);
      Session(s3.q, s3.sent, s3.got) == React(Session(s.q, s.sent, s.got), PollNow) && s3.stage == Waiting
  {
    hide FirstEnd, Decode, Input;
    if 0 < s.q.end {
      assert s.q.content[s.q.end + 1..|s.q.content|] == s.q.content[s.q.end + 1..];
    }
  }

  // ---------------------------------------------------------------------------
  // While nothing is missed

  /** The session, with a poll that has begun run to its end at once. */
  ghost function Settled(s: Staged): Session
    requires s.q.end <= |s.q.content|
  {
    if s.stage == Waiting then Session(s.q, s.sent, s.got)
    else
      var rest := s.q.content[s.q.end..];
      Session(Queue(rest, FirstEnd(rest), s.q.phase, s.q.stale + s.q.content[..s.q.end]), s.sent, s.got + [s.stage.p])
  }

  ghost predicate OnTrack(ps: seq<seq<Byte>>, s: Staged) {
    && Sane(s.q) && InStep(ps, Settled(s))
    && (s.stage != Waiting ==> 0 < s.q.end && s.stage.p != [])
    && (s.stage.Looked? ==> s.q.end <= s.stage.limit <= |s.q.content|)
  }

  lemma SettledIsSane(s: Staged)
    requires Sane(s.q)
    ensures Sane(Settled(s).q) && |Settled(s).q.stale| >= |s.q.stale|
  {
    FirstEndBound(s.q.content[s.q.end..]);
  }

  lemma DropAppend(a: seq<Byte>, c: Byte, k: nat)
    requires k <= |a|
    ensures (a + [c])[k..] == a[k..] + [c] && (a + [c])[..k] == a[..k]
  {
  }

  lemma ByteOnTrack(ps: seq<seq<Byte>>, s: Staged, c: Byte)
    requires NonEmpty(ps) && OnTrack(ps, s) && 1 < |s.q.stale| && s.sent + [c] <= Frames(ps)
    ensures OnTrack(ps, Act(s, Arrive(c)))
  {
    hide Input, FirstEnd, InStep, Frames;
    SettledIsSane(s);
    InputInStep(ps, Settled(s), c);
    InputIsSane(s.q, c);
    if s.stage != Waiting {
      WindowByte(ps, s, c);
    }
  }

  /** Within a poll, a byte is appended as it would be after it. */
  lemma WindowByte(ps: seq<seq<Byte>>, s: Staged, c: Byte)
    requires NonEmpty(ps) && OnTrack(ps, s) && s.stage != Waiting && 1 < |s.q.stale| && s.sent + [c] <= Frames(ps)
    requires Sane(Settled(s).q)
    ensures Settled(Act(s, Arrive(c))) == React(Settled(s), Receive(c))
    ensures var q := Act(s, Arrive(c)).q; q.end == s.q.end && |q.content| == |s.q.content| + 1
  {
    hide FirstEnd, Frames;
    SettledIsSane(s);
    var v := Settled(s);
    NextByte(ps, v, c);
    assert v.q.phase == s.q.phase != Rubbish;
    hide InStep;
    Accepts(v.q, c);
    WindowAppends(s.q, c);
    DropAppend(s.q.content, c, s.q.end);
    hide Input;
    assert s.q.stale + s.q.content[..s.q.end] == [s.q.stale[0]] + s.q.stale[1..] + s.q.content[..s.q.end];
    assert (s.q.stale + s.q.content[..s.q.end])[1..] == s.q.stale[1..] + s.q.content[..s.q.end];
  }

  lemma WindowAppends(q: Queue, c: Byte)
    requires Sane(q) && 1 < |q.stale| && q.phase != Rubbish && 0 < q.end
    requires (q.phase == Esc ==> c == ESC_END || c == ESC_ESC) && (q.end == |q.content| ==> c != END)
    ensures Input(q, c) == q.(content := q.content + [c], stale := q.stale[1..], phase := if c == ESC then Esc else Ok)
  {
  }

  lemma TakeOnTrack(ps: seq<seq<Byte>>, s: Staged)
    requires NonEmpty(ps) && OnTrack(ps, s)
    ensures OnTrack(ps, Act(s, Take))
  {
    if s.stage == Waiting && 0 < s.q.end {
      var v := Session(s.q, s.sent, s.got);
      FirstFrame(ps, v);
      RoundTrip(ps[|s.got|]);
      PollInStep(ps, v);
      assert ps[|s.got|] != [];
      hide InStep, FirstEnd, Decode, Encode, Frames, Act, Settled, React;
      TakeSettles(s);
    }
  }

  /** A poll that has begun will end as an undivided one, if nothing arrives. */
  lemma TakeSettles(s: Staged)
    requires Sane(s.q) && s.stage == Waiting && 0 < s.q.end < |s.q.content| && Decode(s.q.content[..s.q.end]).out != []
    ensures var s' := Act(s, Take);
      && Sane(s'.q) && Settled(s') == React(Session(s.q, s.sent, s.got), PollNow)
      && 0 < s'.q.end && s'.stage == Taken(Decode(s.q.content[..s.q.end]).out)
  {
    hide FirstEnd, Decode;
  }

  /** In step, the ring does not begin with an END. */
  lemma NoEndFirst(ps: seq<seq<Byte>>, s: Session)
    requires NonEmpty(ps) && InStep(ps, s)
    ensures s.q.content == [] || s.q.content[0] != END
  {
    hide Frames, Encode, FirstEnd;
    if |s.got| == |ps| {
      NothingLeft(ps, s);
    } else {
      HoldsNext(ps, s);
    }
  }

  /** The search finds the first terminator in the ring, unless it misses one. */
  lemma SearchFinds(a: seq<Byte>, k: nat)
    requires k <= |a| && (a == [] || a[0] != END)
    ensures FirstEnd(a[..k]) == FirstEnd(a) <==> !(END !in a[..k] && END in a[k..])
    ensures END !in a[..k] && END in a[k..] ==> FirstEnd(a[..k]) == 0 < FirstEnd(a) < |a|
  {
    hide FirstEnd;
    assert a == a[..k] + a[k..];
    if END in a[..k] {
      FoundBefore(a, k);
    } else {
      FirstEndNone(a[..k]);
      if END in a[k..] {
        FirstPositive(a);
      } else {
        NowhereIn(a, k);
      }
    }
  }

  lemma FoundBefore(a: seq<Byte>, k: nat)
    requires k <= |a| && a != [] && a[0] != END && END in a[..k]
    ensures FirstEnd(a[..k]) == FirstEnd(a)
  {
    FirstEndBound(a[..k]);
    FirstPositive(a[..k]);
    hide FirstEnd;
    var m := FirstEnd(a[..k]);
    assert a[m] == END && forall i :: 0 <= i < m ==> a[i] == a[..k][i];
    FirstEndIs(a, m);
  }

  lemma NowhereIn(a: seq<Byte>, k: nat)
    requires k <= |a| && END !in a[..k] && END !in a[k..]
    ensures FirstEnd(a) == 0
  {
    forall i | 0 <= i < |a| ensures a[i] != END {
      assert a[i] == if i < k then a[..k][i] else a[k..][i - k];
    }
    FirstEndNone(a);
  }

  lemma FirstPositive(a: seq<Byte>)
    requires END in a && a[0] != END
    ensures 0 < FirstEnd(a) < |a|
  {
    FirstEndBound(a);
    var i :| 0 <= i < |a| && a[i] == END;
    hide FirstEnd;
  }

  lemma CommitParts(q: Queue, limit: nat)
    requires q.end <= limit <= |q.content|
    ensures var rest, k := q.content[q.end..], limit - q.end;
      rest[..k] == q.content[q.end..limit] && rest[k..] == q.content[limit..]
  {
  }

  lemma CommitOnTrack(ps: seq<seq<Byte>>, s: Staged)
    requires NonEmpty(ps) && OnTrack(ps, s) && s.stage.Looked?
    ensures var s' := Act(s, Commit);
      && s'.stage == Waiting && s'.got == Settled(s).got && s'.q.content == Settled(s).q.content && s'.sent == s.sent
      && s'.q.phase == Settled(s).q.phase && Sane(s'.q)
      && (!Misses(s) ==> OnTrack(ps, s')) && (Misses(s) ==> s'.q.end == 0 < FirstEnd(s'.q.content) < |s'.q.content|)
  {
    hide FirstEnd, Frames;
    ActIsSane(s, Commit);
    NoEndFirst(ps, Settled(s));
    hide InStep;
    CommitParts(s.q, s.stage.limit);
    SearchFinds(s.q.content[s.q.end..], s.stage.limit - s.q.end);
    if !Misses(s) {
      assert Settled(Act(s, Commit)) == Settled(s);
    }
  }

  lemma StepOnTrack(ps: seq<seq<Byte>>, s: Staged, e: Step)
    requires NonEmpty(ps) && OnTrack(ps, s) && Act(s, e).sent <= Frames(ps)
    requires (e.Arrive? ==> 1 < |s.q.stale|) && (e == Commit ==> !Misses(s))
    ensures OnTrack(ps, Act(s, e))
  {
    hide Input, Frames, FirstEnd, InStep;
    match e
    case Arrive(c) => ByteOnTrack(ps, s, c);
    case Take => TakeOnTrack(ps, s);
    case Look =>
    case Commit =>
      if s.stage.Looked? {
        CommitOnTrack(ps, s);
      }
  }

  /** While no poll misses a terminator, the packets come out in order. */
  lemma {:induction false} StaysOnTrack(ps: seq<seq<Byte>>, size: nat, steps: seq<Step>)
    requires 0 < size && NonEmpty(ps) && HasRoom(size, steps) && Perform(size, steps).sent <= Frames(ps)
    requires SeesAll(size, steps)
    ensures OnTrack(ps, Perform(size, steps))
    decreases |steps|
  {
    if steps == [] {
      assert ps[..0] == [];
    } else {
      hide OnTrack, Input, Poll, Frames, Misses;
      var n := |steps| - 1;
      var s := Perform(size, steps[..n]);
      assert s.sent <= Perform(size, steps).sent;
      StaysOnTrack(ps, size, steps[..n]);
      StepOnTrack(ps, s, steps[n]);
    }
  }

  // ---------------------------------------------------------------------------
  // Once one is

  /** Packet `j` has come out too long, or is about to. */
  ghost predicate Stray(ps: seq<seq<Byte>>, j: nat, s: Staged)
    requires j < |ps|
  {
    || (j < |s.got| && |s.got[j]| > |ps[j]|)
    || (s.stage != Waiting && |s.got| == j && |s.stage.p| > |ps[j]|)
  }

  /** The ring begins with packet `j` and its terminator, which counts for a byte of the packet. */
  ghost predicate Merged(ps: seq<seq<Byte>>, j: nat, s: Staged)
    requires j < |ps|
  {
    && s.stage == Waiting && |s.got| == j && s.q.phase == (if s.sent != [] && s.sent[|s.sent| - 1] == ESC then Esc else Ok)
    && Encode(ps[j]) + [END] <= s.q.content
    && (s.q.end == 0 || |Encode(ps[j])| < s.q.end < |s.q.content|)
  }

  ghost predicate Spoilt(ps: seq<seq<Byte>>, j: nat, s: Staged) {
    j < |ps| && Sane(s.q) && (Stray(ps, j, s) || Merged(ps, j, s))
  }

  lemma MissSpoils(ps: seq<seq<Byte>>, s: Staged)
    requires NonEmpty(ps) && OnTrack(ps, s) && Misses(s)
    ensures Spoilt(ps, |s.got| + 1, Act(s, Commit))
  {
    hide FirstEnd, Frames, Encode;
    CommitOnTrack(ps, s);
    var v, s' := Settled(s), Act(s, Commit);
    hide Misses, Act;
    assert v.q.end == FirstEnd(v.q.content);
    SettledIsSane(s);
    FirstFrame(ps, v);
    FirstEndBound(v.q.content);
    var e := Encode(ps[|v.got|]);
    assert v.q.content[..|e| + 1] == e + [END];
  }

  lemma MergedByte(ps: seq<seq<Byte>>, j: nat, s: Staged, c: Byte)
    requires j < |ps| && Merged(ps, j, s) && Sane(s.q) && 1 < |s.q.stale| && s.sent + [c] <= Frames(ps)
    ensures Merged(ps, j, Act(s, Arrive(c)))
  {
    hide Frames, Encode;
    if s.q.phase == Esc {
      EscapeCode(ps, s.sent, c);
    }
    Appends(s.q, c);
    hide Input;
  }

  lemma MergedTake(ps: seq<seq<Byte>>, j: nat, s: Staged)
    requires j < |ps| && Merged(ps, j, s) && Sane(s.q)
    ensures Spoilt(ps, j, Act(s, Take))
  {
    hide Encode, Decode, Poll;
    if 0 < s.q.end {
      var e, c := Encode(ps[j]), s.q.content[..s.q.end];
      assert c == e + [END] + c[|e| + 1..];
      RoundTrip(ps[j]);
      DecodeSnoc(e, END);
      DecodeGrows(e + [END], c[|e| + 1..]);
      assert |Decode(c).out| > |ps[j]| by {
        assert DecodeByte(Decoded(ps[j], false), END).out == ps[j] + [END];
      }
    }
  }

  lemma StrayStep(ps: seq<seq<Byte>>, j: nat, s: Staged, e: Step)
    requires j < |ps| && Sane(s.q) && Stray(ps, j, s)
    ensures Stray(ps, j, Act(s, e))
  {
    hide Input, Decode, Poll, Release;
    if j < |s.got| {
      assert s.got <= Act(s, e).got;
    }
  }

  lemma SpoiltStep(ps: seq<seq<Byte>>, j: nat, s: Staged, e: Step)
    requires Spoilt(ps, j, s) && Act(s, e).sent <= Frames(ps) && (e.Arrive? ==> 1 < |s.q.stale|)
    ensures Spoilt(ps, j, Act(s, e))
  {
    hide Frames, Merged, Stray, Input, Poll, Decode, Release;
    ActIsSane(s, e);
    if Stray(ps, j, s) {
      StrayStep(ps, j, s, e);
    } else {
      match e
      case Arrive(c) => MergedByte(ps, j, s, c);
      case Take => MergedTake(ps, j, s);
      case Look => MergedWaits(ps, j, s);
      case Commit => MergedWaits(ps, j, s);
    }
  }

  lemma MergedWaits(ps: seq<seq<Byte>>, j: nat, s: Staged)
    requires j < |ps| && Merged(ps, j, s)
    ensures s.stage == Waiting
  {
  }

  lemma {:induction false} MissIsForEver(ps: seq<seq<Byte>>, size: nat, steps: seq<Step>)
    requires 0 < size && NonEmpty(ps) && HasRoom(size, steps) && Perform(size, steps).sent <= Frames(ps)
    requires !SeesAll(size, steps)
    ensures exists j :: Spoilt(ps, j, Perform(size, steps))
    decreases |steps|
  {
    hide OnTrack, Spoilt, Input, Poll, Frames, Misses;
    var n := |steps| - 1;
    var s := Perform(size, steps[..n]);
    assert s.sent <= Perform(size, steps).sent;
    if SeesAll(size, steps[..n]) {
      StaysOnTrack(ps, size, steps[..n]);
      MissSpoils(ps, s);
    } else {
      MissIsForEver(ps, size, steps[..n]);
      var j :| Spoilt(ps, j, s);
      SpoiltStep(ps, j, s, steps[n]);
    }
  }

  /** When all has been sent, no poll is under way and no packet is found in a ring that always had
      room: every packet was returned, in order, if and only if no poll missed a terminator. */
  lemma WindowsIff(ps: seq<seq<Byte>>, size: nat, steps: seq<Step>)
    requires 0 < size && NonEmpty(ps) && HasRoom(size, steps) && Perform(size, steps).sent == Frames(ps)
    requires Perform(size, steps).stage == Waiting && Perform(size, steps).q.end == 0
    ensures Perform(size, steps).got == ps <==> SeesAll(size, steps)
  {
    var s := Perform(size, steps);
    hide Perform, HasRoom, SeesAll, Frames;
    if SeesAll(size, steps) {
      StaysOnTrack(ps, size, steps);
      SentAll(ps, Settled(s));
      assert ps[..|ps|] == ps;
    } else {
      MissIsForEver(ps, size, steps);
      var j :| Spoilt(ps, j, s);
    }
  }

  // ---------------------------------------------------------------------------
  // A run

  const THREE: seq<seq<Byte>> := [[1], [2], [3]]

  /** The terminator of the second packet arrives after the first poll has noted its limit. */
  const MISSED: seq<Step> := [Arrive(1), Arrive(END), Take, Look, Arrive(2), Arrive(END), Commit, Arrive(3), Arrive(END), Take, Look, Commit]

  ghost predicate At(i: nat, content: seq<Byte>, end: nat, sent: seq<Byte>, got: seq<seq<Byte>>, stage: Stage) {
    && i <= |MISSED|
    && var s := Perform(8, MISSED[..i]);
    && s.q.content == content && s.q.end == end && s.q.phase == Ok && s.sent == sent && s.got == got && s.stage == stage
    && HasRoom(8, MISSED[..i])
  }

  lemma AtNext(i: nat)
    requires i < |MISSED| && HasRoom(8, MISSED[..i])
    requires MISSED[i].Arrive? ==> |Perform(8, MISSED[..i]).q.content| + 1 < 8
    ensures Perform(8, MISSED[..i + 1]) == Act(Perform(8, MISSED[..i]), MISSED[i]) && HasRoom(8, MISSED[..i + 1])
  {
    hide Input, Poll, Release, Decode;
    assert MISSED[..i + 1][..i] == MISSED[..i];
  }

  lemma AtByte(i: nat, content: seq<Byte>, end: nat, sent: seq<Byte>, got: seq<seq<Byte>>, stage: Stage,
               content': seq<Byte>, sent': seq<Byte>)
    requires At(i, content, end, sent, got, stage) && |content| < 7 && i < |MISSED| && MISSED[i].Arrive?
    requires MISSED[i].c != ESC && (end != |content| || MISSED[i].c != END)
    requires content' == content + [MISSED[i].c] && sent' == sent + [MISSED[i].c]
    ensures At(i + 1, content', if MISSED[i].c == END && end == 0 then |content| else end, sent', got, stage)
  {
    AtNext(i);
    hide Perform, HasRoom;
  }

  lemma AtTake(i: nat, content: seq<Byte>, end: nat, sent: seq<Byte>, got: seq<seq<Byte>>, p: seq<Byte>)
    requires At(i, content, end, sent, got, Waiting) && 0 < end < |content| && i < |MISSED| && MISSED[i] == Take
    requires Decode(content[..end]).out == p
    ensures At(i + 1, content, end + 1, sent, got, Taken(p))
  {
    AtNext(i);
    hide Perform, HasRoom, Decode;
  }

  lemma AtLook(i: nat, content: seq<Byte>, end: nat, sent: seq<Byte>, got: seq<seq<Byte>>, p: seq<Byte>)
    requires At(i, content, end, sent, got, Taken(p)) && i < |MISSED| && MISSED[i] == Look
    ensures At(i + 1, content, end, sent, got, Looked(p, |content|))
  {
    AtNext(i);
    hide Perform, HasRoom;
  }

  lemma AtCommit(i: nat, content: seq<Byte>, end: nat, limit: nat, sent: seq<Byte>, got: seq<seq<Byte>>, p: seq<Byte>)
    requires At(i, content, end, sent, got, Looked(p, limit)) && i < |MISSED| && MISSED[i] == Commit
    requires end <= limit <= |content| && p != [] && forall k :: end <= k < limit ==> content[k] != END
    ensures At(i + 1, content[end..], 0, sent, got + [p], Waiting)
  {
    AtNext(i);
    FirstEndNone(content[end..limit]);
    hide Perform, HasRoom, FirstEnd;
  }

  lemma DecodeMerged()
    ensures Decode([2, END, 3]).out == [2, END, 3]
  {
    DecodeOne(2);
    DecodeSnoc([2], END);
    DecodeSnoc([2, END], 3);
    assert [2] + [END] == [2, END] && [2, END] + [3] == [2, END, 3];
  }

  lemma FramesAndOne(ps: seq<seq<Byte>>, x: Byte, f: seq<Byte>)
    requires x != END && x != ESC && Frames(ps) == f
    ensures Frames(ps + [[x]]) == f + [x, END]
  {
    EncodeOne(x);
    FramesSnoc(ps, [x]);
  }

  lemma FramesOfThree()
    ensures Frames(THREE) == [1, END, 2, END, 3, END]
  {
    assert Frames([]) == [];
    hide Frames;
    FramesAndOne([], 1, []);
    assert [] + [[1]] == [[1]] && [] + [1, END] == [1, END];
    FramesAndOne([[1]], 2, [1, END]);
    assert [[1]] + [[2]] == [[1], [2]] && [1, END] + [2, END] == [1, END, 2, END];
    FramesAndOne([[1], [2]], 3, [1, END, 2, END]);
    assert [[1], [2]] + [[3]] == THREE && [1, END, 2, END] + [3, END] == [1, END, 2, END, 3, END];
  }

  lemma AtStart()
    ensures At(0, [], 0, [], [], Waiting)
  {
    assert MISSED[..0] == [];
  }

  lemma UpToCommit()
    ensures At(7, [2, END], 0, [1, END, 2, END], [[1]], Waiting)
  {
    AtStart();
    hide At, Decode;
    AtByte(0, [], 0, [], [], Waiting, [1], [1]);
    AtByte(1, [1], 0, [1], [], Waiting, [1, END], [1, END]);
    DecodeOne(1);
    assert [1, END][..1] == [1];
    AtTake(2, [1, END], 1, [1, END], [], [1]);
    AtLook(3, [1, END], 2, [1, END], [], [1]);
    AtByte(4, [1, END], 2, [1, END], [], Looked([1], 2), [1, END, 2], [1, END, 2]);
    AtByte(5, [1, END, 2], 2, [1, END, 2], [], Looked([1], 2), [1, END, 2, END], [1, END, 2, END]);
    AtCommit(6, [1, END, 2, END], 2, 2, [1, END, 2, END], [], [1]);
    assert [1, END, 2, END][2..] == [2, END] && [] + [[1]] == [[1]];
  }

  /** No poll sees the second packet, and the next one returns it merged with the third. */
  lemma MergedPackets()
    ensures At(12, [], 0, Frames(THREE), [[1], [2, END, 3]], Waiting) && MISSED[..12] == MISSED
  {
    hide At, Decode, Frames;
    UpToCommit();
    FramesOfThree();
    AtByte(7, [2, END], 0, [1, END, 2, END], [[1]], Waiting, [2, END, 3], [1, END, 2, END, 3]);
    var c, sent := [2, END, 3, END], [1, END, 2, END, 3, END];
    AtByte(8, [2, END, 3], 0, [1, END, 2, END, 3], [[1]], Waiting, c, sent);
    DecodeMerged();
    assert c[..3] == [2, END, 3];
    AtTake(9, c, 3, sent, [[1]], [2, END, 3]);
    AtLook(10, c, 4, sent, [[1]], [2, END, 3]);
    AtCommit(11, c, 4, 4, sent, [[1]], [2, END, 3]);
    assert c[4..] == [] && [[1]] + [[2, END, 3]] == [[1], [2, END, 3]];
  }
}
