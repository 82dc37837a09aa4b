/** Two runs of the receiver in a ring of four slots that fills up. */
module SlipRuns {
  import opened Bytes
  import opened Slip
  import opened SlipOverflow

  // ---------------------------------------------------------------------------
  // Single steps

  ghost predicate At(size: nat, events: seq<Event>, i: nat, q: Queue, sent: seq<Byte>, got: seq<seq<Byte>>)
    requires 0 < size && i <= |events|
  {
    Play(size, events[..i]) == Session(q, sent, got)
  }

  lemma Begins(size: nat, events: seq<Event>)
    requires 0 < size
    ensures At(size, events, 0, Fresh(size), [], [])
  {
    NothingPlayed(size);
    assert events[..0] == [];
  }

  lemma Stores(size: nat, events: seq<Event>, i: nat, q: Queue, sent: seq<Byte>, got: seq<seq<Byte>>, c: Byte)
    requires 0 < size && i < |events| && At(size, events, i, q, sent, got) && events[i] == Receive(c)
    requires q.phase == Ok && c != ESC && 1 < |q.stale| && (c == END ==> |q.content| != q.end)
    ensures At(size, events, i + 1,
      Queue(q.content + [c], if c == END && q.end == 0 then |q.content| else q.end, Ok, q.stale[1..]), sent + [c], got)
    ensures !Refused(q, c)
  {
    PlayNext(size, events, i);
    hide Play;
  }

  lemma Refuses(size: nat, events: seq<Event>, i: nat, q: Queue, sent: seq<Byte>, got: seq<seq<Byte>>, c: Byte)
    requires 0 < size && i < |events| && At(size, events, i, q, sent, got) && events[i] == Receive(c)
    requires q.phase == Ok && |q.stale| == 1
    ensures q.end <= |q.content|
    ensures At(size, events, i + 1,
      Queue(q.content[..q.end], q.end, Rubbish, q.content[q.end..] + q.stale), sent + [c], got)
    ensures Refused(q, c)
  {
    PlayNext(size, events, i);
    hide Play;
  }

  lemma Resumes(size: nat, events: seq<Event>, i: nat, q: Queue, sent: seq<Byte>, got: seq<seq<Byte>>)
    requires 0 < size && i < |events| && At(size, events, i, q, sent, got) && events[i] == Receive(END)
    requires q.phase == Rubbish
    ensures At(size, events, i + 1, q.(phase := Ok), sent + [END], got)
  {
    PlayNext(size, events, i);
    hide Play;
  }

  lemma Polls(size: nat, events: seq<Event>, i: nat, q: Queue, sent: seq<Byte>, got: seq<seq<Byte>>,
              p: seq<Byte>, rest: seq<Byte>, end: nat, stale: seq<Byte>)
    requires 0 < size && i < |events| && At(size, events, i, q, sent, got) && events[i] == PollNow
    requires 0 < q.end <= |q.content| && q.stale != [] && Decode(q.content[..q.end]).out == p != []
    requires Rest(q) == rest && FirstEnd(rest) == end
    requires stale == if q.end < |q.content| then q.stale + q.content[..q.end + 1] else [q.stale[0]]
    ensures At(size, events, i + 1, Queue(rest, end, q.phase, stale), sent, got + [p])
  {
    PlayNext(size, events, i);
    hide Play, FirstEnd, Decode;
  }

  lemma Zeros()
    ensures Fresh(4) == Queue([], 0, Ok, [0, 0, 0, 0])
  {
    assert Fresh(4).stale == [0, 0, 0, 0];
  }

  // ---------------------------------------------------------------------------
  // All is delivered

  /** Packets 1, 2 and 3. The terminator of the last one finds the ring full. */
  const LUCKY: seq<Event> := [Receive(1), Receive(END), PollNow, Receive(2), Receive(END), Receive(3), Receive(END),
                              PollNow, PollNow]

  lemma LuckyFirst()
    ensures At(4, LUCKY, 3, Queue([], 0, Ok, [0, 0, 1, END]), [1, END], [[1]])
  {
    hide At, Decode, FirstEnd, Play, Refused;
    Begins(4, LUCKY);
    Zeros();
    Stores(4, LUCKY, 0, Queue([], 0, Ok, [0, 0, 0, 0]), [], [], 1);
    assert [] + [1] == [1] && [0, 0, 0, 0][1..] == [0, 0, 0];
    Stores(4, LUCKY, 1, Queue([1], 0, Ok, [0, 0, 0]), [1], [], END);
    assert [1] + [END] == [1, END] && [0, 0, 0][1..] == [0, 0];
    DecodeOne(1);
    assert [1, END][..1] == [1] && [1, END][2..] == [] && [0, 0] + [1, END][..2] == [0, 0, 1, END];
    FirstEndNone([]);
    Polls(4, LUCKY, 2, Queue([1, END], 1, Ok, [0, 0]), [1, END], [], [1], [], 0, [0, 0, 1, END]);
    assert [] + [[1]] == [[1]];
  }

  lemma LuckyUpTo()
    ensures At(4, LUCKY, 6, Queue([2, END, 3], 1, Ok, [END]), [1, END, 2, END, 3], [[1]])
  {
    hide At, Decode, FirstEnd, Play, Refused;
    LuckyFirst();
    Stores(4, LUCKY, 3, Queue([], 0, Ok, [0, 0, 1, END]), [1, END], [[1]], 2);
    assert [] + [2] == [2] && [1, END] + [2] == [1, END, 2] && [0, 0, 1, END][1..] == [0, 1, END];
    Stores(4, LUCKY, 4, Queue([2], 0, Ok, [0, 1, END]), [1, END, 2], [[1]], END);
    assert [2] + [END] == [2, END] && [1, END, 2] + [END] == [1, END, 2, END] && [0, 1, END][1..] == [1, END];
    Stores(4, LUCKY, 5, Queue([2, END], 1, Ok, [1, END]), [1, END, 2, END], [[1]], 3);
    assert [2, END] + [3] == [2, END, 3] && [1, END, 2, END] + [3] == [1, END, 2, END, 3] && [1, END][1..] == [END];
  }

  lemma LuckyRefused()
    ensures At(4, LUCKY, 7, Queue([2], 1, Rubbish, [END, 3, END]), [1, END, 2, END, 3, END], [[1]])
    ensures !NeverFull(4, LUCKY)
  {
    hide At, Decode, FirstEnd, Play, Refused;
    LuckyUpTo();
    var q, sent := Queue([2, END, 3], 1, Ok, [END]), [1, END, 2, END, 3];
    FullThen(4, LUCKY, 6, q, sent, [[1]]);
    Refuses(4, LUCKY, 6, q, sent, [[1]], END);
    assert [2, END, 3][..1] == [2] && [2, END, 3][1..] + [END] == [END, 3, END] && sent + [END] == [1, END, 2, END, 3, END];
  }

  lemma LuckyPolled()
    ensures At(4, LUCKY, 8, Queue([3, END, 2], 1, Rubbish, [END]), [1, END, 2, END, 3, END], [[1], [2]])
  {
    hide At, Decode, FirstEnd, Play, NeverFull;
    LuckyRefused();
    DecodeOne(2);
    assert [2][..1] == [2] && [END, 3, END][1..] + [2] == [3, END, 2];
    FirstEndIs([3, END, 2], 1);
    Polls(4, LUCKY, 7, Queue([2], 1, Rubbish, [END, 3, END]), [1, END, 2, END, 3, END], [[1]], [2], [3, END, 2], 1, [END]);
    assert [[1]] + [[2]] == [[1], [2]];
  }

  /** The ring fills up, and yet every packet comes out: a full ring is no proof of loss. */
  lemma FullButDelivered()
    ensures At(4, LUCKY, 9, Queue([2], 0, Rubbish, [END, 3, END]), Frames([[1], [2], [3]]), [[1], [2], [3]])
    ensures !NeverFull(4, LUCKY) && LUCKY[..9] == LUCKY
  {
    hide At, Decode, FirstEnd, Play, Frames, NeverFull;
    LuckyRefused();
    LuckyPolled();
    DecodeOne(3);
    var q := Queue([3, END, 2], 1, Rubbish, [END]);
    assert [3, END, 2][..1] == [3] && [3, END, 2][2..] == [2] && [END] + [3, END, 2][..2] == [END, 3, END];
    FirstEndNone([2]);
    Polls(4, LUCKY, 8, q, [1, END, 2, END, 3, END], [[1], [2]], [3], [2], 0, [END, 3, END]);
    assert [[1], [2]] + [[3]] == [[1], [2], [3]];
    assert LUCKY[..9] == LUCKY;
    FramesOf123();
  }

  lemma FullThen(size: nat, events: seq<Event>, i: nat, q: Queue, sent: seq<Byte>, got: seq<seq<Byte>>)
    requires 0 < size && i < |events| && At(size, events, i, q, sent, got) && events[i].Receive? && |q.content| + 1 == size
    ensures !NeverFull(size, events)
  {
    assert events[..i + 1][..i] == events[..i];
    PrefixRuns(size, events, i + 1);
  }

  lemma FramesOf12()
    ensures Frames([[1], [2]]) == [1, END, 2, END]
  {
    EncodeOne(1);
    EncodeOne(2);
    FramesNone();
    hide Encode, Frames;
    FramesSnoc([], [1]);
    FramesSnoc([[1]], [2]);
    assert [] + [[1]] == [[1]] && [[1]] + [[2]] == [[1], [2]];
    assert [] + ([1] + [END]) == [1, END] && [1, END] + ([2] + [END]) == [1, END, 2, END];
  }

  lemma FramesOf123()
    ensures Frames([[1], [2], [3]]) == [1, END, 2, END, 3, END]
  {
    EncodeOne(3);
    hide Encode, Frames;
    FramesOf12();
    FramesSnoc([[1], [2]], [3]);
    assert [[1], [2]] + [[3]] == [[1], [2], [3]];
    assert [1, END, 2, END] + ([3] + [END]) == [1, END, 2, END, 3, END];
  }

  // ---------------------------------------------------------------------------
  // Two packets are lost

  /** Packets 1, 2 3 and 4; the 3 finds the ring full. */
  const UNLUCKY: seq<Event> := [Receive(1), Receive(END), Receive(2), Receive(3), Receive(END), Receive(4), Receive(END),
                                PollNow]

  lemma UnluckyStart()
    ensures At(4, UNLUCKY, 4, Queue([1], 1, Rubbish, [END, 2, 0]), [1, END, 2, 3], [])
  {
    hide At, Decode, FirstEnd, Play, Refused;
    Begins(4, UNLUCKY);
    Zeros();
    Stores(4, UNLUCKY, 0, Queue([], 0, Ok, [0, 0, 0, 0]), [], [], 1);
    assert [] + [1] == [1] && [0, 0, 0, 0][1..] == [0, 0, 0];
    Stores(4, UNLUCKY, 1, Queue([1], 0, Ok, [0, 0, 0]), [1], [], END);
    assert [1] + [END] == [1, END] && [0, 0, 0][1..] == [0, 0];
    Stores(4, UNLUCKY, 2, Queue([1, END], 1, Ok, [0, 0]), [1, END], [], 2);
    assert [1, END] + [2] == [1, END, 2] && [0, 0][1..] == [0];
    Refuses(4, UNLUCKY, 3, Queue([1, END, 2], 1, Ok, [0]), [1, END, 2], [], 3);
    assert [1, END, 2][..1] == [1] && [1, END, 2][1..] + [0] == [END, 2, 0] && [1, END, 2] + [3] == [1, END, 2, 3];
  }

  lemma UnluckyRest()
    ensures At(4, UNLUCKY, 7, Queue([1, 4, END], 1, Ok, [0]), [1, END, 2, 3, END, 4, END], [])
  {
    hide At, Decode, FirstEnd, Play, Refused;
    UnluckyStart();
    Resumes(4, UNLUCKY, 4, Queue([1], 1, Rubbish, [END, 2, 0]), [1, END, 2, 3], []);
    assert [1, END, 2, 3] + [END] == [1, END, 2, 3, END];
    Stores(4, UNLUCKY, 5, Queue([1], 1, Ok, [END, 2, 0]), [1, END, 2, 3, END], [], 4);
    assert [1] + [4] == [1, 4] && [END, 2, 0][1..] == [2, 0] && [1, END, 2, 3, END] + [4] == [1, END, 2, 3, END, 4];
    Stores(4, UNLUCKY, 6, Queue([1, 4], 1, Ok, [2, 0]), [1, END, 2, 3, END, 4], [], END);
    assert [1, 4] + [END] == [1, 4, END] && [2, 0][1..] == [0];
    assert [1, END, 2, 3, END, 4] + [END] == [1, END, 2, 3, END, 4, END];
  }

  /** The packet with the refused byte is dropped; of the next one the first byte takes the place of
      the waiting packet's terminator, and its own terminator then stands at the head of the ring. */
  lemma TwoPacketsLost()
    ensures At(4, UNLUCKY, 8, Queue([END], 0, Ok, [0, 1, 4]), [1, END, 2, 3, END, 4, END], [[1]])
  {
    hide At, Decode, FirstEnd, Play;
    UnluckyRest();
    DecodeOne(1);
    assert [1, 4, END][..1] == [1] && [1, 4, END][2..] == [END] && [0] + [1, 4, END][..2] == [0, 1, 4];
    FirstEndIs([END], 0);
    Polls(4, UNLUCKY, 7, Queue([1, 4, END], 1, Ok, [0]), [1, END, 2, 3, END, 4, END], [], [1], [END], 0, [0, 1, 4]);
    assert [] + [[1]] == [[1]];
  }
}
