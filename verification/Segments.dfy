/**
 What a WAL file is made of: whole frames, and stray bytes that belong to none. Where its frames lie, and which of them
 the reader returns.
 */
module Segments {
  import opened Bytes
  import opened Codec
  import opened Reading

  /** A frame the appender completed, or bytes of a failed write or of an earlier process. */
  datatype Segment = Frame(event: IngestEvent) | Stray(bytes: seq<byte>) {
    function Bytes(): seq<byte> {
      match this
      case Frame(e) => EncodeFrame(e)
      case Stray(b) => b
    }
  }

  function BytesOf(ss: seq<Segment>): seq<byte> {
    if ss == [] then [] else ss[0].Bytes() + BytesOf(ss[1..])
  }

  function FramesOf(ss: seq<Segment>): seq<IngestEvent> {
    if ss == [] then [] else (if ss[0].Frame? then [ss[0].event] else []) + FramesOf(ss[1..])
  }

  function StrayLen(ss: seq<Segment>): nat {
    if ss == [] then 0 else (if ss[0].Stray? then |ss[0].bytes| else 0) + StrayLen(ss[1..])
  }

  lemma NoSegments()
    ensures BytesOf([]) == [] && FramesOf([]) == [] && StrayLen([]) == 0
  {
  }

  lemma {:induction false} BytesConcat(a: seq<Segment>, b: seq<Segment>)
    ensures BytesOf(a + b) == BytesOf(a) + BytesOf(b)
  {
    if a == [] {
      assert a + b == b;
    } else {
      assert (a + b)[1..] == a[1..] + b;
      BytesConcat(a[1..], b);
    }
  }

  lemma {:induction false} FramesConcat(a: seq<Segment>, b: seq<Segment>)
    ensures FramesOf(a + b) == FramesOf(a) + FramesOf(b)
  {
    if a == [] {
      assert a + b == b;
    } else {
      assert (a + b)[1..] == a[1..] + b;
      FramesConcat(a[1..], b);
    }
  }

  lemma {:induction false} StrayConcat(a: seq<Segment>, b: seq<Segment>)
    ensures StrayLen(a + b) == StrayLen(a) + StrayLen(b)
  {
    if a == [] {
      assert a + b == b;
    } else {
      assert (a + b)[1..] == a[1..] + b;
      StrayConcat(a[1..], b);
    }
  }

  lemma SegmentsConcat(a: seq<Segment>, b: seq<Segment>)
    ensures BytesOf(a + b) == BytesOf(a) + BytesOf(b)
    ensures FramesOf(a + b) == FramesOf(a) + FramesOf(b)
    ensures StrayLen(a + b) == StrayLen(a) + StrayLen(b)
  {
    hide BytesOf, FramesOf, StrayLen;
    BytesConcat(a, b);
    FramesConcat(a, b);
    StrayConcat(a, b);
  }

  lemma AppendSegment(ss: seq<Segment>, s: Segment)
    ensures BytesOf(ss + [s]) == BytesOf(ss) + s.Bytes()
    ensures FramesOf(ss + [s]) == FramesOf(ss) + if s.Frame? then [s.event] else []
    ensures StrayLen(ss + [s]) == StrayLen(ss) + if s.Stray? then |s.bytes| else 0
  {
    hide EncodeFrame;
    SegmentsConcat(ss, [s]);
    assert [s][1..] == [];
  }

  /** A file is its frames and its stray bytes; without stray bytes it is its frames end to end. */
  lemma {:induction false} BytesAreFrames(ss: seq<Segment>)
    ensures |BytesOf(ss)| == TotalLen(FramesOf(ss)) + StrayLen(ss)
    ensures StrayLen(ss) == 0 ==> BytesOf(ss) == EncodeAll(FramesOf(ss))
  {
    hide EncodeFrame;
    if ss != [] {
      var rest := FramesOf(ss[1..]);
      BytesAreFrames(ss[1..]);
      match ss[0]
      case Frame(e) => assert FramesOf(ss)[1..] == rest;
      case Stray(b) => assert FramesOf(ss) == rest;
    }
  }

  // ---------------------------------------------------------------- where the frames lie

  /** `x` is frame number `j` of a file that starts at `start`, recorded at the offset the appender gave it. */
  predicate Recorded(start: nat, ss: seq<Segment>, x: Entry, j: nat) {
    && j < |ss| && ss[j] == Frame(x.event)
    && x.offset == start + TotalLen(FramesOf(ss[..j + 1]))
  }

  lemma {:induction false} EntryIsRecorded(start: nat, ss: seq<Segment>, x: Entry)
    ensures x in Entries(start, FramesOf(ss)) <==> exists j :: Recorded(start, ss, x, j)
    decreases |ss|
  {
    hide EncodeFrame, TotalLen;
    if ss != [] {
      var init, last := ss[..|ss| - 1], ss[|ss| - 1];
      assert ss == init + [last];
      EntryIsRecorded(start, init, x);
      RecordedInit(start, ss, x);
      AppendEntry(start, init, last);
    }
  }

  lemma AppendEntry(start: nat, ss: seq<Segment>, s: Segment)
    ensures Entries(start, FramesOf(ss + [s])) ==
            Entries(start, FramesOf(ss)) +
            if s.Frame? then [Entry(s.event, start + TotalLen(FramesOf(ss + [s])))] else []
  {
    hide EncodeFrame, FramesOf, TotalLen, Entries;
    AppendSegment(ss, s);
    if s.Frame? {
      AppendFrame(start, FramesOf(ss), s.event);
    } else {
      assert FramesOf(ss) + [] == FramesOf(ss);
    }
  }

  lemma RecordedInit(start: nat, ss: seq<Segment>, x: Entry)
    requires ss != []
    ensures var init, last := ss[..|ss| - 1], ss[|ss| - 1];
            (exists j :: Recorded(start, ss, x, j)) <==>
            || (exists j :: Recorded(start, init, x, j))
            || (last == Frame(x.event) && x.offset == start + TotalLen(FramesOf(ss)))
  {
    hide Recorded;
    var init, last := ss[..|ss| - 1], ss[|ss| - 1];
    RecordedLast(start, ss, x);
    if j :| Recorded(start, init, x, j) {
      RecordedEarlier(start, ss, x, j);
    }
    if j :| Recorded(start, ss, x, j) {
      if j != |ss| - 1 {
        RecordedEarlier(start, ss, x, j);
      }
    }
  }

  lemma RecordedLast(start: nat, ss: seq<Segment>, x: Entry)
    requires ss != []
    ensures Recorded(start, ss, x, |ss| - 1) <==>
            ss[|ss| - 1] == Frame(x.event) && x.offset == start + TotalLen(FramesOf(ss))
  {
    hide FramesOf, TotalLen;
    assert ss[..|ss|] == ss;
  }

  lemma RecordedEarlier(start: nat, ss: seq<Segment>, x: Entry, j: nat)
    requires ss != []
    ensures j < |ss| - 1 ==> (Recorded(start, ss[..|ss| - 1], x, j) <==> Recorded(start, ss, x, j))
    ensures Recorded(start, ss, x, j) ==> j <= |ss| - 1
    ensures Recorded(start, ss[..|ss| - 1], x, j) ==> j < |ss| - 1
  {
    hide FramesOf, TotalLen;
    if j < |ss| - 1 {
      assert ss[..|ss| - 1][..j + 1] == ss[..j + 1];
    }
  }

  /** The bytes at the true position of a frame are the frame. */
  lemma FrameInPlace(ss: seq<Segment>, j: nat)
    requires j < |ss| && ss[j].Frame?
    ensures var from, to := |BytesOf(ss[..j])|, |BytesOf(ss[..j + 1])|;
            from <= to <= |BytesOf(ss)| && BytesOf(ss)[from..to] == EncodeFrame(ss[j].event)
  {
    hide EncodeFrame, BytesOf;
    assert ss[..j + 1] == ss[..j] + [ss[j]];
    AppendSegment(ss[..j], ss[j]);
    assert ss == ss[..j + 1] + ss[j + 1..];
    SegmentsConcat(ss[..j + 1], ss[j + 1..]);
    assert BytesOf(ss) == BytesOf(ss[..j]) + EncodeFrame(ss[j].event) + BytesOf(ss[j + 1..]);
    SliceOfConcat(BytesOf(ss[..j]), EncodeFrame(ss[j].event), BytesOf(ss[j + 1..]));
  }

  /** The true end of a frame is its recorded offset plus the stray bytes before it. */
  lemma PositionOfRecorded(start: nat, ss: seq<Segment>, x: Entry, j: nat)
    requires Recorded(start, ss, x, j)
    ensures start + |BytesOf(ss[..j + 1])| == x.offset + StrayLen(ss[..j + 1])
  {
    hide BytesOf, FramesOf, StrayLen, TotalLen;
    BytesAreFrames(ss[..j + 1]);
  }

  /** The first segments take up the first bytes. */
  lemma FirstSegments(ss: seq<Segment>, j: nat)
    requires j <= |ss|
    ensures |BytesOf(ss[..j])| <= |BytesOf(ss)|
    ensures TotalLen(FramesOf(ss[..j])) <= |BytesOf(ss[..j])|
  {
    hide EncodeFrame, BytesOf, FramesOf, TotalLen;
    assert ss == ss[..j] + ss[j..];
    SegmentsConcat(ss[..j], ss[j..]);
    BytesAreFrames(ss[..j]);
  }

  // ---------------------------------------------------------------- what the reader returns

  /** The reader gets through the segment: a frame whose event fits the format, or stray bytes that are legible. */
  predicate Sound(s: Segment) {
    match s
    case Frame(e) => Framable(e)
    case Stray(b) => Legible(b)
  }

  lemma {:induction false} SoundIsLegible(ss: seq<Segment>)
    requires forall s <- ss :: Sound(s)
    ensures Legible(BytesOf(ss))
  {
    hide EncodeFrame, Legible, Framable;
    if ss == [] {
      NoBytesLegible();
    } else {
      assert Sound(ss[0]);
      SoundIsLegible(ss[1..]);
      SegmentLegible(ss[0]);
      LegibleConcat(ss[0].Bytes(), BytesOf(ss[1..]));
    }
  }

  lemma NoBytesLegible()
    ensures Legible([])
  {
  }

  lemma SegmentLegible(s: Segment)
    requires Sound(s)
    ensures Legible(s.Bytes())
  {
    hide EncodeFrame, Legible, Framable;
    if s.Frame? {
      FramesAreLegible([s.event]);
      AppendFrame(0, [], s.event);
      NoFrames(0);
      assert [] + [s.event] == [s.event];
      assert [] + EncodeFrame(s.event) == EncodeFrame(s.event);
    }
  }

  /**
   Of any part of a file that still has the frame, the reader returns the frame at its position iff its event fits the
   format and all that precedes it is legible.
   */
  lemma SegmentReadIff(start: nat, ss: seq<Segment>, j: nat, bytes: seq<byte>)
    requires j < |ss| && ss[j].Frame?
    requires bytes <= BytesOf(ss) && |BytesOf(ss[..j + 1])| <= |bytes|
    ensures var e := ss[j].event;
            Entry(e, start + |BytesOf(ss[..j + 1])|) in ParseAll(bytes, start).entries <==>
            Framable(e) && Legible(BytesOf(ss[..j]))
  {
    hide EncodeFrame, BytesOf, Legible, Framable, ParseAll;
    var before, e := BytesOf(ss[..j]), ss[j].event;
    assert ss[..j + 1] == ss[..j] + [ss[j]];
    AppendSegment(ss[..j], ss[j]);
    assert ss == ss[..j + 1] + ss[j + 1..];
    SegmentsConcat(ss[..j + 1], ss[j + 1..]);
    var after := bytes[|before| + FrameLen(e)..];
    assert bytes == before + EncodeFrame(e) + after;
    FrameReadIff(before, e, after, start);
  }

  /** How many segments the file begins with before the first that is not sound. */
  function SoundCount(ss: seq<Segment>): (k: nat)
    ensures k <= |ss|
  {
    if ss == [] || !Sound(ss[0]) then 0 else 1 + SoundCount(ss[1..])
  }

  /** `y` is segment `j`, a frame, at its position, or one of the frames within the stray bytes that segment `j` is. */
  predicate ComesFrom(start: nat, ss: seq<Segment>, y: Entry, j: nat) {
    && j < |ss|
    && match ss[j]
       case Frame(e) => y == Entry(e, start + |BytesOf(ss[..j + 1])|)
       case Stray(b) => y in ParseAll(b, start + |BytesOf(ss[..j])|).entries
  }

  /** The reader invents nothing before the first segment that is not sound. */
  lemma {:induction false} ReadComesFrom(start: nat, ss: seq<Segment>, y: Entry) returns (j: nat)
    requires y in ParseAll(BytesOf(ss), start).entries
    requires y.offset <= start + |BytesOf(ss[..SoundCount(ss)])|
    ensures j < SoundCount(ss) && ComesFrom(start, ss, y, j)
    decreases |ss|
  {
    hide ParseAll, EncodeFrame, Legible, Framable, BytesOf, Sound;
    BytesStep(ss);
    OffsetsBeyondBase(BytesOf(ss), start);
    assert ss != [] && Sound(ss[0]) by {
      assert ss[..0] == [];
      NoSegments();
    }
    var b, rest := ss[0].Bytes(), ss[1..];
    SegmentLegible(ss[0]);
    ReadsOn(b, BytesOf(rest), start);
    if y in ParseAll(b, start).entries {
      j := 0;
      FirstComesFrom(start, ss, y);
    } else {
      var k := SoundCount(rest);
      PrefixStep(ss, k);
      j := ReadComesFrom(start + |b|, rest, y);
      ComesFromLater(start, ss, y, j);
      j := j + 1;
    }
  }

  lemma BytesStep(ss: seq<Segment>)
    ensures ss != [] ==> BytesOf(ss) == ss[0].Bytes() + BytesOf(ss[1..])
  {
  }

  lemma PrefixStep(ss: seq<Segment>, k: nat)
    requires k < |ss|
    ensures BytesOf(ss[..k + 1]) == ss[0].Bytes() + BytesOf(ss[1..][..k])
  {
    hide EncodeFrame;
    assert ss[..k + 1][1..] == ss[1..][..k];
  }

  lemma FirstComesFrom(start: nat, ss: seq<Segment>, y: Entry)
    requires ss != [] && Sound(ss[0]) && y in ParseAll(ss[0].Bytes(), start).entries
    ensures ComesFrom(start, ss, y, 0)
  {
    hide ParseAll, EncodeFrame, Legible, Framable;
    assert ss[..0] == [] && ss[..1][1..] == [];
    NoSegments();
    PrefixStep(ss, 0);
    if ss[0].Frame? {
      var e := ss[0].event;
      ReadFirstFrame(e, [], start);
      assert EncodeFrame(e) + [] == EncodeFrame(e);
      OffsetsBeyondBase([], start + FrameLen(e));
    }
  }

  lemma ComesFromLater(start: nat, ss: seq<Segment>, y: Entry, j: nat)
    requires ss != [] && ComesFrom(start + |ss[0].Bytes()|, ss[1..], y, j)
    ensures ComesFrom(start, ss, y, j + 1)
  {
    hide ParseAll, EncodeFrame, BytesOf;
    PrefixStep(ss, j);
    PrefixStep(ss, j + 1);
  }
}
