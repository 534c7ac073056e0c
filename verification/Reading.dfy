/**
 What the reader makes of a file, event by event: when the frame at a given position is read back, whatever bytes
 precede it. The reader measures offsets by position.
 */
module Reading {
  import opened Bytes
  import opened Codec
  import opened Utf8

  /** The reader gets through all of `s` and stops with a clean end of file. */
  predicate Legible(s: seq<byte>) {
    ParseAll(s, 0).clean
  }

  lemma {:induction false} LegibleAnywhere(s: seq<byte>, base: nat)
    ensures ParseAll(s, base).clean <==> Legible(s)
    decreases |s|
  {
    hide Parse;
    match Parse(s)
    case Whole(_, n) =>
      LegibleAnywhere(s[n..], base + n);
      LegibleAnywhere(s[n..], n);
    case _ =>
  }

  /** Bytes after a frame do not change it; bytes after a broken frame can only complete it by reaching past its end. */
  lemma ParseLocal(s: seq<byte>, more: seq<byte>)
    ensures Parse(s).Whole? ==> Parse(s + more) == Parse(s)
    ensures Parse(s).Broken? && Parse(s + more).Whole? ==> Parse(s + more).size > |s|
  {
    hide ValidUtf8, FromLe16, FromLe32, Framable;
    var t := s + more;
    if |s| >= 2 {
      SlicesAgree(s, more, 0, 2);
      var n := FromLe16(s[..2]);
      if |s| >= 2 + n {
        SlicesAgree(s, more, 2, 2 + n);
        if |s| >= 6 + n {
          SlicesAgree(s, more, 2 + n, 6 + n);
          var m := FromLe32(s[2 + n..6 + n]);
          if |s| >= 6 + n + m {
            SlicesAgree(s, more, 6 + n, 6 + n + m);
          }
        }
      }
    }
  }

  lemma SlicesAgree(s: seq<byte>, more: seq<byte>, from: nat, to: nat)
    requires from <= to <= |s|
    ensures (s + more)[from..to] == s[from..to]
  {
  }

  /** After a legible beginning the reader goes on as if it started there. */
  lemma {:induction false} ReadsOn(s: seq<byte>, more: seq<byte>, base: nat)
    requires Legible(s)
    ensures var first, rest := ParseAll(s, base), ParseAll(more, base + |s|);
            ParseAll(s + more, base) == rest.(entries := first.entries + rest.entries)
    decreases |s|
  {
    hide Parse, ParseAll, Framable;
    LegibleAnywhere(s, base);
    ReadStep(s, base);
    ReadStep(s + more, base);
    if s == [] {
      assert s + more == more;
      var rest := ParseAll(more, base);
      assert [] + rest.entries == rest.entries;
    } else {
      ParseLocal(s, more);
      var e, n := Parse(s).event, Parse(s).size;
      assert (s + more)[n..] == s[n..] + more;
      LegibleAnywhere(s[n..], base + n);
      ReadsOn(s[n..], more, base + n);
      var first, rest := ParseAll(s[n..], base + n), ParseAll(more, base + |s|);
      assert [Entry(e, base + n)] + (first.entries + rest.entries) ==
             [Entry(e, base + n)] + first.entries + rest.entries;
    }
  }

  lemma LegibleConcat(s: seq<byte>, more: seq<byte>)
    requires Legible(s)
    ensures Legible(s + more) <==> Legible(more)
  {
    hide ParseAll;
    ReadsOn(s, more, 0);
    LegibleAnywhere(more, |s|);
  }

  lemma FramesAreLegible(es: seq<IngestEvent>)
    requires AllFramable(es)
    ensures Legible(EncodeAll(es))
  {
    hide ParseAll, EncodeAll, Framable;
    ReadBack(es, 0);
  }

  lemma OffsetsBeyondBase(s: seq<byte>, base: nat)
    ensures forall y <- ParseAll(s, base).entries :: base < y.offset <= base + |s| && Framable(y.event)
  {
    hide ParseAll, TotalLen, Framable;
    var r := ParseAll(s, base);
    ParsedEntries(s, base);
    EntriesAreFrameEnds(base, Events(r.entries));
    forall y <- r.entries
      ensures Framable(y.event)
    {
      var i :| 0 <= i < |r.entries| && r.entries[i] == y;
      assert Events(r.entries)[i] == y.event;
    }
  }

  /** The reader returns an event at an offset only if the bytes just before that offset parse as the event. */
  lemma {:induction false} ReportedInPlace(s: seq<byte>, base: nat, x: Entry)
    requires x in ParseAll(s, base).entries
    ensures base + FrameLen(x.event) <= x.offset <= base + |s|
    ensures Parse(s[x.offset - base - FrameLen(x.event)..]) == Whole(x.event, FrameLen(x.event))
    decreases |s|
  {
    hide Parse, Framable;
    match Parse(s)
    case Whole(e, n) =>
      if x == Entry(e, base + n) {
        assert s[0..] == s;
      } else {
        ReportedInPlace(s[n..], base + n, x);
        var k := x.offset - (base + n) - FrameLen(x.event);
        assert s[n..][k..] == s[n + k..];
      }
    case _ =>
  }

  /**
   When a frame is read back, exactly. Whatever bytes precede and follow it, the reader returns a frame at its own
   position iff its event fits the frame format and everything before it is legible.
   */
  lemma FrameReadIff(before: seq<byte>, e: IngestEvent, after: seq<byte>, base: nat)
    ensures Entry(e, base + |before| + FrameLen(e)) in ParseAll(before + EncodeFrame(e) + after, base).entries <==>
            Framable(e) && Legible(before)
  {
    hide Parse, ParseAll, EncodeFrame, Framable;
    var x, tail := Entry(e, base + |before| + FrameLen(e)), EncodeFrame(e) + after;
    assert before + EncodeFrame(e) + after == before + tail;
    OffsetsBeyondBase(before + tail, base);
    if Framable(e) {
      if Legible(before) {
        ReadsOn(before, tail, base);
        ReadFirstFrame(e, after, base + |before|);
      } else {
        IllegibleHides(before, tail, base, x);
      }
    }
  }

  /** Behind bytes that are not legible, no frame is returned that begins where they end. */
  lemma {:induction false} IllegibleHides(before: seq<byte>, tail: seq<byte>, base: nat, x: Entry)
    requires !Legible(before) && x.offset == base + |before| + FrameLen(x.event)
    ensures x !in ParseAll(before + tail, base).entries
    decreases |before|
  {
    hide Parse, Framable;
    var s := before + tail;
    ParseLocal(before, tail);
    match Parse(before)
    case Whole(_, n) =>
      assert s[n..] == before[n..] + tail;
      LegibleAnywhere(before[n..], n);
      IllegibleHides(before[n..], tail, base + n, x);
    case Broken(_, _) =>
      if Parse(s).Whole? {
        var n := Parse(s).size;
        if x in ParseAll(s[n..], base + n).entries {
          ReportedInPlace(s[n..], base + n, x);
        }
      }
    case AtEof =>
  }

  /** Cutting a file short loses entries at its end only. */
  lemma {:induction false} PrefixReads(s: seq<byte>, more: seq<byte>, base: nat)
    ensures ParseAll(s, base).entries <= ParseAll(s + more, base).entries
    decreases |s|
  {
    hide Parse, ParseAll, Framable;
    ReadStep(s, base);
    ReadStep(s + more, base);
    ParseLocal(s, more);
    if Parse(s).Whole? {
      var n := Parse(s).size;
      assert (s + more)[n..] == s[n..] + more;
      PrefixReads(s[n..], more, base + n);
    }
  }
}
