/**
 The frame format of the write-ahead log,
   [index length: u16] [index] [payload length: u32] [payload] [crc: u32],
 as a pure encoder and a pure parser, with the theorems that relate them: the exact round trip, and what a
 reader makes of a log cut at an arbitrary byte.
 */
module Codec {
  import opened Bytes
  import opened Utf8
  import Checksum

  /** `IngestEvent`; the index name is kept as its UTF-8 bytes. */
  datatype IngestEvent = IngestEvent(index: seq<byte>, payload: seq<byte>)

  /** An event together with the log offset just past its frame. */
  datatype Entry = Entry(event: IngestEvent, offset: nat)

  function FrameLen(e: IngestEvent): nat {
    2 + |e.index| + 4 + |e.payload| + 4
  }

  /** The bytes written for one event. The two lengths are truncated by the `as u16` and `as u32` casts. */
  function EncodeFrame(e: IngestEvent): (r: seq<byte>)
    ensures |r| == FrameLen(e)
  {
    Le16(|e.index| % TWO16) + e.index +
    Le32(|e.payload| % TWO32) + e.payload +
    Le32(Checksum.Crc32(e.index + e.payload))
  }

  /** The events the two casts leave alone and whose name is a Rust `String`. */
  predicate Framable(e: IngestEvent) {
    |e.index| < TWO16 && |e.payload| < TWO32 && ValidUtf8(e.index)
  }

  predicate AllFramable(es: seq<IngestEvent>) {
    forall e <- es :: Framable(e)
  }

  // ---------------------------------------------------------------- sequences of frames

  function EncodeAll(es: seq<IngestEvent>): (r: seq<byte>)
    ensures |r| == TotalLen(es)
  {
    if es == [] then [] else EncodeFrame(es[0]) + EncodeAll(es[1..])
  }

  function TotalLen(es: seq<IngestEvent>): nat {
    if es == [] then 0 else FrameLen(es[0]) + TotalLen(es[1..])
  }

  /** The events of a file starting at offset `base`, each with the offset its frame ends at. */
  function Entries(base: nat, es: seq<IngestEvent>): (r: seq<Entry>)
    ensures |r| == |es|
    decreases |es|
  {
    if es == [] then []
    else [Entry(es[0], base + FrameLen(es[0]))] + Entries(base + FrameLen(es[0]), es[1..])
  }

  lemma NoFrames(base: nat)
    ensures EncodeAll([]) == [] && TotalLen([]) == 0 && Entries(base, []) == []
  {
  }

  predicate Increasing(xs: seq<Entry>) {
    forall i, j :: 0 <= i < j < |xs| ==> xs[i].offset < xs[j].offset
  }

  lemma {:induction false} TotalLenConcat(a: seq<IngestEvent>, b: seq<IngestEvent>)
    ensures TotalLen(a + b) == TotalLen(a) + TotalLen(b)
  {
    if a == [] {
      assert a + b == b;
    } else {
      assert (a + b)[1..] == a[1..] + b;
      TotalLenConcat(a[1..], b);
    }
  }

  lemma {:induction false} EncodeAllConcat(a: seq<IngestEvent>, b: seq<IngestEvent>)
    ensures EncodeAll(a + b) == EncodeAll(a) + EncodeAll(b)
  {
    if a == [] {
      assert a + b == b;
    } else {
      assert (a + b)[1..] == a[1..] + b;
      EncodeAllConcat(a[1..], b);
    }
  }

  lemma {:induction false} EntriesConcat(base: nat, a: seq<IngestEvent>, b: seq<IngestEvent>)
    ensures Entries(base, a + b) == Entries(base, a) + Entries(base + TotalLen(a), b)
    decreases |a|
  {
    if a == [] {
      assert a + b == b;
    } else {
      assert (a + b)[1..] == a[1..] + b;
      EntriesConcat(base + FrameLen(a[0]), a[1..], b);
    }
  }

  /** Appending one frame to a file. */
  lemma AppendFrame(base: nat, es: seq<IngestEvent>, e: IngestEvent)
    ensures TotalLen(es + [e]) == TotalLen(es) + FrameLen(e)
    ensures EncodeAll(es + [e]) == EncodeAll(es) + EncodeFrame(e)
    ensures Entries(base, es + [e]) == Entries(base, es) + [Entry(e, base + TotalLen(es) + FrameLen(e))]
  {
    hide EncodeFrame;
    TotalLenConcat(es, [e]);
    EncodeAllConcat(es, [e]);
    EntriesConcat(base, es, [e]);
    assert [e][1..] == [];
    assert EncodeAll([e]) == EncodeFrame(e);
    assert Entries(base + TotalLen(es), [e]) == [Entry(e, base + TotalLen(es) + FrameLen(e))];
  }

  lemma {:induction false} EntryAt(base: nat, es: seq<IngestEvent>, i: nat)
    requires i < |es|
    ensures Entries(base, es)[i] == Entry(es[i], base + TotalLen(es[..i + 1]))
    decreases |es|
  {
    var e, rest := es[0], es[1..];
    assert es[..i + 1] == [e] + rest[..i];
    TotalLenConcat([e], rest[..i]);
    assert [e][1..] == [];
    if i > 0 {
      EntryAt(base + FrameLen(e), rest, i - 1);
    }
  }

  lemma TotalLenGrows(es: seq<IngestEvent>, a: nat, b: nat)
    requires a <= b <= |es|
    ensures TotalLen(es[..a]) <= TotalLen(es[..b])
    ensures a < b ==> TotalLen(es[..a]) < TotalLen(es[..b])
  {
    assert es[..b] == es[..a] + es[a..b];
    TotalLenConcat(es[..a], es[a..b]);
  }

  /** Offsets grow, lie inside the file, and each is the end of the frames up to and including its own. */
  lemma EntriesAreFrameEnds(base: nat, es: seq<IngestEvent>)
    ensures Increasing(Entries(base, es))
    ensures forall i :: 0 <= i < |es| ==>
              Entries(base, es)[i] == Entry(es[i], base + TotalLen(es[..i + 1]))
    ensures forall i :: 0 <= i < |es| ==> base < Entries(base, es)[i].offset <= base + TotalLen(es)
  {
    hide Entries, TotalLen;
    NoFrames(base);
    forall i | 0 <= i < |es|
      ensures Entries(base, es)[i] == Entry(es[i], base + TotalLen(es[..i + 1]))
      ensures 0 < TotalLen(es[..i + 1]) <= TotalLen(es)
    {
      EntryAt(base, es, i);
      assert es[..|es|] == es && es[..0] == [];
      TotalLenGrows(es, 0, i + 1);
      TotalLenGrows(es, i + 1, |es|);
    }
    forall i, j | 0 <= i < j < |es|
      ensures Entries(base, es)[i].offset < Entries(base, es)[j].offset
    {
      TotalLenGrows(es, i + 1, j + 1);
    }
  }

  // ---------------------------------------------------------------- parsing

  /** The kinds of `std::io::Error` a frame read ends in. */
  datatype ErrorKind = UnexpectedEof | InvalidData

  /** Outcome of one `next_frame` call on the unread bytes; `consumed` is how far the file cursor moved. */
  datatype Parsed = AtEof | Broken(kind: ErrorKind, consumed: nat) | Whole(event: IngestEvent, size: nat) {
    function Taken(): nat {
      match this
      case AtEof => 0
      case Broken(_, n) => n
      case Whole(_, n) => n
    }
  }

  function Parse(s: seq<byte>): (r: Parsed)
    ensures r.AtEof? <==> s == []
    ensures r.Broken? ==> 0 < r.consumed <= |s|
    ensures r.Whole? ==> r.size == FrameLen(r.event) <= |s| && Framable(r.event)
  {
    if |s| == 0 then AtEof
    else if |s| < 2 then Broken(UnexpectedEof, |s|)
    else
      var n := FromLe16(s[..2]);
      if |s| < 2 + n then Broken(UnexpectedEof, |s|)
      else if !ValidUtf8(s[2..2 + n]) then Broken(InvalidData, 2 + n)
      else if |s| < 6 + n then Broken(UnexpectedEof, |s|)
      else
        var m := FromLe32(s[2 + n..6 + n]);
        if |s| < 6 + n + m then Broken(UnexpectedEof, |s|)
        else if |s| < 10 + n + m then Broken(UnexpectedEof, |s|)
        else Whole(IngestEvent(s[2..2 + n], s[6 + n..6 + n + m]), 10 + n + m)
  }

  /** All frames up to the first end of file or error, the offset reached, and whether the end was clean. */
  datatype Replay = Replay(entries: seq<Entry>, end: nat, clean: bool)

  function ParseAll(s: seq<byte>, base: nat): (r: Replay)
    ensures base <= r.end <= base + |s|
    ensures r.clean ==> r.end == base + |s|
    decreases |s|
  {
    match Parse(s)
    case AtEof => Replay([], base, true)
    case Broken(_, _) => Replay([], base, false)
    case Whole(e, n) =>
      var rest := ParseAll(s[n..], base + n);
      Replay([Entry(e, base + n)] + rest.entries, rest.end, rest.clean)
  }

  /** `ParseAll` is `Parse` repeated until it returns no frame. */
  lemma ReadStep(s: seq<byte>, base: nat)
    ensures match Parse(s)
            case AtEof => ParseAll(s, base) == Replay([], base, true)
            case Broken(_, _) => ParseAll(s, base) == Replay([], base, false)
            case Whole(e, n) =>
              var rest := ParseAll(s[n..], base + n);
              ParseAll(s, base) == rest.(entries := [Entry(e, base + n)] + rest.entries)
  {
    hide Parse;
  }

  lemma SliceOfConcat(a: seq<byte>, b: seq<byte>, c: seq<byte>)
    ensures (a + b + c)[|a|..|a| + |b|] == b
  {
  }

  lemma SliceOfPrefix(s: seq<byte>, n: nat, from: nat, to: nat)
    requires from <= to <= n <= |s|
    ensures s[..n][from..to] == s[from..to]
  {
  }

  /** Where the fields of a frame lie. */
  lemma FrameFields(e: IngestEvent, tail: seq<byte>)
    ensures var s, n, m := EncodeFrame(e) + tail, |e.index|, |e.payload|;
            && s[..2] == Le16(n % TWO16)
            && s[2..2 + n] == e.index
            && s[2 + n..6 + n] == Le32(m % TWO32)
            && s[6 + n..6 + n + m] == e.payload
            && s[6 + n + m..10 + n + m] == Le32(Checksum.Crc32(e.index + e.payload))
  {
    hide Checksum.Crc32, Le16, Le32;
    var s := EncodeFrame(e) + tail;
    var head, index, mid, payload, crc := Le16(|e.index| % TWO16), e.index,
        Le32(|e.payload| % TWO32), e.payload, Le32(Checksum.Crc32(e.index + e.payload));
    assert s == head + index + mid + payload + crc + tail;
    assert s == head + index + (mid + payload + crc + tail);
    SliceOfConcat(head, index, mid + payload + crc + tail);
    assert s == head + index + mid + (payload + crc + tail);
    SliceOfConcat(head + index, mid, payload + crc + tail);
    assert s == head + index + mid + payload + (crc + tail);
    SliceOfConcat(head + index + mid, payload, crc + tail);
    SliceOfConcat(head + index + mid + payload, crc, tail);
  }

  lemma LowByte(x: nat, q: nat)
    ensures (x * 256 + q) % 256 == q % 256
  {
  }

  lemma Le16Bytes(n: nat)
    ensures Le16(n % TWO16) == [n % 256, n / 256 % 256]
  {
    var a, k := n / TWO16, n % TWO16;
    assert n == a * 256 * 256 + k;
    LowByte(a * 256, k);
    assert n / 256 == a * 256 + k / 256;
    LowByte(a, k / 256);
  }

  lemma Le32Bytes(n: nat)
    ensures Le32(n % TWO32) == [n % 256, n / 256 % 256, n / 0x1_0000 % 256, n / 0x100_0000 % 256]
  {
    var a, k := n / TWO32, n % TWO32;
    assert n == a * 0x100_0000 * 256 + k;
    LowByte(a * 0x100_0000, k);
    assert n / 256 == a * 0x1_0000 * 256 + k / 256;
    LowByte(a * 0x1_0000, k / 256);
    assert n / 0x1_0000 == a * 256 * 256 + k / 0x1_0000;
    LowByte(a * 256, k / 0x1_0000);
    assert n / 0x100_0000 == a * 256 + k / 0x100_0000;
    LowByte(a, k / 0x100_0000);
    assert k / 256 / 256 == k / 0x1_0000 && k / 256 / 256 / 256 == k / 0x100_0000;
  }

  /**
   The bytes of a frame on disk: both lengths with the low byte first, in sixteen and thirty-two bits, each followed by
   what it measures, and the checksum of name and payload at the end.
   */
  lemma FrameOnDisk(e: IngestEvent)
    ensures var s, n, m, crc := EncodeFrame(e), |e.index|, |e.payload|, Checksum.Crc32(e.index + e.payload);
            && |s| == 10 + n + m
            && s[0] == n % 256 && s[1] == n / 256 % 256
            && s[2..2 + n] == e.index
            && s[2 + n] == m % 256 && s[3 + n] == m / 256 % 256
            && s[4 + n] == m / 0x1_0000 % 256 && s[5 + n] == m / 0x100_0000 % 256
            && s[6 + n..6 + n + m] == e.payload
            && s[6 + n + m] == crc % 256 && s[7 + n + m] == crc / 256 % 256
            && s[8 + n + m] == crc / 0x1_0000 % 256 && s[9 + n + m] == crc / 0x100_0000 % 256
  {
    hide EncodeFrame, Checksum.Crc32, Le16, Le32, FromLe16, FromLe32;
    var s, n, m, crc := EncodeFrame(e), |e.index|, |e.payload|, Checksum.Crc32(e.index + e.payload);
    FrameFields(e, []);
    assert s + [] == s;
    Le16Bytes(n);
    Le32Bytes(m);
    Le32Bytes(crc);
    assert crc % TWO32 == crc;
    FirstBytes(s);
    SliceBytes(s, 2 + n);
    SliceBytes(s, 6 + n + m);
  }

  lemma FirstBytes(s: seq<byte>)
    requires |s| >= 2
    ensures s[..2] == [s[0], s[1]]
  {
  }

  lemma SliceBytes(s: seq<byte>, k: nat)
    requires k + 4 <= |s|
    ensures s[k..k + 4] == [s[k], s[k + 1], s[k + 2], s[k + 3]]
  {
  }

  /** What the reader takes for a frame, byte by byte; the last four bytes may be anything. */
  lemma ParseIff(s: seq<byte>, e: IngestEvent)
    ensures var n, m := |e.index|, |e.payload|;
            Parse(s) == Whole(e, 10 + n + m) <==>
            && |s| >= 10 + n + m
            && n == (s[0] as int) + 256 * (s[1] as int)
            && e.index == s[2..2 + n] && ValidUtf8(e.index)
            && m == (s[2 + n] as int) + 256 * (s[3 + n] as int) +
                    0x1_0000 * (s[4 + n] as int) + 0x100_0000 * (s[5 + n] as int)
            && e.payload == s[6 + n..6 + n + m]
  {
    hide ValidUtf8;
    var n := |e.index|;
    if |s| >= 2 {
      FirstBytes(s);
      if |s| >= 6 + n {
        SliceBytes(s, 2 + n);
      }
    }
  }

  /** The reader fails for a name that is not UTF-8 as soon as it has read all of it, whatever else is missing. */
  lemma InvalidNameIff(s: seq<byte>)
    ensures Parse(s).Broken? && Parse(s).kind == InvalidData <==>
            |s| >= 2 && var n := (s[0] as int) + 256 * (s[1] as int); |s| >= 2 + n && !ValidUtf8(s[2..2 + n])
  {
    hide ValidUtf8;
    if |s| >= 2 {
      FirstBytes(s);
    }
  }

  /** An encoded framable event parses back to itself, whatever follows it. */
  lemma FrameRoundTrip(e: IngestEvent, tail: seq<byte>)
    requires Framable(e)
    ensures Parse(EncodeFrame(e) + tail) == Whole(e, FrameLen(e))
  {
    hide EncodeFrame, ValidUtf8, Le16, Le32, FromLe16, FromLe32;
    FrameFields(e, tail);
  }

  /** The round trip holds for exactly the events whose lengths survive the two casts. */
  lemma FrameRoundTripIff(e: IngestEvent, tail: seq<byte>)
    ensures Parse(EncodeFrame(e) + tail) == Whole(e, FrameLen(e)) <==> Framable(e)
  {
    if Framable(e) {
      FrameRoundTrip(e, tail);
    }
  }

  /** A proper, non-empty prefix of a frame is never taken for a frame: the reader runs into the end of the file. */
  lemma TornFrame(e: IngestEvent, n: nat)
    requires Framable(e) && 0 < n < FrameLen(e)
    ensures Parse(EncodeFrame(e)[..n]) == Broken(UnexpectedEof, n)
  {
    hide Checksum.Crc32, ValidUtf8, Le16, Le32, FromLe16, FromLe32;
    hide EncodeFrame;
    var f, k := EncodeFrame(e), |e.index|;
    FrameFields(e, []);
    assert f + [] == f;
    if n >= 2 {
      SliceOfPrefix(f, n, 0, 2);
    }
    if n >= 2 + k {
      SliceOfPrefix(f, n, 2, 2 + k);
    }
    if n >= 6 + k {
      SliceOfPrefix(f, n, 2 + k, 6 + k);
    }
  }

  /** How many of the frames end at or before byte `n`. */
  function WholeFrames(es: seq<IngestEvent>, n: nat): (k: nat)
    ensures k <= |es| && TotalLen(es[..k]) <= n
    ensures k < |es| ==> n < TotalLen(es[..k + 1])
  {
    if es == [] || n < FrameLen(es[0]) then
      assert es != [] ==> es[..1] == [es[0]] && es[..1][1..] == [];
      0
    else
      var k := WholeFrames(es[1..], n - FrameLen(es[0]));
      assert es[..k + 1][1..] == es[1..][..k];
      assert k + 1 < |es| ==> es[..k + 2][1..] == es[1..][..k + 1];
      1 + k
  }

  /** One frame at the front of a log is read first; the rest is read after it. */
  lemma ReadFirstFrame(e: IngestEvent, tail: seq<byte>, base: nat)
    requires Framable(e)
    ensures var rest := ParseAll(tail, base + FrameLen(e));
            ParseAll(EncodeFrame(e) + tail, base) ==
            Replay([Entry(e, base + FrameLen(e))] + rest.entries, rest.end, rest.clean)
  {
    hide Parse, EncodeFrame, Framable;
    FrameRoundTrip(e, tail);
    assert (EncodeFrame(e) + tail)[FrameLen(e)..] == tail;
  }

  /**
   Torn-tail recovery. Cutting an encoded log at any byte `n` loses exactly the frames that end after `n`: the reader
   returns the others, in order and with their offsets, stops at the end of the last of them, and reports a clean end
   of file iff the cut fell on a frame boundary.
   */
  lemma {:induction false} TornTail(es: seq<IngestEvent>, n: nat, base: nat)
    requires AllFramable(es) && n <= TotalLen(es)
    ensures var kept := es[..WholeFrames(es, n)];
            ParseAll(EncodeAll(es)[..n], base) ==
            Replay(Entries(base, kept), base + TotalLen(kept), n == TotalLen(kept))
    decreases |es|
  {
    hide ParseAll, EncodeAll, EncodeFrame, Entries, TotalLen, WholeFrames, Framable;
    if es == [] || n < FrameLen(es[0]) {
      CutInFirst(es, n, base);
    } else {
      var e, rest, n' := es[0], es[1..], n - FrameLen(es[0]);
      CutPastFirst(es, n, base);
      ReadFirstFrame(e, EncodeAll(rest)[..n'], base);
      TornTail(rest, n', base + FrameLen(e));
    }
  }

  lemma CutInFirst(es: seq<IngestEvent>, n: nat, base: nat)
    requires AllFramable(es) && n <= TotalLen(es) && (es == [] || n < FrameLen(es[0]))
    ensures var kept := es[..WholeFrames(es, n)];
            ParseAll(EncodeAll(es)[..n], base) ==
            Replay(Entries(base, kept), base + TotalLen(kept), n == TotalLen(kept))
  {
    hide Parse, EncodeFrame, Framable;
    if n == 0 {
      assert EncodeAll(es)[..n] == [];
    } else {
      assert EncodeAll(es)[..n] == EncodeFrame(es[0])[..n];
      TornFrame(es[0], n);
    }
  }

  lemma CutPastFirst(es: seq<IngestEvent>, n: nat, base: nat)
    requires es != [] && FrameLen(es[0]) <= n <= TotalLen(es)
    ensures var e, rest, n' := es[0], es[1..], n - FrameLen(es[0]);
            var kept, kept' := es[..WholeFrames(es, n)], rest[..WholeFrames(rest, n')];
            && n' <= TotalLen(rest)
            && EncodeAll(es)[..n] == EncodeFrame(e) + EncodeAll(rest)[..n']
            && TotalLen(kept) == FrameLen(e) + TotalLen(kept')
            && Entries(base, kept) == [Entry(e, base + FrameLen(e))] + Entries(base + FrameLen(e), kept')
  {
    hide EncodeFrame;
    var kept := es[..WholeFrames(es, n)];
    assert kept[1..] == es[1..][..WholeFrames(es[1..], n - FrameLen(es[0]))];
  }

  /** The uncut log reads back as exactly what was written. */
  lemma ReadBack(es: seq<IngestEvent>, base: nat)
    requires AllFramable(es)
    ensures ParseAll(EncodeAll(es), base) == Replay(Entries(base, es), base + TotalLen(es), true)
  {
    hide Framable, EncodeAll, ParseAll;
    var n := TotalLen(es);
    assert EncodeAll(es)[..n] == EncodeAll(es);
    TornTail(es, n, base);
    AllFramesEndByTheEnd(es);
  }

  lemma AllFramesEndByTheEnd(es: seq<IngestEvent>)
    ensures es[..WholeFrames(es, TotalLen(es))] == es
  {
  }

  function Events(xs: seq<Entry>): (es: seq<IngestEvent>)
    ensures |es| == |xs|
    ensures forall i :: 0 <= i < |xs| ==> es[i] == xs[i].event
  {
    seq(|xs|, i requires 0 <= i < |xs| => xs[i].event)
  }

  lemma EventsOfEntries(base: nat, es: seq<IngestEvent>)
    ensures Events(Entries(base, es)) == es
  {
    EntriesAreFrameEnds(base, es);
  }

  /** Whatever bytes it is given, the reader returns framable events at the offsets of their own frame ends. */
  lemma {:induction false} ParsedEntries(s: seq<byte>, base: nat)
    ensures var r := ParseAll(s, base);
            && AllFramable(Events(r.entries))
            && r.entries == Entries(base, Events(r.entries))
            && r.end == base + TotalLen(Events(r.entries))
    decreases |s|
  {
    hide Parse;
    match Parse(s)
    case AtEof =>
    case Broken(_, _) =>
    case Whole(e, n) =>
      ParsedEntries(s[n..], base + n);
      var r, rest := ParseAll(s, base), ParseAll(s[n..], base + n);
      assert Events(r.entries) == [e] + Events(rest.entries);
      assert Events(r.entries)[1..] == Events(rest.entries);
  }

  lemma FirstEntry(s: seq<byte>, base: nat)
    requires ParseAll(s, base).entries != []
    ensures Parse(s).Whole?
    ensures var n := Parse(s).size;
            var rest := ParseAll(s[n..], base + n);
            && ParseAll(s, base).entries[0].offset == base + n
            && ParseAll(s, base) == rest.(entries := ParseAll(s, base).entries)
            && ParseAll(s, base).entries[1..] == rest.entries
            && forall k :: 0 < k < |ParseAll(s, base).entries| ==>
                 && ParseAll(s, base).entries[k] == rest.entries[k - 1]
                 && ParseAll(s, base).entries[k + 1..] == rest.entries[k..]
  {
    hide Parse, Framable;
  }

  /** Reading on from any offset the reader has reported yields the remaining frames at the same offsets. */
  lemma {:induction false} Resume(s: seq<byte>, base: nat, k: nat)
    requires k < |ParseAll(s, base).entries|
    ensures var r := ParseAll(s, base);
            var at := r.entries[k].offset;
            && base < at <= base + |s|
            && ParseAll(s[at - base..], at) == r.(entries := r.entries[k + 1..])
    decreases k
  {
    hide Parse, Framable, ParseAll;
    FirstEntry(s, base);
    if k > 0 {
      var n := Parse(s).size;
      var rest := ParseAll(s[n..], base + n);
      Resume(s[n..], base + n, k - 1);
      var at := rest.entries[k - 1].offset;
      assert s[at - base..] == s[n..][at - (base + n)..];
    }
  }
}
