/** The frame reader used for crash recovery. */
module WalReading {
  import opened Bytes
  import opened Codec
  import opened Utf8

  datatype FrameRead = EndOfFile | Frame(event: IngestEvent, offset: nat) | Failed(kind: ErrorKind)

  /** What a caller sees of a parse that left the reader at `offset`. */
  function Reported(p: Parsed, offset: nat): FrameRead {
    match p
    case AtEof => EndOfFile
    case Broken(kind, _) => Failed(kind)
    case Whole(e, _) => Frame(e, offset)
  }

  class WalReader {
    const file: seq<byte>   // the contents of the opened file
    var cursor: nat         // position of the file handle; a seek may have put it past the end
    var currentOffset: nat

    constructor (file: seq<byte>, startOffset: nat)
      ensures this.file == file && cursor == currentOffset == startOffset
    {
      this.file := file;
      cursor := startOffset;
      currentOffset := startOffset;
    }

    function Unread(): seq<byte>
      reads this
    {
      if cursor <= |file| then file[cursor..] else []
    }

    /** What calling `NextFrame` until it returns no frame would yield from here. */
    function Remaining(): Replay
      reads this
    {
      ParseAll(Unread(), currentOffset)
    }

    /** `Read::read`: as many of `n` bytes as are left. */
    method Read(n: nat) returns (bytes: seq<byte>)
      modifies this`cursor
      ensures bytes == old(Unread())[..if n <= |old(Unread())| then n else |old(Unread())|]
      ensures Unread() == old(Unread())[|bytes|..]
    {
      var unread := Unread();
      var k := if n <= |unread| then n else |unread|;
      bytes := unread[..k];
      cursor := cursor + k;
    }

    /**
     `Read::read_exact`: all of `n` bytes, or an error that leaves the cursor at the end of the file. Of the bytes `s`
     that were unread when the frame began, the first `k` have been taken.
     */
    method ReadExact(n: nat, ghost s: seq<byte>, ghost k: nat) returns (ok: bool, bytes: seq<byte>)
      requires k <= |s| && Unread() == s[k..]
      modifies this`cursor
      ensures ok == (k + n <= |s|)
      ensures ok ==> bytes == s[k..k + n] && Unread() == s[k + n..]
      ensures !ok ==> Unread() == s[|s|..]
    {
      bytes := Read(n);
      ok := |bytes| == n;
    }

    /** Reads the fields of one frame, leaving the cursor wherever the last read left it. */
    method ReadFields() returns (r: Parsed)
      modifies this`cursor
      ensures r == Parse(old(Unread()))
      ensures Unread() == old(Unread())[r.Taken()..]
    {
      hide ValidUtf8, FromLe16, FromLe32, Framable;
      ghost var s := Unread();
      var size := |Unread()|;
      var lenBuf := Read(2);
      if |lenBuf| == 0 {
        return AtEof;
      }
      if |lenBuf| < 2 {
        return Broken(UnexpectedEof, size);
      }
      var idxLen := FromLe16(lenBuf);
      var ok, index := ReadExact(idxLen, s, 2);
      if !ok {
        return Broken(UnexpectedEof, size);
      }
      if !ValidUtf8(index) {
        return Broken(InvalidData, 2 + idxLen);
      }
      r := ReadPayload(index, size, s);
    }

    /** The fields after the name `index`, of a frame that began with `size` unread bytes `s`. */
    method ReadPayload(index: seq<byte>, size: nat, ghost s: seq<byte>) returns (r: Parsed)
      requires size == |s| >= 2 + |index| && FromLe16(s[..2]) == |index| && s[2..2 + |index|] == index
      requires ValidUtf8(index) && Unread() == s[2 + |index|..]
      modifies this`cursor
      ensures r == Parse(s)
      ensures Unread() == s[r.Taken()..]
    {
      hide ValidUtf8, FromLe16, FromLe32, Framable;
      var idxLen := |index|;
      var ok, plenBuf := ReadExact(4, s, 2 + idxLen);
      if !ok {
        return Broken(UnexpectedEof, size);
      }
      var pLen := FromLe32(plenBuf);
      var payload;
      ok, payload := ReadExact(pLen, s, 6 + idxLen);
      if !ok {
        return Broken(UnexpectedEof, size);
      }
      var crc;
      ok, crc := ReadExact(4, s, 6 + idxLen + pLen);
      if !ok {
        return Broken(UnexpectedEof, size);
      }
      return Whole(IngestEvent(index, payload), 2 + idxLen + 4 + pLen + 4);
    }

    /**
     One call takes exactly the next frame of the replay. An error moves the file cursor but not `currentOffset`, and
     every call that is not at the end of the file leaves less to read.
     */
    method NextFrame() returns (r: FrameRead)
      modifies this
      ensures var p := Parse(old(Unread()));
              && r == Reported(p, currentOffset)
              && Unread() == old(Unread())[p.Taken()..]
              && currentOffset == old(currentOffset) + (if p.Whole? then p.size else 0)
      ensures match r
              case EndOfFile => old(Remaining()) == Replay([], currentOffset, true)
              case Failed(kind) =>
                && old(Remaining()) == Replay([], currentOffset, false)
                && Parse(old(Unread())).Broken? && Parse(old(Unread())).kind == kind
              case Frame(e, offset) =>
                old(Remaining()) == Remaining().(entries := [Entry(e, offset)] + Remaining().entries)
      ensures r != EndOfFile ==> |Unread()| < |old(Unread())|
    {
      hide Parse, ParseAll, Framable;
      ReadStep(Unread(), currentOffset);
      var p := ReadFields();
      if p.Whole? {
        currentOffset := currentOffset + p.size;
      }
      r := Reported(p, currentOffset);
    }
  }
}
