/**
 * The 16-byte frame header shared by both directions: the type tag in byte 0, seven
 * reserved bytes, and the payload length as a little-endian unsigned 64-bit integer in
 * bytes 8 to 15.
 */
module Wire {
  import opened Bytes

  const HEADER_SIZE: nat := 16
  /** Offset of the packed length inside the header. */
  const LENGTH_OFFSET: nat := 8

  /** `IpcTypes`: the tags of frames the client sends. */
  const IPC_EXECUTE: byte := 0
  const IPC_SETTING: byte := 1

  /** `MessageTypes`: the tags of frames the client recognises on receipt. */
  const PRINT: byte := 1
  const ERROR: byte := 2

  /** What a header says about the frame it starts. */
  datatype HeaderFields = HeaderFields(tag: byte, length: nat)

  /** The header `_build_header(tag, length)` returns, as a value. */
  function Header(tag: byte, length: nat): (h: seq<byte>)
    requires length < U64_LIMIT
    ensures |h| == HEADER_SIZE
  {
    [tag] + seq(LENGTH_OFFSET - 1, _ => 0) + PackU64(length)
  }

  /**
   * The byte layout of a header: the tag in byte 0, zeros in bytes 1 to 7, and the
   * length's base-256 digits in bytes 8 to 15, least significant first.
   */
  lemma HeaderLayout(tag: byte, length: nat)
    requires length < U64_LIMIT
    ensures Header(tag, length)[0] == tag
    ensures forall i :: 1 <= i < LENGTH_OFFSET ==> Header(tag, length)[i] == 0
    ensures forall i :: 0 <= i < U64_WIDTH ==>
              Header(tag, length)[LENGTH_OFFSET + i] as int == length / Pow256(i) % 256
  {
    PackU64Digits(length);
  }

  /**
   * `_build_header`: a zero-filled `bytearray(16)` updated in place, the tag stored in
   * byte 0 and the packed length written over bytes 8 to 15.
   */
  method BuildHeader(tag: byte, length: nat) returns (header: seq<byte>)
    requires length < U64_LIMIT
    ensures header == Header(tag, length)
  {
    var data := new byte[HEADER_SIZE](_ => 0);
    data[0] := tag;
    // `struct.pack_into("<Q", data, 8, length)`: the eight packed bytes land at offsets 8 to 15.
    var packed := PackU64(length);
    data[8], data[9], data[10], data[11] := packed[0], packed[1], packed[2], packed[3];
    data[12], data[13], data[14], data[15] := packed[4], packed[5], packed[6], packed[7];
    header := data[..];
    HeaderOfParts(tag, length, header);
  }

  /** A 16-byte string with the tag first, zeros after it and the packed length at offset 8 is the header. */
  lemma HeaderOfParts(tag: byte, length: nat, h: seq<byte>)
    requires length < U64_LIMIT && |h| == HEADER_SIZE && h[0] == tag
    requires forall k :: 1 <= k < LENGTH_OFFSET ==> h[k] == 0
    requires forall k :: 0 <= k < U64_WIDTH ==> h[LENGTH_OFFSET + k] == PackU64(length)[k]
    ensures h == Header(tag, length)
  {
    var expected := Header(tag, length);
    forall k | 0 <= k < HEADER_SIZE
      ensures h[k] == expected[k]
    {
      if LENGTH_OFFSET <= k {
        assert expected[k] == PackU64(length)[k - LENGTH_OFFSET];
        assert h[k] == h[LENGTH_OFFSET + (k - LENGTH_OFFSET)];
      }
    }
  }

  /** The decoding inline in `_listen`: `header[0]` and `struct.unpack("<Q", header[8:16])`. */
  function DecodeHeader(h: seq<byte>): (f: HeaderFields)
    requires |h| == HEADER_SIZE
    ensures f.tag == h[0] && f.length < U64_LIMIT
  {
    HeaderFields(h[0], UnpackU64(h[LENGTH_OFFSET..]))
  }

  /** Decoding a built header gives back the tag and the length it was built from. */
  lemma DecodeBuiltHeader(tag: byte, length: nat)
    requires length < U64_LIMIT
    ensures DecodeHeader(Header(tag, length)) == HeaderFields(tag, length)
  {
    assert Header(tag, length)[LENGTH_OFFSET..] == PackU64(length);
    UnpackPack(length);
  }

  /**
   * Rebuilding a decoded header reproduces it exactly when its reserved bytes are zero:
   * decoding ignores bytes 1 to 7, building zero-fills them.
   */
  lemma RebuildDecodedHeader(h: seq<byte>)
    requires |h| == HEADER_SIZE
    ensures Header(DecodeHeader(h).tag, DecodeHeader(h).length) == h
            <==> forall i :: 1 <= i < LENGTH_OFFSET ==> h[i] == 0
  {
    var f := DecodeHeader(h);
    if forall i :: 1 <= i < LENGTH_OFFSET ==> h[i] == 0 {
      var g := Header(f.tag, f.length);
      PackUnpack(h[LENGTH_OFFSET..]);
      assert g[LENGTH_OFFSET..] == h[LENGTH_OFFSET..];
      forall i | LENGTH_OFFSET <= i < HEADER_SIZE
        ensures g[i] == h[i]
      {
        assert g[i] == g[LENGTH_OFFSET..][i - LENGTH_OFFSET];
      }
    }
  }

  /** A whole frame, `header + payload`, as the client writes it. */
  function Frame(tag: byte, payload: seq<byte>): (r: seq<byte>)
    requires |payload| < U64_LIMIT
    ensures |r| == HEADER_SIZE + |payload| && r[HEADER_SIZE..] == payload
    ensures r[0] == tag
  {
    Header(tag, |payload|) + payload
  }

  /**
   * A frame is 16 + |payload| bytes; its first 16 decode to the tag and the payload's
   * length, and the rest is the payload.
   */
  lemma FrameLayout(tag: byte, payload: seq<byte>)
    requires |payload| < U64_LIMIT
    ensures |Frame(tag, payload)| == HEADER_SIZE + |payload|
    ensures DecodeHeader(Frame(tag, payload)[..HEADER_SIZE]) == HeaderFields(tag, |payload|)
    ensures Frame(tag, payload)[HEADER_SIZE..] == payload
  {
    assert Frame(tag, payload)[..HEADER_SIZE] == Header(tag, |payload|);
    DecodeBuiltHeader(tag, |payload|);
  }
}
