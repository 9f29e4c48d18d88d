/**
 * The listener (`Client._listen`): it cuts the bytes the peer sends into frames of a
 * 16-byte header and `length` payload bytes, decodes each payload as UTF-8 text and
 * classifies the frame by its tag. The stream is a finite byte sequence here.
 */
module Inbound {
  import opened Bytes
  import opened Optional
  import opened Seqs
  import Utf8
  import opened Wire

  /** The notification surfaced for one received frame. */
  datatype Message =
    | Print(text: string)
    | Error(text: string)
    | Unknown(tag: byte, text: string)

  /** Why the listener stopped. */
  datatype Ending =
    /** `IncompleteReadError`, caught: the stream ended inside a header or a payload. */
    | PeerClosed
    /** `UnicodeDecodeError`, not caught: a payload was not UTF-8 and the task dies with it. */
    | BadText

  /** The tag a message arrives with. */
  function TagOf(m: Message): byte {
    match m
    case Print(_) => PRINT
    case Error(_) => ERROR
    case Unknown(tag, _) => tag
  }

  /** An `Unknown` message never carries one of the recognised tags. */
  predicate WellTagged(m: Message) {
    m.Unknown? ==> m.tag != PRINT && m.tag != ERROR
  }

  /** The `if`/`elif`/`else` on `msg_type` in `_listen`. */
  function Classify(tag: byte, text: string): (m: Message)
    ensures m.Print? <==> tag == PRINT
    ensures m.Error? <==> tag == ERROR
    ensures TagOf(m) == tag && m.text == text && WellTagged(m)
  {
    if tag == PRINT then Print(text)
    else if tag == ERROR then Error(text)
    else Unknown(tag, text)
  }

  /** Classification loses nothing: every well-tagged message is the class of its own tag and text. */
  lemma ClassifyOwnTag(m: Message)
    requires WellTagged(m)
    ensures Classify(TagOf(m), m.text) == m
  {
  }

  /**
   * What the listener surfaces, in stream order, from the whole of `stream`, and why it
   * stops. Each frame takes its 16 header bytes and then exactly `length` payload bytes.
   */
  function Dispatch(stream: seq<byte>): (r: (seq<Message>, Ending))
    ensures forall i :: 0 <= i < |r.0| ==> WellTagged(r.0[i])
    decreases |stream|
  {
    if |stream| < HEADER_SIZE then ([], PeerClosed)
    else
      var h := DecodeHeader(stream[..HEADER_SIZE]);
      if |stream| - HEADER_SIZE < h.length then ([], PeerClosed)
      else
        match Utf8.Decode(stream[HEADER_SIZE..HEADER_SIZE + h.length])
        case None => ([], BadText)
        case Some(text) =>
          var rest := Dispatch(stream[HEADER_SIZE + h.length..]);
          ([Classify(h.tag, text)] + rest.0, rest.1)
  }

  /** The `while True` loop of `_listen`; `unread` is what the reader has not yet delivered. */
  method Listen(stream: seq<byte>) returns (received: seq<Message>, ending: Ending)
    ensures (received, ending) == Dispatch(stream)
  {
    received := [];
    var unread := stream;
    while true
      invariant Dispatch(stream).0 == received + Dispatch(unread).0
      invariant Dispatch(stream).1 == Dispatch(unread).1
      decreases |unread|
    {
      if |unread| < HEADER_SIZE {
        assert received + Dispatch(unread).0 == received;
        return received, PeerClosed;
      }
      var header := unread[..HEADER_SIZE];
      var msgType := header[0];
      var length := UnpackU64(header[LENGTH_OFFSET..]);
      if |unread| - HEADER_SIZE < length {
        assert received + Dispatch(unread).0 == received;
        return received, PeerClosed;
      }
      var message := Utf8.Decode(unread[HEADER_SIZE..HEADER_SIZE + length]);
      if message.None? {
        assert received + Dispatch(unread).0 == received;
        return received, BadText;
      }
      var next := unread[HEADER_SIZE + length..];
      Associative(received, [Classify(msgType, message.value)], Dispatch(next).0);
      received := received + [Classify(msgType, message.value)];
      unread := next;
    }
  }

  /** A message the peer can send: well tagged, with a payload whose length fits the header. */
  predicate Sendable(m: Message) {
    WellTagged(m) && |Utf8.Encode(m.text)| < U64_LIMIT
  }

  /** The bytes a peer writes to deliver `ms`, one frame per message. */
  function Transmit(ms: seq<Message>): (r: seq<byte>)
    requires forall i :: 0 <= i < |ms| ==> Sendable(ms[i])
  {
    if ms == [] then []
    else
      assert Sendable(ms[0]);
      Frame(TagOf(ms[0]), Utf8.Encode(ms[0].text)) + Transmit(ms[1..])
  }

  /** A complete frame with UTF-8 text is surfaced as one message and the listener goes on after it. */
  lemma DispatchFrame(tag: byte, text: string, rest: seq<byte>)
    requires |Utf8.Encode(text)| < U64_LIMIT
    ensures Dispatch(Frame(tag, Utf8.Encode(text)) + rest)
            == ([Classify(tag, text)] + Dispatch(rest).0, Dispatch(rest).1)
  {
    var payload := Utf8.Encode(text);
    var s := Frame(tag, payload) + rest;
    FrameLayout(tag, payload);
    assert s[..HEADER_SIZE] == Frame(tag, payload)[..HEADER_SIZE];
    assert s[HEADER_SIZE..HEADER_SIZE + |payload|] == payload;
    assert s[HEADER_SIZE + |payload|..] == rest;
    Utf8.DecodeEncode(text);
  }

  /**
   * Any 16 bytes whose length field matches the payload start a frame, whatever bytes 1 to 7
   * hold: the listener reads only the tag and the length from a header.
   */
  lemma DispatchAnyHeader(h: seq<byte>, payload: seq<byte>, text: string, rest: seq<byte>)
    requires |h| == HEADER_SIZE && UnpackU64(h[LENGTH_OFFSET..]) == |payload|
    requires Utf8.Decode(payload) == Some(text)
    ensures Dispatch(h + payload + rest)
            == ([Classify(h[0], text)] + Dispatch(rest).0, Dispatch(rest).1)
  {
    var s := h + payload + rest;
    assert s[..HEADER_SIZE] == h;
    assert s[HEADER_SIZE..HEADER_SIZE + |payload|] == payload;
    assert s[HEADER_SIZE + |payload|..] == rest;
  }

  /** A payload that is not UTF-8 ends the listener there, surfacing nothing for that frame. */
  lemma DispatchBadText(tag: byte, payload: seq<byte>, rest: seq<byte>)
    requires |payload| < U64_LIMIT && Utf8.Decode(payload).None?
    ensures Dispatch(Frame(tag, payload) + rest) == ([], BadText)
  {
    var s := Frame(tag, payload) + rest;
    FrameLayout(tag, payload);
    assert s[..HEADER_SIZE] == Frame(tag, payload)[..HEADER_SIZE];
    assert s[HEADER_SIZE..HEADER_SIZE + |payload|] == payload;
  }

  /** A stream that ends inside a frame, in its header or in its payload, ends the listener quietly. */
  lemma DispatchCutFrame(tag: byte, payload: seq<byte>, k: nat)
    requires |payload| < U64_LIMIT && k < HEADER_SIZE + |payload|
    ensures Dispatch(Frame(tag, payload)[..k]) == ([], PeerClosed)
  {
    FrameLayout(tag, payload);
    var s := Frame(tag, payload)[..k];
    if HEADER_SIZE <= k {
      assert s[..HEADER_SIZE] == Frame(tag, payload)[..HEADER_SIZE];
    }
  }

  /** The listener recovers, in order, every message a peer transmitted, then goes on with what follows. */
  lemma {:induction false} DispatchTransmit(ms: seq<Message>, rest: seq<byte>)
    requires forall i :: 0 <= i < |ms| ==> Sendable(ms[i])
    ensures Dispatch(Transmit(ms) + rest) == (ms + Dispatch(rest).0, Dispatch(rest).1)
  {
    if ms == [] {
      assert Transmit(ms) + rest == rest;
      assert ms + Dispatch(rest).0 == Dispatch(rest).0;
    } else {
      var m := ms[0];
      assert Sendable(m);
      var tail := Transmit(ms[1..]) + rest;
      var frame := Frame(TagOf(m), Utf8.Encode(m.text));
      assert Transmit(ms) == frame + Transmit(ms[1..]);
      Associative(frame, Transmit(ms[1..]), rest);
      var after := Dispatch(rest);
      var later := Dispatch(tail);
      assert later == (ms[1..] + after.0, after.1) by {
        DispatchTransmit(ms[1..], rest);
      }
      assert Dispatch(frame + tail) == ([m] + later.0, later.1) by {
        DispatchFrame(TagOf(m), m.text, tail);
        ClassifyOwnTag(m);
      }
      HeadTail(ms, after.0);
    }
  }

  /** A peer that sends whole frames and then closes ends the listener quietly after all of them. */
  lemma DispatchTransmitted(ms: seq<Message>)
    requires forall i :: 0 <= i < |ms| ==> Sendable(ms[i])
    ensures Dispatch(Transmit(ms)) == (ms, PeerClosed)
  {
    var nothing: seq<byte> := [];
    DispatchTransmit(ms, nothing);
    assert Transmit(ms) + nothing == Transmit(ms);
    assert Dispatch(nothing) == ([], PeerClosed);
    assert ms + [] == ms;
  }

  /** A frame with an unrecognised tag, 99 carrying "hi", is surfaced with its tag and the listener goes on. */
  lemma UnknownTagTolerated(rest: seq<byte>)
    ensures Dispatch(Frame(99, Utf8.Encode("hi")) + rest)
            == ([Unknown(99, "hi")] + Dispatch(rest).0, Dispatch(rest).1)
  {
    DispatchFrame(99, "hi", rest);
  }

  /** A stream of one complete frame with UTF-8 text yields exactly its message, then ends quietly. */
  lemma DispatchSingle(tag: byte, text: string)
    requires |Utf8.Encode(text)| < U64_LIMIT
    ensures Dispatch(Frame(tag, Utf8.Encode(text))) == ([Classify(tag, text)], PeerClosed)
  {
    var nothing: seq<byte> := [];
    DispatchFrame(tag, text, nothing);
    assert Frame(tag, Utf8.Encode(text)) + nothing == Frame(tag, Utf8.Encode(text));
    assert Dispatch(nothing) == ([], PeerClosed);
    assert [Classify(tag, text)] + [] == [Classify(tag, text)];
  }

  /** A Print frame of length 13 carrying "Hello, world!" is surfaced as exactly that one Print. */
  lemma HelloWorldReceived(text: string)
    requires text == "Hello, world!"
    ensures |Utf8.Encode(text)| == 13
    ensures Dispatch(Frame(PRINT, Utf8.Encode(text))) == ([Print(text)], PeerClosed)
  {
    Utf8.EncodeAscii(text);
    DispatchSingle(PRINT, text);
  }
}
