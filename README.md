# msapipy client, modelled in Dafny

`msapipy.py` is a small asyncio client. It talks to a peer over one TCP connection, and every
frame in both directions is a 16-byte header followed by a payload. The header holds a type tag
in byte 0, seven zero bytes, and the payload length as a little-endian unsigned 64-bit integer
(`struct` format `<Q`) in bytes 8 to 15. The client sends two kinds of frame:

- `execute_script`: tag 0, the script as UTF-8.
- `update_setting`: tag 1, `"<key> true"` or `"<key> false"` as UTF-8.

A background listener cuts the peer's byte stream into frames. It decodes each payload as
UTF-8 and reports it as a Print (tag 1), an Error (tag 2) or an Unknown message carrying its
tag. A `Client` object moves between disconnected and connected through `attach` and `detach`.

This project models that core:

- `bytes.dfy` (`Bytes`): octets and the `<Q` pack/unpack, with both round trips.
- `utf8.dfy` (`Utf8`): UTF-8 as `str.encode` writes it and strict `bytes.decode` reads it,
  following RFC 3629. Decoding succeeds on exactly the encodings of strings, and each direction
  inverts the other.
- `wire.dfy` (`Wire`):
  - the tag constants of `IpcTypes` and `MessageTypes`;
  - `_build_header` as a method that fills a zeroed 16-byte array;
  - the header decoding inside `_listen`;
  - whole frames.
- `inbound.dfy` (`Inbound`):
  - the listener loop as a method over the finite sequence of bytes the peer sends;
  - the function `Dispatch` that specifies that loop;
  - a peer-side `Transmit` against which the listener is proved to recover every message.
- `commands.dfy` (`Commands`):
  - the two commands, their payload text and the frames they put on the wire;
  - a reader of the client's output, `ReadCommands`, which gives back the commands in the order
    they were sent.
- `session.dfy` (`Session`): the `Client` class, plus scenario methods built on it.
  - A connection is `Option<seq<byte>>` on both sides. The reader is the bytes the peer will
    send. The writer is the append-only log of everything written.
  - A ghost field `sent` records the commands issued. The class invariant says the writer's log
    is exactly the frames of `sent`.
- `seqs.dfy` (`Seqs`) and `option.dfy` (`Optional`): sequence identities and an option type.

Exceptions become values:

- `RuntimeError` from `attach`, `detach` and the commands becomes the `Outcome` values
  `AlreadyConnected` and `NotConnected`.
- A failed `open_connection` becomes `ConnectFailed`.
- The `struct.error` raised when a payload length reaches 2^64 becomes `LengthOverflow`.
- On the listener side, `IncompleteReadError` (caught) becomes the `PeerClosed` ending.
- `UnicodeDecodeError` (not caught, so it ends the listener task) becomes the `BadText` ending.

Two behaviours of the source worth noting:

- `attach` stores a given non-zero port before its connection check (msapipy.py:24-27), so a
  rejected second `attach` still changes the stored port; the connection is kept.
- The frame for `print(1)` declares length 8, the UTF-8 byte count of that 8-character script.

## Model

| member | source | states |
|---|---|---|
| Bytes.PackU64Digits | msapipy.py:70 | byte `i` of the packed length is the `i`-th base-256 digit, least significant first |
| Bytes.PackU64 | msapipy.py:70 | `struct.pack("<Q", n)` is exactly 8 bytes, and is defined only below 2^64, where `struct` raises otherwise |
| Bytes.UnpackU64 | msapipy.py:53 | `struct.unpack("<Q", b)` of 8 bytes is below 2^64 |
| Bytes.UnpackPack | msapipy.py:53 | unpacking a packed length gives that length back, for every length below 2^64 |
| Bytes.PackUnpack | msapipy.py:53 | every 8-byte string is the packing of the number it unpacks to |
| Utf8.Encode | msapipy.py:77 | an encoding takes between one and four bytes per character |
| Utf8.Decode | msapipy.py:56 | a successful strict decode gives at most one character per byte and at least one per four bytes |
| Utf8.DecodeEncodeChar | msapipy.py:56 | the decoder reads back an encoded character, whatever bytes follow it |
| Utf8.EncodeDecodeChar | msapipy.py:56 | the bytes the decoder accepts for one character are that character's encoding |
| Utf8.DecodeEncode | msapipy.py:56 | decoding the UTF-8 encoding of any string gives the string back |
| Utf8.EncodeDecode | msapipy.py:56 | a byte string that decodes is the encoding of what it decodes to |
| Utf8.DecodeIff | msapipy.py:56 | decoding gives `s` if and only if the bytes are the encoding of `s` |
| Utf8.EncodeAppend | msapipy.py:85 | encoding a concatenation concatenates the encodings |
| Utf8.EncodeAscii | msapipy.py:85 | an ASCII string encodes to one byte per character, each equal to its code |
| Wire.Header | msapipy.py:67-71 | a header is always 16 bytes |
| Wire.HeaderLayout | msapipy.py:67-71 | byte 0 is the tag, bytes 1 to 7 are zero, bytes 8 to 15 are the length's base-256 digits |
| Wire.BuildHeader | msapipy.py:67-71 | filling a zeroed 16-byte buffer with the tag and the packed length produces exactly `Header(tag, length)` |
| Wire.DecodeHeader | msapipy.py:52-53 | the decoded tag is byte 0, and the decoded length is below 2^64 |
| Wire.DecodeBuiltHeader | msapipy.py:52-53 | decoding a built header gives back its tag and length |
| Wire.RebuildDecodedHeader | msapipy.py:52-53 | rebuilding a decoded header reproduces it if and only if its bytes 1 to 7 are zero |
| Wire.FrameLayout | msapipy.py:79 | a frame is 16 + payload bytes; its header decodes to the tag and the payload length; the payload follows it |
| Wire.Frame | msapipy.py:79 | `header + payload` is 16 + payload bytes, begins with the tag and ends with the payload |
| Inbound.Classify | msapipy.py:58-63 | tag 1 gives Print and tag 2 gives Error, each in both directions; any other tag gives Unknown carrying that tag; the text is kept |
| Inbound.ClassifyOwnTag | msapipy.py:58-63 | every well-tagged message (no Unknown carrying tag 1 or 2) is the classification of its own tag and text |
| Inbound.Dispatch | msapipy.py:46-65 | every message the listener surfaces is well tagged: an Unknown message never carries tag 1 or 2 |
| Inbound.Listen | msapipy.py:46-65 | the loop surfaces exactly the messages of `Dispatch` in stream order, and stops for the same reason |
| Inbound.DispatchFrame | msapipy.py:48-63 | a whole frame with UTF-8 text yields its classified message, and the listener then carries on with the rest of the stream |
| Inbound.DispatchAnyHeader | msapipy.py:48-63 | any 16 bytes whose length field matches the payload start a frame, whatever bytes 1 to 7 hold: the listener reads only the tag and the length |
| Inbound.DispatchBadText | msapipy.py:55-56 | a payload that is not UTF-8 stops the listener with `BadText` and surfaces nothing for that frame |
| Inbound.DispatchCutFrame | msapipy.py:48-65 | a stream that ends inside a header or a payload stops the listener quietly with `PeerClosed` |
| Inbound.DispatchTransmit | msapipy.py:46-65 | the frames of any well-tagged messages are surfaced as exactly those messages, in order, before whatever follows |
| Inbound.DispatchTransmitted | msapipy.py:46-65 | a peer that sends whole frames and closes has every message surfaced, then `PeerClosed` |
| Inbound.UnknownTagTolerated | msapipy.py:62-63 | a frame with tag 99 carrying "hi" is surfaced as Unknown(99, "hi"), and the listener goes on |
| Inbound.DispatchSingle | msapipy.py:46-65 | a stream of one whole frame yields exactly that frame's message, then `PeerClosed` |
| Inbound.HelloWorldReceived | msapipy.py:58-59 | a tag-1 frame of length 13 carrying "Hello, world!" yields exactly one Print with that text |
| Commands.ParseSettingText | msapipy.py:85 | setting text reads back as its key and value, even when the key contains spaces |
| Commands.SettingTextOfParse | msapipy.py:85 | every text that reads as a setting is the setting text of what it reads as |
| Commands.SettingPayloadBytes | msapipy.py:85 | a setting payload is the key's UTF-8 bytes followed by the ASCII bytes of " true" or " false" |
| Commands.SuffixEncoding | msapipy.py:85 | " true" and " false" encode to their ASCII codes |
| Commands.SettingText | msapipy.py:85 | the setting text is the key, a space, then `true` (5 more characters) or `false` (6 more) |
| Commands.AsCommandOfCommand | msapipy.py:73-87 | a command's tag and payload text identify the command |
| Commands.ReadCommandFrame | msapipy.py:73-87 | reading the client's output recovers one command frame ahead of whatever follows it |
| Commands.ReadSerialized | msapipy.py:73-87 | the frames of a command sequence read back as that sequence, in order, ahead of what follows |
| Commands.ReadSerializedExactly | msapipy.py:73-87 | the client's output on its own reads back as exactly the commands sent |
| Commands.PrintOneFrame | msapipy.py:73-79 | the `print(1)` frame has 24 bytes: a header for tag 0 and length 8, then the 8 ASCII bytes of the script |
| Session.Client.constructor | msapipy.py:17-21 | a new client is disconnected and stores the given host and port |
| Session.Client.Connected | msapipy.py:27 | under the class invariant, the client holds a writer exactly when it holds a reader, so the `_writer` tests at msapipy.py:27, :36, :74 and :82 decide the whole connection state |
| Session.Client.Attach | msapipy.py:23-33 | a given non-zero port replaces the stored one first; when already connected the outcome is `AlreadyConnected` and the connection is unchanged; otherwise a refused connection is `ConnectFailed`, and a success connects with an empty write log |
| Session.Client.Detach | msapipy.py:35-42 | the close is taken to complete, and the client ends up disconnected; the outcome is `NotConnected` if it was not connected; host and port are unchanged |
| Session.Client.ExecuteScript | msapipy.py:73-79 | when disconnected: `NotConnected`, nothing written; when the encoding is too long to pack: `LengthOverflow`, nothing written; otherwise the log grows by exactly the tag-0 header for the script's byte length followed by those bytes |
| Session.Client.UpdateSetting | msapipy.py:81-87 | the same three cases, with the tag-1 frame of `"<key> true"` or `"<key> false"` |
| Session.Client.Write | msapipy.py:79 | a write appends its frame to the log and keeps the log equal to the frames of the commands sent |
| Session.Client.LogReadsBack | msapipy.py:73-87 | while connected, the write log reads back as exactly the commands sent on this connection, in call order |
| Session.AttachTwice | msapipy.py:23-30 | a second `attach` without `detach` fails with `AlreadyConnected` and keeps the first connection |
| Session.NeverAttached | msapipy.py:35-87 | on a client that never attached, `execute_script`, `update_setting` and `detach` all give `NotConnected` |
| Session.Reattach | msapipy.py:23-42 | after `detach` the client can attach again, and the new connection's log holds only frames written after the new `attach` |
| Session.ListenOnAttach | msapipy.py:30-33 | the listener started by `attach` reads the connection's own reader: a peer that sends whole frames for some messages and closes has exactly those messages surfaced, in order, then `PeerClosed` |
| Session.SessionLog | msapipy.py:90-99 | attaching on port 5553, executing a script and updating a setting writes output that reads back as exactly those two commands, in that order |

## Left out

- Concurrency.
  - `attach` starts the listener as an asyncio task that runs alongside the commands.
  - Here the listener is a separate method over the finite bytes of the connection's reader, so
    interleavings of reads and writes are not modelled.
  - `detach` does not cancel that task. What the task does after the stream is closed is not
    modelled.
- Session.Client.Detach: `writer.close()` and `wait_closed()` are not modelled beyond clearing
  reader and writer. If `wait_closed()` raises (msapipy.py:40), line 41 is skipped and the
  source client stays connected; the model's `Detach` always completes the close and
  disconnects.
- Session.Client.Attach: `asyncio.open_connection` becomes a parameter. It is `None` when the
  connection fails, otherwise the bytes the peer will send.
  - The host and port are stored, but they do not choose that parameter.
  - Python's `if port:` test is modelled for integer ports only: `None` and `0` keep the
    stored port.
- All console output of the listener, `attach` and `detach`. Classified messages are returned
  as values instead of printed.
- The listener's `if not header: break` at msapipy.py:49-50 is never taken, because
  `readexactly(16)` either returns 16 bytes or raises.
- Utf8.Encode: Python strings may hold lone surrogates, and encoding those raises
  `UnicodeEncodeError`. A Dafny `char` is a Unicode scalar value, so that error path is absent
  from `execute_script` and `update_setting`.
- `main()` and the `asyncio.run` entry point are left out, except for the call sequence that
  `Session.SessionLog` follows. The five-second sleep is not modelled.
- How TCP chunks the bytes and how much `readexactly` buffers: the stream is one finite
  sequence.
