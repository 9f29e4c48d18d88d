/**
 * The command encoder: the two kinds of frame the client sends (`IpcTypes`), their
 * payloads, and how a reader of the client's output cuts that output back into commands.
 */
module Commands {
  import opened Bytes
  import opened Optional
  import opened Seqs
  import Utf8
  import opened Wire

  /** One call of `execute_script(script)` or `update_setting(key, value)`. */
  datatype Command = Execute(script: string) | Setting(key: string, value: bool)

  /** The setting payload text, `f"{key} {'true' if value else 'false'}"`. */
  function SettingText(key: string, value: bool): (t: string)
    ensures |t| == |key| + (if value then 5 else 6)
    ensures t[..|key|] == key && t[|key|] == ' '
  {
    key + " " + (if value then "true" else "false")
  }

  /**
   * Reads setting text back as a peer would: the key is everything before the final
   * " true" or " false" (a key may itself hold spaces); `None` for any other text.
   */
  function ParseSetting(t: string): Option<(string, bool)> {
    if |t| >= 5 && t[|t| - 5..] == " true" then Some((t[..|t| - 5], true))
    else if |t| >= 6 && t[|t| - 6..] == " false" then Some((t[..|t| - 6], false))
    else None
  }

  lemma ParseSettingText(key: string, value: bool)
    ensures ParseSetting(SettingText(key, value)) == Some((key, value))
  {
    var t := SettingText(key, value);
    if value {
      assert t[|t| - 5..] == " true";
      assert t[..|t| - 5] == key;
    } else {
      assert t[|t| - 6..] == " false";
      assert t[|t| - 5..] != " true" by {
        assert t[|t| - 5] == 'f';
      }
      assert t[..|t| - 6] == key;
    }
  }

  lemma SettingTextOfParse(t: string)
    requires ParseSetting(t).Some?
    ensures SettingText(ParseSetting(t).value.0, ParseSetting(t).value.1) == t
  {
    var (key, value) := ParseSetting(t).value;
    if value {
      assert t == t[..|t| - 5] + t[|t| - 5..];
    } else {
      assert t == t[..|t| - 6] + t[|t| - 6..];
    }
  }

  /** The bytes of a setting payload: the key's UTF-8 bytes, a space, then the ASCII word. */
  lemma SettingPayloadBytes(key: string, value: bool)
    ensures Utf8.Encode(SettingText(key, value)) == Utf8.Encode(key) + SuffixBytes(value)
  {
    var suffix := if value then " true" else " false";
    assert SettingText(key, value) == key + suffix;
    Utf8.EncodeAppend(key, suffix);
    SuffixEncoding(value);
  }

  /** The bytes that follow the key: a space and "true" or "false", in ASCII. */
  function SuffixBytes(value: bool): seq<byte> {
    if value then [0x20, 0x74, 0x72, 0x75, 0x65] else [0x20, 0x66, 0x61, 0x6C, 0x73, 0x65]
  }

  lemma SuffixEncoding(value: bool)
    ensures Utf8.Encode(if value then " true" else " false") == SuffixBytes(value)
  {
    if value {
      Utf8.EncodeAscii(" true");
    } else {
      Utf8.EncodeAscii(" false");
    }
  }

  /** The `IpcTypes` tag a command is sent with. */
  function Tag(c: Command): byte {
    match c
    case Execute(_) => IPC_EXECUTE
    case Setting(_, _) => IPC_SETTING
  }

  /** The payload text of a command, before encoding. */
  function Text(c: Command): string {
    match c
    case Execute(script) => script
    case Setting(key, value) => SettingText(key, value)
  }

  /** The UTF-8 payload of a command. */
  function Payload(c: Command): seq<byte> {
    Utf8.Encode(Text(c))
  }

  /** Whether the payload's length can be packed into a header. */
  predicate Fits(c: Command) {
    |Payload(c)| < U64_LIMIT
  }

  predicate AllFit(cs: seq<Command>) {
    forall i :: 0 <= i < |cs| ==> Fits(cs[i])
  }

  /** The frame one command puts on the wire, `header + payload`. */
  function CommandFrame(c: Command): seq<byte>
    requires Fits(c)
  {
    Frame(Tag(c), Payload(c))
  }

  /** The frames of `cs`, one after the other in call order. */
  function Serialize(cs: seq<Command>): seq<byte>
    requires AllFit(cs)
  {
    if cs == [] then []
    else
      assert Fits(cs[0]);
      Serialize(cs[..|cs| - 1]) + CommandFrame(cs[|cs| - 1])
  }

  /** Recognises a command from a frame's tag and payload text, as a reader of the client's output would. */
  function AsCommand(tag: byte, text: string): Option<Command> {
    if tag == IPC_EXECUTE then Some(Execute(text))
    else if tag == IPC_SETTING then
      match ParseSetting(text)
      case None => None
      case Some((key, value)) => Some(Setting(key, value))
    else None
  }

  /** Cuts a byte stream into command frames; `None` unless it is a whole number of well-formed ones. */
  function ReadCommands(log: seq<byte>): Option<seq<Command>>
    decreases |log|
  {
    if log == [] then Some([])
    else if |log| < HEADER_SIZE then None
    else
      var h := DecodeHeader(log[..HEADER_SIZE]);
      if |log| - HEADER_SIZE < h.length then None
      else
        match Utf8.Decode(log[HEADER_SIZE..HEADER_SIZE + h.length])
        case None => None
        case Some(text) =>
          match AsCommand(h.tag, text)
          case None => None
          case Some(c) =>
            match ReadCommands(log[HEADER_SIZE + h.length..])
            case None => None
            case Some(cs) => Some([c] + cs)
  }

  lemma AsCommandOfCommand(c: Command)
    ensures AsCommand(Tag(c), Text(c)) == Some(c)
  {
    if c.Setting? {
      ParseSettingText(c.key, c.value);
    }
  }

  /** A reader of the client's output recovers the command in front of whatever follows it. */
  lemma ReadCommandFrame(c: Command, rest: seq<byte>)
    requires Fits(c)
    ensures ReadCommands(CommandFrame(c) + rest)
            == match ReadCommands(rest) case None => None case Some(cs) => Some([c] + cs)
  {
    var payload := Payload(c);
    var s := CommandFrame(c) + rest;
    FrameLayout(Tag(c), payload);
    assert s[..HEADER_SIZE] == CommandFrame(c)[..HEADER_SIZE];
    assert s[HEADER_SIZE..HEADER_SIZE + |payload|] == payload;
    assert s[HEADER_SIZE + |payload|..] == rest;
    Utf8.DecodeEncode(Text(c));
    AsCommandOfCommand(c);
  }

  /** Reading the frames of `cs` gives back `cs` in the order they were sent. */
  lemma {:induction false} ReadSerialized(cs: seq<Command>, rest: seq<byte>)
    requires AllFit(cs)
    ensures ReadCommands(Serialize(cs) + rest)
            == match ReadCommands(rest) case None => None case Some(more) => Some(cs + more)
  {
    if cs == [] {
      assert Serialize(cs) + rest == rest;
      assert ReadCommands(rest).Some? ==> cs + ReadCommands(rest).value == ReadCommands(rest).value;
    } else {
      var init, last := cs[..|cs| - 1], cs[|cs| - 1];
      assert AllFit(init) by {
        forall i | 0 <= i < |init| ensures Fits(init[i]) {
          assert init[i] == cs[i];
        }
      }
      assert Fits(last);
      var tail := CommandFrame(last) + rest;
      assert Serialize(cs) == Serialize(init) + CommandFrame(last);
      Associative(Serialize(init), CommandFrame(last), rest);
      ReadCommandFrame(last, rest);
      ReadSerialized(init, tail);
      if ReadCommands(rest).Some? {
        var more := ReadCommands(rest).value;
        SnocAppend(init, last, more);
        InitLast(cs);
      }
    }
  }

  /** The client's output, read back on its own, is exactly the commands sent, in call order. */
  lemma ReadSerializedExactly(cs: seq<Command>)
    requires AllFit(cs)
    ensures ReadCommands(Serialize(cs)) == Some(cs)
  {
    var nothing: seq<byte> := [];
    ReadSerialized(cs, nothing);
    assert Serialize(cs) + nothing == Serialize(cs);
    assert ReadCommands(nothing) == Some([]);
    assert cs + [] == cs;
  }

  /** `execute_script("print(1)")` sends a tag-0 header declaring 8 bytes, then the 8 ASCII bytes of the script. */
  lemma PrintOneFrame(script: string)
    requires script == "print(1)"
    ensures |CommandFrame(Execute(script))| == HEADER_SIZE + 8
    ensures DecodeHeader(CommandFrame(Execute(script))[..HEADER_SIZE]) == HeaderFields(IPC_EXECUTE, 8)
    ensures CommandFrame(Execute(script))[HEADER_SIZE..] == [0x70, 0x72, 0x69, 0x6E, 0x74, 0x28, 0x31, 0x29]
  {
    var payload := Payload(Execute(script));
    Utf8.EncodeAscii(script);
    assert payload == [0x70, 0x72, 0x69, 0x6E, 0x74, 0x28, 0x31, 0x29];
    FrameLayout(IPC_EXECUTE, payload);
  }
}
