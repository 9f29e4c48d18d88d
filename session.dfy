/**
 * The `Client` object: its connection state (disconnected while `_writer` is `None`),
 * the `attach`/`detach` transitions, and the two commands it writes while connected.
 * The connection's writer is the append-only log of the bytes written to it; its reader
 * is the finite sequence of bytes the peer sends, which `Inbound.Listen` consumes.
 */
module Session {
  import opened Bytes
  import opened Optional
  import Utf8
  import opened Wire
  import opened Commands
  import Inbound

  const DEFAULT_HOST: string := "127.0.0.1"
  const DEFAULT_PORT: int := 5553

  /** How a call on the client ends: normally, or with the exception the source raises. */
  datatype Outcome =
    | Done
    /** `RuntimeError("AlreadyInjectedError: ...")` from `attach`. */
    | AlreadyConnected
    /** `RuntimeError("NotInjectedError: ...")` from `detach` and both commands. */
    | NotConnected
    /** `asyncio.open_connection` raised: nothing was connected. */
    | ConnectFailed
    /** `struct.error` from packing a payload length of 2^64 or more. */
    | LengthOverflow

  class Client {
    var host: string
    var port: int
    /** `_reader`: the bytes the peer sends on the open connection. */
    var reader: Option<seq<byte>>
    /** `_writer`: every byte written to the open connection, in write order. */
    var writer: Option<seq<byte>>
    /** The commands written on the open connection, in call order. */
    ghost var sent: seq<Command>

    /** Reader and writer are set and cleared together; the writer's log is the frames of `sent`. */
    ghost predicate Valid()
      reads this
    {
      (reader.Some? <==> writer.Some?)
      && AllFit(sent)
      && if writer.Some? then writer.value == Serialize(sent) else sent == []
    }

    /** `self._writer is not None`. */
    predicate Connected()
      reads this
      ensures Valid() ==> (Connected() <==> reader.Some?)
    {
      writer.Some?
    }

    /** `Client(host="127.0.0.1", port=5553)`: created disconnected. */
    constructor (host: string := DEFAULT_HOST, port: int := DEFAULT_PORT)
      ensures Valid() && !Connected() && reader.None?
      ensures this.host == host && this.port == port
    {
      this.host := host;
      this.port := port;
      reader := None;
      writer := None;
      sent := [];
    }

    /**
     * `attach(port)`. A given non-zero `port` replaces the stored one first, even when the
     * call then fails. `connection` is what `asyncio.open_connection` produces: `None` when
     * it raises, otherwise the bytes the peer will send on the new connection.
     */
    method Attach(connection: Option<seq<byte>>, port: Option<int> := None) returns (outcome: Outcome)
      requires Valid()
      modifies this
      ensures Valid() && host == old(host)
      ensures this.port == if port.Some? && port.value != 0 then port.value else old(this.port)
      ensures old(Connected()) ==>
                outcome == AlreadyConnected
                && reader == old(reader) && writer == old(writer) && sent == old(sent)
      ensures !old(Connected()) && connection.None? ==>
                outcome == ConnectFailed && !Connected() && reader.None?
      ensures !old(Connected()) && connection.Some? ==>
                outcome == Done && Connected() && reader == connection && writer == Some([]) && sent == []
    {
      if port.Some? && port.value != 0 {
        this.port := port.value;
      }
      if writer.Some? {
        return AlreadyConnected;
      }
      if connection.None? {
        return ConnectFailed;
      }
      reader, writer := connection, Some([]);
      sent := [];
      outcome := Done;
    }

    /** `detach()`: closes the connection and clears reader and writer. */
    method Detach() returns (outcome: Outcome)
      requires Valid()
      modifies this
      ensures Valid() && !Connected() && reader.None?
      ensures outcome == if old(Connected()) then Done else NotConnected
      ensures host == old(host) && port == old(port)
    {
      if writer.None? {
        return NotConnected;
      }
      reader, writer := None, None;
      sent := [];
      outcome := Done;
    }

    /** `execute_script(script)`: writes a tag-0 frame carrying the script's UTF-8 bytes. */
    method ExecuteScript(script: string) returns (outcome: Outcome)
      requires Valid()
      modifies this`writer, this`sent
      ensures Valid()
      ensures !old(Connected()) ==>
                outcome == NotConnected && writer == old(writer) && sent == old(sent)
      ensures old(Connected()) && |Utf8.Encode(script)| >= U64_LIMIT ==>
                outcome == LengthOverflow && writer == old(writer) && sent == old(sent)
      ensures old(Connected()) && |Utf8.Encode(script)| < U64_LIMIT ==>
                outcome == Done
                && writer == Some(old(writer).value
                                  + Header(IPC_EXECUTE, |Utf8.Encode(script)|) + Utf8.Encode(script))
                && |writer.value| == |old(writer).value| + HEADER_SIZE + |Utf8.Encode(script)|
                && sent == old(sent) + [Execute(script)]
    {
      if writer.None? {
        return NotConnected;
      }
      var encoded := Utf8.Encode(script);
      if |encoded| >= U64_LIMIT {
        return LengthOverflow;
      }
      var header := BuildHeader(IPC_EXECUTE, |encoded|);
      Write(Execute(script), header + encoded);
      assert writer.value == old(writer).value + header + encoded;
      outcome := Done;
    }

    /** `update_setting(key, value)`: writes a tag-1 frame carrying `"<key> true"` or `"<key> false"`. */
    method UpdateSetting(key: string, value: bool) returns (outcome: Outcome)
      requires Valid()
      modifies this`writer, this`sent
      ensures Valid()
      ensures !old(Connected()) ==>
                outcome == NotConnected && writer == old(writer) && sent == old(sent)
      ensures old(Connected()) && |Utf8.Encode(SettingText(key, value))| >= U64_LIMIT ==>
                outcome == LengthOverflow && writer == old(writer) && sent == old(sent)
      ensures old(Connected()) && |Utf8.Encode(SettingText(key, value))| < U64_LIMIT ==>
                var payload := Utf8.Encode(SettingText(key, value));
                outcome == Done
                && writer == Some(old(writer).value + Header(IPC_SETTING, |payload|) + payload)
                && sent == old(sent) + [Setting(key, value)]
    {
      if writer.None? {
        return NotConnected;
      }
      var payload := Utf8.Encode(SettingText(key, value));
      if |payload| >= U64_LIMIT {
        return LengthOverflow;
      }
      var header := BuildHeader(IPC_SETTING, |payload|);
      Write(Setting(key, value), header + payload);
      assert writer.value == old(writer).value + header + payload;
      outcome := Done;
    }

    /** What has been written on the open connection reads back as the commands sent, in call order. */
    lemma LogReadsBack()
      requires Valid() && Connected()
      ensures ReadCommands(writer.value) == Some(sent)
    {
      ReadSerializedExactly(sent);
    }

    /** `self._writer.write(frame)`, recording which command the frame carries. */
    method Write(c: Command, frame: seq<byte>)
      requires Valid() && Connected() && Fits(c) && frame == CommandFrame(c)
      modifies this`writer, this`sent
      ensures Valid()
      ensures writer == Some(old(writer).value + frame) && sent == old(sent) + [c]
    {
      var cs := sent + [c];
      assert cs[..|cs| - 1] == sent;
      assert AllFit(cs) by {
        forall i | 0 <= i < |cs| ensures Fits(cs[i]) {
          if i < |sent| {
            assert cs[i] == sent[i];
          }
        }
      }
      writer := Some(writer.value + frame);
      sent := cs;
    }
  }

  /** A second `attach` without `detach` fails and keeps the first connection. */
  method AttachTwice(first: seq<byte>, second: Option<seq<byte>>)
    returns (o1: Outcome, o2: Outcome, kept: bool)
    ensures o1 == Done && o2 == AlreadyConnected && kept
  {
    var client := new Client();
    o1 := client.Attach(Some(first));
    o2 := client.Attach(second);
    kept := client.reader == Some(first) && client.writer == Some([]);
  }

  /** Both commands and `detach` fail with `NotConnected` on a client that never attached. */
  method NeverAttached(script: string, key: string, value: bool)
    returns (o1: Outcome, o2: Outcome, o3: Outcome)
    ensures o1 == NotConnected && o2 == NotConnected && o3 == NotConnected
  {
    var client := new Client();
    o1 := client.ExecuteScript(script);
    o2 := client.UpdateSetting(key, value);
    o3 := client.Detach();
  }

  /** After `detach` the client may `attach` again, and it starts a fresh write log. */
  method Reattach(first: seq<byte>, second: seq<byte>, script: string)
    returns (o1: Outcome, o2: Outcome, o3: Outcome, log: seq<byte>)
    requires |Utf8.Encode(script)| < U64_LIMIT
    ensures o1 == Done && o2 == Done && o3 == Done
    ensures log == Frame(IPC_EXECUTE, Utf8.Encode(script))
  {
    var client := new Client();
    o1 := client.Attach(Some(first));
    var _ := client.ExecuteScript(script);
    o2 := client.Detach();
    o3 := client.Attach(Some(second));
    var _ := client.ExecuteScript(script);
    log := client.writer.value;
  }

  /**
   * The listener that `attach` starts reads the connection's own reader: when the peer sends
   * whole frames for `ms` and closes, it surfaces exactly `ms`, in order, then stops quietly.
   */
  method ListenOnAttach(ms: seq<Inbound.Message>)
    returns (outcome: Outcome, received: seq<Inbound.Message>, ending: Inbound.Ending)
    requires forall i :: 0 <= i < |ms| ==> Inbound.Sendable(ms[i])
    ensures outcome == Done && received == ms && ending == Inbound.PeerClosed
  {
    var client := new Client();
    outcome := client.Attach(Some(Inbound.Transmit(ms)));
    received, ending := Inbound.Listen(client.reader.value);
    Inbound.DispatchTransmitted(ms);
  }

  /** The output of a session reads back as the commands issued, in call order. */
  method SessionLog(script: string, key: string, value: bool, inbound: seq<byte>)
    returns (log: seq<byte>)
    requires |Utf8.Encode(script)| < U64_LIMIT && |Utf8.Encode(SettingText(key, value))| < U64_LIMIT
    ensures ReadCommands(log) == Some([Execute(script), Setting(key, value)])
  {
    var client := new Client();
    var _ := client.Attach(Some(inbound), Some(5553));
    assert client.Valid() && client.Connected() && client.sent == [];
    var _ := client.ExecuteScript(script);
    assert client.Valid() && client.Connected() && client.sent == [Execute(script)] by {
      assert [] + [Execute(script)] == [Execute(script)];
    }
    var _ := client.UpdateSetting(key, value);
    ghost var cmds := client.sent;
    assert cmds == [Execute(script), Setting(key, value)] by {
      assert [Execute(script)] + [Setting(key, value)] == [Execute(script), Setting(key, value)];
    }
    log := client.writer.value;
    client.LogReadsBack();
  }
}
