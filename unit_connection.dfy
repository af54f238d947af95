/**
 * IoTropolisUnitConnection: one registered TCP client. Its fields are the
 * ones onReadyRead updates in place; every method is proved to change them
 * exactly as the session functions of UnitSession say, so the protocol
 * properties proved about those functions hold of the object.
 */
module Connection {
  import opened Json
  import opened Components
  import opened LineProtocol
  import opened UnitSession
  import SessionProperties

  /** The names of a list of components, in order (the loops of sensorNames and actuatorNames). */
  method Names(cs: seq<IOComponent>) returns (names: seq<string>)
    ensures |names| == |cs|
    ensures forall i :: 0 <= i < |cs| ==> names[i] == cs[i].name
  {
    names := [];
    var i := 0;
    while i < |cs|
      invariant 0 <= i <= |cs|
      invariant |names| == i
      invariant forall k :: 0 <= k < i ==> names[k] == cs[k].name
    {
      names := names + [cs[i].name];
      i := i + 1;
    }
  }

  class UnitConnection {
    /** The textual peer address of the socket. */
    const peerAddress: string
    /** The id the registration server assigns (0 until it does). */
    var unitID: nat

    var helloDone: bool
    var describeDone: bool
    var unknownCommandCount: nat
    var unitType: string
    var unitSubtype: string
    var sensors: seq<IOComponent>
    var actuators: seq<IOComponent>
    /** The socket has been disconnected from the host. */
    var closed: bool
    /** Everything written to the socket, emitted, or done to the transport, in order. */
    var outputs: seq<Output>

    /** The fields as a session value. */
    function State(): Session
      reads this
    {
      Session(helloDone, describeDone, unknownCommandCount, unitType, unitSubtype,
              sensors, actuators, closed, outputs)
    }

    /** The session invariant holds of the fields. */
    ghost predicate Valid()
      reads this
    {
      Inv(State())
    }

    /** The constructor: flags false, counter 0, nothing declared, socket open. */
    constructor(peer: string)
      ensures State() == Initial() && Valid()
      ensures peerAddress == peer && unitID == 0
    {
      peerAddress := peer;
      unitID := 0;
      helloDone := false;
      describeDone := false;
      unknownCommandCount := 0;
      unitType := "";
      unitSubtype := "";
      sensors := [];
      actuators := [];
      closed := false;
      outputs := [];
      SessionProperties.InitialInv();
    }

    /** ipAddress: the peer address with an IPv4-mapped "::ffff:" prefix removed. */
    function IpAddress(): (ip: string)
      ensures MappedPrefix <= peerAddress ==> peerAddress == MappedPrefix + ip
      ensures !(MappedPrefix <= peerAddress) ==> ip == peerAddress
    {
      StripMappedPrefix(peerAddress)
    }

    /** setUnitID: only the id changes. */
    method SetUnitID(id: nat)
      modifies this
      ensures unitID == id && State() == old(State())
    {
      unitID := id;
    }

    /** sensorNames: the declared sensor names, in order. */
    method SensorNames() returns (names: seq<string>)
      ensures |names| == |sensors|
      ensures forall i :: 0 <= i < |sensors| ==> names[i] == sensors[i].name
    {
      names := Names(sensors);
    }

    /** actuatorNames: the declared actuator names, in order. */
    method ActuatorNames() returns (names: seq<string>)
      ensures |names| == |actuators|
      ensures forall i :: 0 <= i < |actuators| ==> names[i] == actuators[i].name
    {
      names := Names(actuators);
    }

    /** sendReply: write a line, only while the socket is open. */
    method SendReply(msg: string)
      modifies this
      ensures State() == Reply(old(State()), msg) && unitID == old(unitID)
    {
      if !closed {
        outputs := outputs + [Send(msg)];
      }
    }

    /** emit of one of the connection's signals. */
    method EmitSignal(e: Event)
      modifies this
      ensures State() == Signal(old(State()), e) && unitID == old(unitID)
    {
      outputs := outputs + [Emit(e)];
    }

    /** failProtocol: protocolError first, then the client message if any, then disconnectFromHost. */
    method FailProtocol(msg: string, clientMsg: string)
      modifies this
      ensures State() == Fail(old(State()), msg, clientMsg) && unitID == old(unitID)
    {
      EmitSignal(ProtocolError(msg));
      if clientMsg != "" {
        SendReply(clientMsg);
      }
      outputs := outputs + [CloseTransport];
      closed := true;
    }

    /** resetUnknownCommandCounter: only the counter changes. */
    method ResetUnknownCommandCounter()
      modifies this
      ensures State() == old(State()).(unknownCount := 0) && unitID == old(unitID)
    {
      unknownCommandCount := 0;
    }

    /** The list parseComponents fills for a category. */
    function List(cat: Category): seq<IOComponent>
      reads this
    {
      match cat
      case Sensors => sensors
      case Actuators => actuators
    }

    /** Replace the list of a category in place; nothing else changes. */
    method SetList(cat: Category, cs: seq<IOComponent>)
      modifies this
      ensures List(cat) == cs && unitID == old(unitID)
      ensures State() == WithList(old(State()), cat, cs)
    {
      match cat
      case Sensors => sensors := cs;
      case Actuators => actuators := cs;
    }

    /**
     * One pass of the loop of parseComponents: append the component of the
     * entry, or fail the protocol and report false when the entry is not an
     * object or not a valid component.
     */
    method AppendEntry(v: Json, cat: Category) returns (ok: bool)
      modifies this
      ensures ok == GoodEntry(v) && unitID == old(unitID)
      ensures ok ==> List(cat) == old(List(cat)) + [Decode(v)] &&
                     State() == WithList(old(State()), cat, List(cat))
      ensures !ok ==> State() == Fail(old(State()), EntryMessages(cat, Rejection(v)).0, EntryMessages(cat, Rejection(v)).1)
    {
      if !v.JObject? {
        var m := EntryMessages(cat, NotAnObject);
        FailProtocol(m.0, m.1);
        return false;
      }
      var (c, entryOk) := FromJson(v.members);
      if !entryOk {
        var m := EntryMessages(cat, MissingNameOrFormat);
        FailProtocol(m.0, m.1);
        return false;
      }
      SetList(cat, List(cat) + [c]);
      return true;
    }

    /**
     * The parseComponents lambda: clear the target list, then append the
     * component of each entry, failing the protocol at the first entry that is
     * not an object or not a valid component.
     */
    method ParseComponents(arr: seq<Json>, cat: Category) returns (ok: bool)
      modifies this
      ensures ok == ParseInto(old(State()), arr, cat).1
      ensures State() == ParseInto(old(State()), arr, cat).0 && unitID == old(unitID)
    {
      ghost var start := State();
      SessionProperties.WithListOverwrite(start, cat, List(cat), []);
      SetList(cat, []);
      var i := 0;
      while i < |arr|
        invariant i <= |arr| && AllGood(arr[..i]) && List(cat) == DecodeAll(arr[..i])
        invariant State() == WithList(start, cat, List(cat)) && unitID == old(unitID)
      {
        ghost var done := List(cat);
        var entryOk := AppendEntry(arr[i], cat);
        if !entryOk {
          SessionProperties.ParseIntoStopsAt(start, arr, cat, i);
          return false;
        }
        SessionProperties.AllGoodSnoc(arr, i);
        SessionProperties.WithListOverwrite(start, cat, done, List(cat));
        i := i + 1;
      }
      assert arr[..i] == arr;
      SessionProperties.ParseIntoAccept(start, arr, cat);
      return true;
    }

    /** The HELLO branch of the loop body of onReadyRead. */
    method OnHello(jsonPart: string, parse: string -> Document)
      modifies this
      ensures State() == HandleHello(old(State()), jsonPart, parse) && unitID == old(unitID)
    {
      if helloDone {
        SendReply("HELLO_DONE");
        return;
      }
      if jsonPart == [] {
        FailProtocol("HELLO missing JSON payload", "ERROR: HELLO requires JSON payload");
        return;
      }
      var doc := parse(jsonPart);
      if doc.Malformed? {
        FailProtocol("HELLO invalid JSON", "ERROR: HELLO invalid JSON");
        return;
      }
      var obj := DocumentObject(doc.root);
      var protocol := StringMember(obj, "protocol");
      var version := StringMember(obj, "version");
      if protocol != "IoTropolis" || version != "1.0" {
        FailProtocol("HELLO protocol/version mismatch", "ERROR: HELLO protocol/version mismatch");
        return;
      }
      helloDone := true;
      ResetUnknownCommandCounter();
      SendReply("HELLO_ACK");
      EmitSignal(HelloCompleted);
    }

    /** The DESCRIBE branch of onReadyRead once the payload has the four required members. */
    method OnDescribeFields(obj: map<string, Json>)
      modifies this
      ensures State() == DescribeFields(old(State()), obj) && unitID == old(unitID)
    {
      unitType := StringMember(obj, "type");
      unitSubtype := StringMember(obj, "subtype");
      var ok := ParseComponents(ArrayMember(obj, "sensors"), Sensors);
      if !ok {
        return;
      }
      ok := ParseComponents(ArrayMember(obj, "actuators"), Actuators);
      if !ok {
        return;
      }
      describeDone := true;
      ResetUnknownCommandCounter();
      SendReply("DESCRIBE_ACK");
      EmitSignal(DescribeCompleted);
    }

    /** The DESCRIBE branch of the loop body of onReadyRead. */
    method OnDescribe(jsonPart: string, parse: string -> Document)
      modifies this
      ensures State() == HandleDescribe(old(State()), jsonPart, parse) && unitID == old(unitID)
    {
      if describeDone {
        SendReply("DESCRIBE_DONE");
        return;
      }
      if jsonPart == [] {
        FailProtocol("DESCRIBE missing JSON payload", "ERROR: DESCRIBE requires JSON payload");
        return;
      }
      var doc := parse(jsonPart);
      if doc.Malformed? {
        FailProtocol("DESCRIBE invalid JSON", "ERROR: DESCRIBE invalid JSON");
        return;
      }
      var obj := DocumentObject(doc.root);
      if !("type" in obj && "subtype" in obj && "sensors" in obj && "actuators" in obj) {
        FailProtocol("DESCRIBE missing required fields", "ERROR: DESCRIBE missing required fields");
        return;
      }
      OnDescribeFields(obj);
    }

    /** The unknown-command tail of the loop body of onReadyRead. */
    method OnUnknown()
      modifies this
      ensures State() == HandleUnknown(old(State())) && unitID == old(unitID)
    {
      unknownCommandCount := unknownCommandCount + 1;
      SendReply("UNKNOWN_COMMAND");
      if unknownCommandCount >= MaxUnknownCommands {
        FailProtocol("Exceeded MAX_UNKNOWN_COMMANDS", "ERROR: Maximum unknown commands reached");
      }
    }

    /** One pass of the loop body of onReadyRead on a received line. */
    method OnLine(raw: string, parse: string -> Document)
      modifies this
      ensures State() == ProcessLine(old(State()), raw, parse) && unitID == old(unitID)
    {
      var line := Trim(raw);
      if line == [] {
        return;
      }
      var spaceIdx := IndexOfSpace(line);
      var command, jsonPart;
      if spaceIdx > 0 {
        command, jsonPart := line[..spaceIdx], line[spaceIdx + 1..];
      } else {
        command, jsonPart := line, "";
      }
      assert command == Command(raw) && jsonPart == Payload(raw);
      if command == "HELLO" {
        OnHello(jsonPart, parse);
      } else if !helloDone {
        FailProtocol("First command must be HELLO", "ERROR: First command must be HELLO");
      } else if command == "DESCRIBE" {
        OnDescribe(jsonPart, parse);
      } else {
        OnUnknown();
      }
    }

    /**
     * onReadyRead over the batch of lines the socket has buffered. A line can
     * be read while one is buffered and the socket is open; each `return` in
     * the loop of IoTropolisUnitConnection::onReadyRead follows failProtocol, which closes the socket, so the
     * loop ends there. The new state is Run of the old one; the session
     * invariant is kept and the log only grows.
     */
    method OnReadyRead(lines: seq<string>, parse: string -> Document)
      modifies this
      ensures State() == Run(old(State()), lines, parse) && unitID == old(unitID)
      ensures old(Valid()) ==> Valid()
      ensures old(outputs) <= outputs
    {
      ghost var start := State();
      var i := 0;
      while i < |lines| && !closed
        invariant 0 <= i <= |lines|
        invariant Run(State(), lines[i..], parse) == Run(start, lines, parse)
        invariant unitID == old(unitID)
      {
        ghost var before := State();
        OnLine(lines[i], parse);
        assert lines[i..][1..] == lines[i + 1..];
        assert Run(before, lines[i..], parse) == Run(State(), lines[i + 1..], parse);
        i := i + 1;
      }
      assert State() == Run(start, lines, parse);
      if Inv(start) {
        SessionProperties.RunInv(start, lines, parse);
      }
      SessionProperties.RunAppends(start, lines, parse);
    }

    /** onDisconnected: emit disconnected; the socket is gone. */
    method OnDisconnected()
      modifies this
      ensures State() == Disconnect(old(State())) && unitID == old(unitID)
      ensures old(Valid()) ==> Valid()
    {
      closed := true;
      EmitSignal(Disconnected);
      if Inv(old(State())) {
        SessionProperties.DisconnectInv(old(State()));
      }
    }
  }
}
