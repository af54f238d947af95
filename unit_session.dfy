/**
 * The per-connection handshake of IoTropolisUnitConnection.cpp as pure
 * functions on a session value: ProcessLine is one pass of the body of the
 * `while (canReadLine())` loop of onReadyRead, Run is the whole loop over a
 * batch of received lines. The class in unit_connection.dfy is proved to
 * change its fields exactly as these functions say; the lemmas below state
 * what the protocol promises about them.
 */
module UnitSession {
  import opened Wrappers
  import opened Json
  import opened Components
  import opened LineProtocol

  /**
   * MAX_UNKNOWN_COMMANDS: the number of unknown commands that fails the
   * session. Its definition is not part of this model; 5 is assumed.
   */
  const MaxUnknownCommands: nat := 5

  /** The signals a connection emits towards the registration server. */
  datatype Event = HelloCompleted | DescribeCompleted | ProtocolError(msg: string) | Disconnected

  /** One observable step, in order: a reply line written to the socket, a signal, or disconnectFromHost. */
  datatype Output = Send(line: string) | Emit(event: Event) | CloseTransport

  /** The fields onReadyRead reads and writes, plus the log of everything it did. */
  datatype Session = Session(
    helloDone: bool,
    describeDone: bool,
    unknownCount: nat,
    unitType: string,
    unitSubtype: string,
    sensors: seq<IOComponent>,
    actuators: seq<IOComponent>,
    closed: bool,
    outputs: seq<Output>)

  /** The state the constructor leaves: nothing done, nothing declared, socket open. */
  function Initial(): Session
  {
    Session(false, false, 0, "", "", [], [], false, [])
  }

  /** sendReply: a line is written only while the socket is open. */
  function Reply(st: Session, text: string): Session
  {
    if st.closed then st else st.(outputs := st.outputs + [Send(text)])
  }

  /** emit of a signal. */
  function Signal(st: Session, e: Event): Session
  {
    st.(outputs := st.outputs + [Emit(e)])
  }

  /**
   * failProtocol: emit protocolError, then send the client message when it is
   * non-empty (sendReply writes only to an open socket), then close the socket.
   */
  function Fail(st: Session, msg: string, clientMsg: string): Session
  {
    var reply := if clientMsg != "" && !st.closed then [Send(clientMsg)] else [];
    st.(closed := true, outputs := st.outputs + [Emit(ProtocolError(msg))] + reply + [CloseTransport])
  }

  /** Which list of the session the parseComponents lambda fills. */
  datatype Category = Sensors | Actuators

  /** The label parseComponents puts into its messages. */
  function Label(cat: Category): string
  {
    match cat
    case Sensors => "sensor"
    case Actuators => "actuator"
  }

  /** Why parseComponents stopped at an entry. */
  datatype EntryError = NotAnObject | MissingNameOrFormat

  /** Why parseComponents rejects an entry that is not good: the object test comes first. */
  function Rejection(v: Json): EntryError
  {
    if !v.JObject? then NotAnObject else MissingNameOrFormat
  }

  /** An array entry parseComponents accepts: an object from which fromJson builds a valid component. */
  predicate GoodEntry(v: Json)
  {
    v.JObject? && FromJson(v.members).1
  }

  /**
   * The loop of parseComponents: the components appended before it stopped,
   * and the reason it stopped early, if it did.
   */
  function ParseComponentList(arr: seq<Json>): (r: (seq<IOComponent>, Option<EntryError>))
    ensures |r.0| <= |arr|
    ensures forall i :: 0 <= i < |r.0| ==> GoodEntry(arr[i]) && r.0[i] == FromJson(arr[i].members).0
    ensures r.1 == None ==> |r.0| == |arr|
    ensures r.1 != None ==> |r.0| < |arr| && !GoodEntry(arr[|r.0|]) &&
                              (r.1 == Some(NotAnObject) <==> !arr[|r.0|].JObject?)
  {
    if arr == [] then ([], None)
    else if !arr[0].JObject? then ([], Some(NotAnObject))
    else
      var (c, ok) := FromJson(arr[0].members);
      if !ok then ([], Some(MissingNameOrFormat))
      else
        var rest := ParseComponentList(arr[1..]);
        ([c] + rest.0, rest.1)
  }

  /** The session with the list of `cat` replaced. */
  function WithList(st: Session, cat: Category, cs: seq<IOComponent>): Session
  {
    match cat
    case Sensors => st.(sensors := cs)
    case Actuators => st.(actuators := cs)
  }

  /** The diagnostic and the client message parseComponents passes to failProtocol for a rejected entry. */
  function EntryMessages(cat: Category, e: EntryError): (string, string)
  {
    var kind := Label(cat);
    match e
    case NotAnObject => (kind + " entry not an object", "ERROR: Each " + kind + " must be an object")
    case MissingNameOrFormat =>
      (kind + " missing 'name' or 'format'", "ERROR: Each " + kind + " must have 'name' and 'format'")
  }

  /**
   * The parseComponents lambda: the target list is cleared and refilled entry
   * by entry; at the first rejected entry the session fails, keeping the
   * entries appended so far. The flag is the lambda's return value.
   */
  function ParseInto(st: Session, arr: seq<Json>, cat: Category): (Session, bool)
  {
    var p := ParseComponentList(arr);
    var st1 := WithList(st, cat, p.0);
    if p.1.Some? then
      var m := EntryMessages(cat, p.1.value);
      (Fail(st1, m.0, m.1), false)
    else (st1, true)
  }

  /** The HELLO branch of onReadyRead. */
  function HandleHello(st: Session, payload: string, parse: string -> Document): Session
  {
    if st.helloDone then Reply(st, "HELLO_DONE")
    else if payload == [] then
      Fail(st, "HELLO missing JSON payload", "ERROR: HELLO requires JSON payload")
    else
      var doc := parse(payload);
      if doc.Malformed? then Fail(st, "HELLO invalid JSON", "ERROR: HELLO invalid JSON")
      else
        var obj := DocumentObject(doc.root);
        if StringMember(obj, "protocol") != "IoTropolis" || StringMember(obj, "version") != "1.0" then
          Fail(st, "HELLO protocol/version mismatch", "ERROR: HELLO protocol/version mismatch")
        else
          Signal(Reply(st.(helloDone := true, unknownCount := 0), "HELLO_ACK"), HelloCompleted)
  }

  /** The DESCRIBE branch of onReadyRead once the payload is an object with the four required members. */
  function DescribeFields(st: Session, obj: map<string, Json>): Session
  {
    var st1 := st.(unitType := StringMember(obj, "type"), unitSubtype := StringMember(obj, "subtype"));
    var (st2, sensorsOk) := ParseInto(st1, ArrayMember(obj, "sensors"), Sensors);
    if !sensorsOk then st2
    else
      var (st3, actuatorsOk) := ParseInto(st2, ArrayMember(obj, "actuators"), Actuators);
      if !actuatorsOk then st3
      else Signal(Reply(st3.(describeDone := true, unknownCount := 0), "DESCRIBE_ACK"), DescribeCompleted)
  }

  /** The DESCRIBE branch of onReadyRead (reached only after HELLO). */
  function HandleDescribe(st: Session, payload: string, parse: string -> Document): Session
  {
    if st.describeDone then Reply(st, "DESCRIBE_DONE")
    else if payload == [] then
      Fail(st, "DESCRIBE missing JSON payload", "ERROR: DESCRIBE requires JSON payload")
    else
      var doc := parse(payload);
      if doc.Malformed? then Fail(st, "DESCRIBE invalid JSON", "ERROR: DESCRIBE invalid JSON")
      else
        var obj := DocumentObject(doc.root);
        if !("type" in obj && "subtype" in obj && "sensors" in obj && "actuators" in obj) then
          Fail(st, "DESCRIBE missing required fields", "ERROR: DESCRIBE missing required fields")
        else DescribeFields(st, obj)
  }

  /** The unknown-command tail of the loop body (reached only after HELLO). */
  function HandleUnknown(st: Session): Session
  {
    var st1 := Reply(st.(unknownCount := st.unknownCount + 1), "UNKNOWN_COMMAND");
    if st1.unknownCount >= MaxUnknownCommands then
      Fail(st1, "Exceeded MAX_UNKNOWN_COMMANDS", "ERROR: Maximum unknown commands reached")
    else st1
  }

  /** The command of a received line: the trimmed line up to its first space. */
  function Command(raw: string): string
  {
    SplitCommand(Trim(raw)).0
  }

  /** The payload of a received line: the trimmed line after its first space. */
  function Payload(raw: string): string
  {
    SplitCommand(Trim(raw)).1
  }

  /** One pass of the loop body of onReadyRead on one received line. */
  function ProcessLine(st: Session, raw: string, parse: string -> Document): Session
  {
    if Trim(raw) == [] then st
    else if Command(raw) == "HELLO" then HandleHello(st, Payload(raw), parse)
    else if !st.helloDone then
      Fail(st, "First command must be HELLO", "ERROR: First command must be HELLO")
    else if Command(raw) == "DESCRIBE" then HandleDescribe(st, Payload(raw), parse)
    else HandleUnknown(st)
  }

  /** onReadyRead over a batch of lines: every `return` of the loop is a failure, which closes the session. */
  function Run(st: Session, lines: seq<string>, parse: string -> Document): Session
    decreases |lines|
  {
    if lines == [] || st.closed then st
    else Run(ProcessLine(st, lines[0], parse), lines[1..], parse)
  }

  /** onDisconnected: the transport is gone and disconnected is emitted. */
  function Disconnect(st: Session): Session
  {
    Signal(st.(closed := true), Disconnected)
  }

  /** What failProtocol appends to the log of an open session. */
  function FailOutputs(msg: string, clientMsg: string): seq<Output>
  {
    [Emit(ProtocolError(msg))] + (if clientMsg != "" then [Send(clientMsg)] else []) + [CloseTransport]
  }

  /** The log grew by exactly one failProtocol call. */
  ghost predicate EndsInFailure(before: seq<Output>, after: seq<Output>)
  {
    exists msg, clientMsg :: after == before + FailOutputs(msg, clientMsg)
  }

  /** Every component of a list passed fromJson. */
  ghost predicate AllValid(cs: seq<IOComponent>)
  {
    forall i :: 0 <= i < |cs| ==> IsValid(cs[i])
  }

  /** What holds of every session, open or not. */
  ghost predicate CoreInv(st: Session)
  {
    && (st.describeDone ==> st.helloDone)
    && st.unknownCount <= MaxUnknownCommands
    && (st.unknownCount > 0 ==> st.helloDone)
    && AllValid(st.sensors) && AllValid(st.actuators)
    && multiset(st.outputs)[Emit(HelloCompleted)] == (if st.helloDone then 1 else 0)
    && multiset(st.outputs)[Emit(DescribeCompleted)] == (if st.describeDone then 1 else 0)
  }

  /**
   * The session invariant: DESCRIBE is done only after HELLO, helloCompleted
   * and describeCompleted have each been emitted once exactly when their flag
   * is set, the declared components are valid, and an open session has fewer
   * than MAX_UNKNOWN_COMMANDS unknown commands.
   */
  ghost predicate Inv(st: Session)
  {
    CoreInv(st) && (!st.closed ==> st.unknownCount < MaxUnknownCommands)
  }

  /** The HELLO payload is accepted: non-empty, valid JSON, an object with protocol "IoTropolis" and version "1.0". */
  predicate HelloAccepted(payload: string, parse: string -> Document)
  {
    && payload != []
    && parse(payload).Parsed?
    && parse(payload).root.JObject?
    && var obj := parse(payload).root.members;
    && "protocol" in obj && obj["protocol"] == JString("IoTropolis")
    && "version" in obj && obj["version"] == JString("1.0")
  }

  /** Every entry of an array is an object describing a valid component. */
  predicate AllGood(arr: seq<Json>)
  {
    forall i :: 0 <= i < |arr| ==> GoodEntry(arr[i])
  }

  /** The component fromJson builds for an array entry. */
  function Decode(v: Json): IOComponent
  {
    if v.JObject? then FromJson(v.members).0 else Default
  }

  /** The components of an array, entry by entry. */
  function DecodeAll(arr: seq<Json>): (cs: seq<IOComponent>)
    ensures |cs| == |arr|
  {
    seq(|arr|, i requires 0 <= i < |arr| => Decode(arr[i]))
  }

  /**
   * The DESCRIBE payload is accepted: non-empty, valid JSON, an object with
   * type, subtype, sensors and actuators, and every sensor and actuator entry
   * an object with a non-empty name and format.
   */
  predicate DescribeAccepted(payload: string, parse: string -> Document)
  {
    && payload != []
    && parse(payload).Parsed?
    && parse(payload).root.JObject?
    && var obj := parse(payload).root.members;
    && "type" in obj && "subtype" in obj && "sensors" in obj && "actuators" in obj
    && AllGood(ArrayMember(obj, "sensors"))
    && AllGood(ArrayMember(obj, "actuators"))
  }

  /** A line whose command is neither HELLO nor DESCRIBE. */
  predicate IsUnknownLine(raw: string)
  {
    Trim(raw) != [] && Command(raw) != "HELLO" && Command(raw) != "DESCRIBE"
  }

  /** The fields describeCompleted makes visible to the server. */
  ghost predicate SameDescription(a: Session, b: Session)
  {
    a.unitType == b.unitType && a.unitSubtype == b.unitSubtype &&
    a.sensors == b.sensors && a.actuators == b.actuators
  }
}
