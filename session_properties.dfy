/**
 * Properties of the handshake of IoTropolisUnitConnection::onReadyRead,
 * stated on the functions of UnitSession.
 */
module SessionProperties {
  import opened Wrappers
  import opened Json
  import opened Components
  import opened LineProtocol
  import opened UnitSession

  // ------------------------------------------------------------------
  // failProtocol and the dispatch on the command
  // ------------------------------------------------------------------

  /**
   * On an open session failProtocol signals protocolError before it writes the
   * client message, writes that message only when it is non-empty, then
   * closes; nothing else in the session changes.
   */
  lemma {:induction false} FailShape(st: Session, msg: string, clientMsg: string)
    requires !st.closed
    ensures Fail(st, msg, clientMsg) == st.(closed := true, outputs := st.outputs + FailOutputs(msg, clientMsg))
    ensures Fail(st, msg, clientMsg).outputs[|st.outputs|] == Emit(ProtocolError(msg))
    ensures Fail(st, msg, clientMsg).outputs[|Fail(st, msg, clientMsg).outputs| - 1] == CloseTransport
  {
    if clientMsg != "" {
      assert st.outputs + [Emit(ProtocolError(msg))] + [Send(clientMsg)] + [CloseTransport]
          == st.outputs + FailOutputs(msg, clientMsg);
    } else {
      assert st.outputs + [Emit(ProtocolError(msg))] + [] + [CloseTransport]
          == st.outputs + FailOutputs(msg, clientMsg);
    }
  }

  /** A failProtocol call on an open session: closed, the log grown by one failure, nothing else changed. */
  lemma {:induction false} FailIsFailure(st: Session, msg: string, clientMsg: string)
    requires !st.closed
    ensures var r := Fail(st, msg, clientMsg);
            r.closed && r.(closed := false, outputs := st.outputs) == st && EndsInFailure(st.outputs, r.outputs)
  {
    FailShape(st, msg, clientMsg);
  }

  /** A line made only of whitespace is skipped: nothing changes. */
  lemma {:induction false} BlankLineIgnored(st: Session, raw: string, parse: string -> Document)
    requires forall i :: 0 <= i < |raw| ==> IsSpace(raw[i])
    ensures ProcessLine(st, raw, parse) == st
  {
  }

  /**
   * Before HELLO has succeeded, any other command (DESCRIBE included, whatever
   * its payload) fails the protocol with "First command must be HELLO"; the
   * unknown-command counter is not touched.
   */
  lemma {:induction false} FirstCommandMustBeHello(st: Session, raw: string, parse: string -> Document)
    requires !st.closed && !st.helloDone
    requires Trim(raw) != [] && Command(raw) != "HELLO"
    ensures ProcessLine(st, raw, parse) ==
              st.(closed := true,
                  outputs := st.outputs + FailOutputs("First command must be HELLO", "ERROR: First command must be HELLO"))
  {
    FailShape(st, "First command must be HELLO", "ERROR: First command must be HELLO");
  }

  // ------------------------------------------------------------------
  // HELLO
  // ------------------------------------------------------------------

  /** An accepted first HELLO sets helloDone, resets the counter, replies HELLO_ACK and emits helloCompleted. */
  lemma {:induction false} HelloAccept(st: Session, payload: string, parse: string -> Document)
    requires !st.closed && !st.helloDone && HelloAccepted(payload, parse)
    ensures HandleHello(st, payload, parse) ==
              st.(helloDone := true, unknownCount := 0,
                  outputs := st.outputs + [Send("HELLO_ACK"), Emit(HelloCompleted)])
  {
  }

  /** A rejected first HELLO fails the protocol and changes nothing else. */
  lemma {:induction false} HelloReject(st: Session, payload: string, parse: string -> Document)
    requires !st.closed && !st.helloDone && !HelloAccepted(payload, parse)
    ensures var r := HandleHello(st, payload, parse);
            r.closed && r.(closed := false, outputs := st.outputs) == st && EndsInFailure(st.outputs, r.outputs)
  {
    if payload == [] {
      FailIsFailure(st, "HELLO missing JSON payload", "ERROR: HELLO requires JSON payload");
    } else if parse(payload).Malformed? {
      FailIsFailure(st, "HELLO invalid JSON", "ERROR: HELLO invalid JSON");
    } else {
      FailIsFailure(st, "HELLO protocol/version mismatch", "ERROR: HELLO protocol/version mismatch");
    }
  }

  /**
   * The first HELLO line succeeds exactly when its payload is non-empty,
   * parses, and names protocol "IoTropolis" and version "1.0".
   */
  lemma {:induction false} HelloOutcome(st: Session, raw: string, parse: string -> Document)
    requires !st.closed && !st.helloDone
    requires Trim(raw) != [] && Command(raw) == "HELLO"
    ensures ProcessLine(st, raw, parse).helloDone <==> HelloAccepted(Payload(raw), parse)
    ensures ProcessLine(st, raw, parse).closed <==> !HelloAccepted(Payload(raw), parse)
  {
    if HelloAccepted(Payload(raw), parse) {
      HelloAccept(st, Payload(raw), parse);
    } else {
      HelloReject(st, Payload(raw), parse);
    }
  }

  /** A HELLO after a successful one only replies HELLO_DONE: no payload check, no state change, no signal. */
  lemma {:induction false} HelloRepeat(st: Session, raw: string, parse: string -> Document)
    requires !st.closed && st.helloDone
    requires Trim(raw) != [] && Command(raw) == "HELLO"
    ensures ProcessLine(st, raw, parse) == st.(outputs := st.outputs + [Send("HELLO_DONE")])
  {
  }

  /** A JSON array as HELLO payload reads as an empty object, so it fails as a protocol/version mismatch. */
  lemma {:induction false} HelloArrayPayload(st: Session, payload: string, parse: string -> Document)
    requires !st.closed && !st.helloDone && payload != []
    requires parse(payload).Parsed? && parse(payload).root.JArray?
    ensures HandleHello(st, payload, parse) ==
              st.(closed := true,
                  outputs := st.outputs + FailOutputs("HELLO protocol/version mismatch", "ERROR: HELLO protocol/version mismatch"))
  {
    FailShape(st, "HELLO protocol/version mismatch", "ERROR: HELLO protocol/version mismatch");
  }

  // ------------------------------------------------------------------
  // DESCRIBE
  // ------------------------------------------------------------------

  /**
   * parseComponents accepts an array exactly when every entry is good, and
   * then fills the list with the decoded entries in order.
   */
  lemma {:induction false} ParseComponentListOk(arr: seq<Json>)
    ensures ParseComponentList(arr).1 == None <==> AllGood(arr)
    ensures AllGood(arr) ==> ParseComponentList(arr).0 == DecodeAll(arr)
  {
  }

  /** One more good entry extends the accepted prefix by its component. */
  lemma {:induction false} AllGoodSnoc(arr: seq<Json>, i: nat)
    requires i < |arr| && AllGood(arr[..i]) && GoodEntry(arr[i])
    ensures AllGood(arr[..i + 1])
    ensures DecodeAll(arr[..i + 1]) == DecodeAll(arr[..i]) + [Decode(arr[i])]
  {
    assert arr[..i + 1] == arr[..i] + [arr[i]];
  }

  /**
   * parseComponents stops at the first bad entry: the list holds the decoded
   * entries before it and the session fails with that entry's messages.
   */
  lemma {:induction false} ParseIntoStopsAt(st: Session, arr: seq<Json>, cat: Category, i: nat)
    requires i < |arr| && AllGood(arr[..i]) && !GoodEntry(arr[i])
    ensures var m := EntryMessages(cat, Rejection(arr[i]));
            ParseInto(st, arr, cat) == (Fail(WithList(st, cat, DecodeAll(arr[..i])), m.0, m.1), false)
  {
    var p := ParseComponentList(arr);
    ParseComponentListOk(arr);
    assert !AllGood(arr);
    ParseComponentListPrefix(arr);
    assert i == |p.0|;
    if arr[i].JObject? {
      assert p.1.value != NotAnObject;
    }
  }

  /** Replacing a list twice is replacing it once. */
  lemma {:induction false} WithListOverwrite(st: Session, cat: Category, a: seq<IOComponent>, b: seq<IOComponent>)
    ensures WithList(WithList(st, cat, a), cat, b) == WithList(st, cat, b)
  {
  }

  /** On a rejected entry parseComponents has appended exactly the entries before it. */
  lemma {:induction false} ParseComponentListPrefix(arr: seq<Json>)
    requires !AllGood(arr)
    ensures var p := ParseComponentList(arr);
            p.1.Some? && |p.0| < |arr| && !GoodEntry(arr[|p.0|]) &&
            AllGood(arr[..|p.0|]) && p.0 == DecodeAll(arr[..|p.0|])
  {
    ParseComponentListOk(arr);
    var p := ParseComponentList(arr);
    assert forall i :: 0 <= i < |p.0| ==> arr[..|p.0|][i] == arr[i];
  }

  /**
   * After HELLO, an accepted first DESCRIBE records type, subtype and the
   * decoded components, sets describeDone, resets the counter, replies
   * DESCRIBE_ACK and emits describeCompleted.
   */
  lemma {:induction false} DescribeAccept(st: Session, payload: string, parse: string -> Document)
    requires !st.closed && st.helloDone && !st.describeDone && DescribeAccepted(payload, parse)
    ensures var obj := parse(payload).root.members;
            HandleDescribe(st, payload, parse) ==
              st.(describeDone := true, unknownCount := 0,
                  unitType := StringMember(obj, "type"),
                  unitSubtype := StringMember(obj, "subtype"),
                  sensors := DecodeAll(ArrayMember(obj, "sensors")),
                  actuators := DecodeAll(ArrayMember(obj, "actuators")),
                  outputs := st.outputs + [Send("DESCRIBE_ACK"), Emit(DescribeCompleted)])
  {
    var obj := parse(payload).root.members;
    ParseComponentListOk(ArrayMember(obj, "sensors"));
    ParseComponentListOk(ArrayMember(obj, "actuators"));
  }

  /** A rejected entry list fails the protocol; the list holds what was appended before the rejected entry. */
  lemma {:induction false} ParseIntoReject(st: Session, arr: seq<Json>, cat: Category)
    requires !st.closed && !AllGood(arr)
    ensures var (r, ok) := ParseInto(st, arr, cat);
            !ok && r.closed && r.(closed := false, outputs := st.outputs) == WithList(st, cat, ParseComponentList(arr).0) &&
            EndsInFailure(st.outputs, r.outputs)
  {
    ParseComponentListOk(arr);
    var p := ParseComponentList(arr);
    var m := EntryMessages(cat, p.1.value);
    FailIsFailure(WithList(st, cat, p.0), m.0, m.1);
  }

  /** An accepted entry list replaces the list of its category and nothing else. */
  lemma {:induction false} ParseIntoAccept(st: Session, arr: seq<Json>, cat: Category)
    requires AllGood(arr)
    ensures ParseInto(st, arr, cat) == (WithList(st, cat, DecodeAll(arr)), true)
  {
    ParseComponentListOk(arr);
  }

  /** A DESCRIBE whose object has the four members but a rejected entry fails, leaving describeDone false. */
  lemma {:induction false} DescribeFieldsReject(st: Session, obj: map<string, Json>)
    requires !st.closed && st.helloDone && !st.describeDone
    requires !(AllGood(ArrayMember(obj, "sensors")) && AllGood(ArrayMember(obj, "actuators")))
    ensures var r := DescribeFields(st, obj);
            r.closed && !r.describeDone && r.helloDone && r.unknownCount == st.unknownCount &&
            EndsInFailure(st.outputs, r.outputs)
  {
    var st1 := st.(unitType := StringMember(obj, "type"), unitSubtype := StringMember(obj, "subtype"));
    var sArr := ArrayMember(obj, "sensors");
    if !AllGood(sArr) {
      ParseIntoReject(st1, sArr, Sensors);
    } else {
      ParseIntoAccept(st1, sArr, Sensors);
      ParseIntoReject(WithList(st1, Sensors, DecodeAll(sArr)), ArrayMember(obj, "actuators"), Actuators);
    }
  }

  /**
   * After HELLO, a rejected first DESCRIBE (no payload, invalid JSON, a
   * missing member, or a bad sensor or actuator entry) fails the protocol and
   * leaves describeDone false.
   */
  lemma {:induction false} DescribeReject(st: Session, payload: string, parse: string -> Document)
    requires !st.closed && st.helloDone && !st.describeDone && !DescribeAccepted(payload, parse)
    ensures var r := HandleDescribe(st, payload, parse);
            r.closed && !r.describeDone && r.helloDone && r.unknownCount == st.unknownCount &&
            EndsInFailure(st.outputs, r.outputs)
  {
    if payload == [] {
      FailIsFailure(st, "DESCRIBE missing JSON payload", "ERROR: DESCRIBE requires JSON payload");
    } else if parse(payload).Malformed? {
      FailIsFailure(st, "DESCRIBE invalid JSON", "ERROR: DESCRIBE invalid JSON");
    } else {
      var obj := DocumentObject(parse(payload).root);
      if !("type" in obj && "subtype" in obj && "sensors" in obj && "actuators" in obj) {
        FailIsFailure(st, "DESCRIBE missing required fields", "ERROR: DESCRIBE missing required fields");
      } else {
        DescribeFieldsReject(st, obj);
      }
    }
  }

  /** After HELLO, the first DESCRIBE line succeeds exactly when its payload is accepted. */
  lemma {:induction false} DescribeOutcome(st: Session, raw: string, parse: string -> Document)
    requires !st.closed && st.helloDone && !st.describeDone
    requires Trim(raw) != [] && Command(raw) == "DESCRIBE"
    ensures ProcessLine(st, raw, parse).describeDone <==> DescribeAccepted(Payload(raw), parse)
    ensures ProcessLine(st, raw, parse).closed <==> !DescribeAccepted(Payload(raw), parse)
  {
    if DescribeAccepted(Payload(raw), parse) {
      DescribeAccept(st, Payload(raw), parse);
    } else {
      DescribeReject(st, Payload(raw), parse);
    }
  }

  /** A DESCRIBE after a successful one only replies DESCRIBE_DONE. */
  lemma {:induction false} DescribeRepeat(st: Session, raw: string, parse: string -> Document)
    requires !st.closed && st.helloDone && st.describeDone
    requires Trim(raw) != [] && Command(raw) == "DESCRIBE"
    ensures ProcessLine(st, raw, parse) == st.(outputs := st.outputs + [Send("DESCRIBE_DONE")])
  {
  }

  /** A JSON array as DESCRIBE payload reads as an empty object, so it fails as missing required fields. */
  lemma {:induction false} DescribeArrayPayload(st: Session, payload: string, parse: string -> Document)
    requires !st.closed && st.helloDone && !st.describeDone && payload != []
    requires parse(payload).Parsed? && parse(payload).root.JArray?
    ensures HandleDescribe(st, payload, parse) ==
              st.(closed := true,
                  outputs := st.outputs + FailOutputs("DESCRIBE missing required fields", "ERROR: DESCRIBE missing required fields"))
  {
    FailShape(st, "DESCRIBE missing required fields", "ERROR: DESCRIBE missing required fields");
  }

  /**
   * A DESCRIBE that fails on a sensor entry has already overwritten the type
   * and subtype, and leaves in the sensor list the entries before the bad one.
   */
  lemma {:induction false} DescribeFailureSideEffects(st: Session, obj: map<string, Json>)
    requires !st.closed && st.helloDone && !st.describeDone
    requires !AllGood(ArrayMember(obj, "sensors"))
    ensures var r := DescribeFields(st, obj);
            var sArr := ArrayMember(obj, "sensors");
            && r.closed && !r.describeDone
            && r.unitType == StringMember(obj, "type") && r.unitSubtype == StringMember(obj, "subtype")
            && r.actuators == st.actuators
            && |r.sensors| < |sArr| && !GoodEntry(sArr[|r.sensors|])
            && r.sensors == DecodeAll(sArr[..|r.sensors|])
  {
    var st1 := st.(unitType := StringMember(obj, "type"), unitSubtype := StringMember(obj, "subtype"));
    ParseIntoReject(st1, ArrayMember(obj, "sensors"), Sensors);
    ParseComponentListPrefix(ArrayMember(obj, "sensors"));
  }

  /**
   * A DESCRIBE whose sensors are accepted but which fails on an actuator
   * entry has already set the type and subtype and replaced the sensor list,
   * and leaves in the actuator list the entries before the bad one.
   */
  lemma {:induction false} DescribeActuatorFailureSideEffects(st: Session, obj: map<string, Json>)
    requires !st.closed && st.helloDone && !st.describeDone
    requires AllGood(ArrayMember(obj, "sensors")) && !AllGood(ArrayMember(obj, "actuators"))
    ensures var r := DescribeFields(st, obj);
            var aArr := ArrayMember(obj, "actuators");
            && r.closed && !r.describeDone
            && r.unitType == StringMember(obj, "type") && r.unitSubtype == StringMember(obj, "subtype")
            && r.sensors == DecodeAll(ArrayMember(obj, "sensors"))
            && |r.actuators| < |aArr| && !GoodEntry(aArr[|r.actuators|])
            && r.actuators == DecodeAll(aArr[..|r.actuators|])
  {
    var st1 := st.(unitType := StringMember(obj, "type"), unitSubtype := StringMember(obj, "subtype"));
    ParseIntoAccept(st1, ArrayMember(obj, "sensors"), Sensors);
    var st2 := WithList(st1, Sensors, DecodeAll(ArrayMember(obj, "sensors")));
    ParseIntoReject(st2, ArrayMember(obj, "actuators"), Actuators);
    ParseComponentListPrefix(ArrayMember(obj, "actuators"));
  }

  /** A concrete failed DESCRIBE after which the sensor list is not empty and the type is set. */
  lemma {:induction false} PartialSensorsExample(st: Session)
    requires !st.closed && st.helloDone && !st.describeDone
    ensures var obj := map["type" := JString("thermo"), "subtype" := JString("v1"),
                           "sensors" := JArray([JObject(ToJson(IOComponent("temp", "f32"))), JNull]),
                           "actuators" := JArray([])];
            var r := DescribeFields(st, obj);
            r.closed && !r.describeDone && r.sensors == [IOComponent("temp", "f32")] && r.unitType == "thermo"
  {
    var obj := map["type" := JString("thermo"), "subtype" := JString("v1"),
                   "sensors" := JArray([JObject(ToJson(IOComponent("temp", "f32"))), JNull]),
                   "actuators" := JArray([])];
    var arr := ArrayMember(obj, "sensors");
    assert arr == [JObject(ToJson(IOComponent("temp", "f32"))), JNull];
    assert GoodEntry(arr[0]) && !GoodEntry(arr[1]);
    DescribeFailureSideEffects(st, obj);
    var r := DescribeFields(st, obj);
    assert |r.sensors| == 1;
    assert r.sensors == DecodeAll(arr[..1]);
  }

  // ------------------------------------------------------------------
  // Unknown commands
  // ------------------------------------------------------------------

  /**
   * After HELLO an unknown command counts one more unknown command and
   * replies UNKNOWN_COMMAND; reaching MAX_UNKNOWN_COMMANDS then fails the protocol.
   */
  lemma {:induction false} UnknownCommand(st: Session, raw: string, parse: string -> Document)
    requires !st.closed && st.helloDone && IsUnknownLine(raw)
    ensures var r := ProcessLine(st, raw, parse);
            var counted := st.(unknownCount := st.unknownCount + 1, outputs := st.outputs + [Send("UNKNOWN_COMMAND")]);
            && r.unknownCount == st.unknownCount + 1
            && (r.closed <==> st.unknownCount + 1 >= MaxUnknownCommands)
            && (!r.closed ==> r == counted)
            && (r.closed ==> r == counted.(closed := true, outputs := counted.outputs +
                   FailOutputs("Exceeded MAX_UNKNOWN_COMMANDS", "ERROR: Maximum unknown commands reached")))
  {
    var counted := st.(unknownCount := st.unknownCount + 1, outputs := st.outputs + [Send("UNKNOWN_COMMAND")]);
    FailShape(counted, "Exceeded MAX_UNKNOWN_COMMANDS", "ERROR: Maximum unknown commands reached");
  }

  // ------------------------------------------------------------------
  // The session invariant
  // ------------------------------------------------------------------

  lemma {:induction false} InitialInv()
    ensures Inv(Initial())
  {
  }

  lemma {:induction false} FailInv(st: Session, msg: string, clientMsg: string)
    requires CoreInv(st)
    ensures Inv(Fail(st, msg, clientMsg)) && Fail(st, msg, clientMsg).closed
  {
  }

  lemma {:induction false} ParseIntoInv(st: Session, arr: seq<Json>, cat: Category)
    requires Inv(st)
    ensures CoreInv(ParseInto(st, arr, cat).0)
    ensures ParseInto(st, arr, cat).0.closed <==> st.closed || !ParseInto(st, arr, cat).1
  {
    var p := ParseComponentList(arr);
    forall i | 0 <= i < |p.0| ensures IsValid(p.0[i]) {
      assert GoodEntry(arr[i]);
    }
    if p.1.Some? {
      var m := EntryMessages(cat, p.1.value);
      FailInv(WithList(st, cat, p.0), m.0, m.1);
    }
  }

  lemma {:induction false} ReplyInv(st: Session, text: string)
    requires Inv(st)
    ensures Inv(Reply(st, text))
  {
    if !st.closed {
      assert multiset(Reply(st, text).outputs) == multiset(st.outputs) + multiset{Send(text)};
    }
  }

  /** Acknowledging a completed step and signalling it keeps the invariant. */
  lemma {:induction false} AcceptInv(st: Session, done: Session, ack: string, e: Event)
    requires Inv(st) && !st.closed && done.outputs == st.outputs && !done.closed
    requires CoreInv(done.(outputs := done.outputs + [Emit(e)]))
    requires done.unknownCount == 0
    ensures Inv(done.(outputs := st.outputs + [Send(ack), Emit(e)]))
  {
    assert multiset(st.outputs + [Send(ack), Emit(e)]) == multiset(st.outputs + [Emit(e)]) + multiset{Send(ack)};
  }

  lemma {:induction false} HelloRejectInv(st: Session, payload: string, parse: string -> Document)
    requires Inv(st) && !st.closed && !st.helloDone && !HelloAccepted(payload, parse)
    ensures Inv(HandleHello(st, payload, parse))
  {
    if payload == [] {
      FailInv(st, "HELLO missing JSON payload", "ERROR: HELLO requires JSON payload");
    } else if parse(payload).Malformed? {
      FailInv(st, "HELLO invalid JSON", "ERROR: HELLO invalid JSON");
    } else {
      FailInv(st, "HELLO protocol/version mismatch", "ERROR: HELLO protocol/version mismatch");
    }
  }

  lemma {:induction false} HelloInv(st: Session, payload: string, parse: string -> Document)
    requires Inv(st) && !st.closed
    ensures Inv(HandleHello(st, payload, parse))
  {
    if st.helloDone {
      ReplyInv(st, "HELLO_DONE");
    } else if !HelloAccepted(payload, parse) {
      HelloRejectInv(st, payload, parse);
    } else {
      HelloAccept(st, payload, parse);
      AcceptInv(st, st.(helloDone := true, unknownCount := 0), "HELLO_ACK", HelloCompleted);
    }
  }

  lemma {:induction false} DescribeFieldsInv(st: Session, obj: map<string, Json>)
    requires Inv(st) && !st.closed && st.helloDone && !st.describeDone
    ensures Inv(DescribeFields(st, obj))
  {
    var st1 := st.(unitType := StringMember(obj, "type"), unitSubtype := StringMember(obj, "subtype"));
    ParseIntoInv(st1, ArrayMember(obj, "sensors"), Sensors);
    var (st2, sensorsOk) := ParseInto(st1, ArrayMember(obj, "sensors"), Sensors);
    if sensorsOk {
      ParseIntoInv(st2, ArrayMember(obj, "actuators"), Actuators);
    }
  }

  lemma {:induction false} DescribeInv(st: Session, payload: string, parse: string -> Document)
    requires Inv(st) && !st.closed && st.helloDone
    ensures Inv(HandleDescribe(st, payload, parse))
  {
    if !st.describeDone {
      if payload == [] {
        FailInv(st, "DESCRIBE missing JSON payload", "ERROR: DESCRIBE requires JSON payload");
      } else if parse(payload).Malformed? {
        FailInv(st, "DESCRIBE invalid JSON", "ERROR: DESCRIBE invalid JSON");
      } else {
        var obj := DocumentObject(parse(payload).root);
        if !("type" in obj && "subtype" in obj && "sensors" in obj && "actuators" in obj) {
          FailInv(st, "DESCRIBE missing required fields", "ERROR: DESCRIBE missing required fields");
        } else {
          DescribeFieldsInv(st, obj);
        }
      }
    }
  }

  lemma {:induction false} UnknownInv(st: Session)
    requires Inv(st) && !st.closed && st.helloDone
    ensures Inv(HandleUnknown(st))
  {
    var st1 := Reply(st.(unknownCount := st.unknownCount + 1), "UNKNOWN_COMMAND");
    if st1.unknownCount >= MaxUnknownCommands {
      FailInv(st1, "Exceeded MAX_UNKNOWN_COMMANDS", "ERROR: Maximum unknown commands reached");
    }
  }

  /** One line keeps the session invariant. */
  lemma {:induction false} ProcessLineInv(st: Session, raw: string, parse: string -> Document)
    requires Inv(st) && !st.closed
    ensures Inv(ProcessLine(st, raw, parse))
  {
    if Trim(raw) != [] {
      if Command(raw) == "HELLO" {
        HelloInv(st, Payload(raw), parse);
      } else if !st.helloDone {
        FailInv(st, "First command must be HELLO", "ERROR: First command must be HELLO");
      } else if Command(raw) == "DESCRIBE" {
        DescribeInv(st, Payload(raw), parse);
      } else {
        UnknownInv(st);
      }
    }
  }

  /** A whole batch keeps the session invariant. */
  lemma {:induction false} RunInv(st: Session, lines: seq<string>, parse: string -> Document)
    requires Inv(st)
    ensures Inv(Run(st, lines, parse))
    decreases |lines|
  {
    if lines != [] && !st.closed {
      var next := ProcessLine(st, lines[0], parse);
      ProcessLineInv(st, lines[0], parse);
      RunInv(next, lines[1..], parse);
      assert Run(st, lines, parse) == Run(next, lines[1..], parse);
    }
  }

  /** The disconnect handler keeps the session invariant. */
  lemma {:induction false} DisconnectInv(st: Session)
    requires Inv(st)
    ensures Inv(Disconnect(st)) && Disconnect(st).closed
  {
  }

  /**
   * From a fresh connection, helloCompleted and describeCompleted are each
   * emitted at most once, describeCompleted no more often than
   * helloCompleted, and a described session has completed HELLO.
   */
  lemma {:induction false} CompletionSignalsAtMostOnce(lines: seq<string>, parse: string -> Document)
    ensures var st := Run(Initial(), lines, parse);
            && multiset(st.outputs)[Emit(HelloCompleted)] <= 1
            && multiset(st.outputs)[Emit(DescribeCompleted)] <= multiset(st.outputs)[Emit(HelloCompleted)]
            && (st.describeDone ==> st.helloDone)
  {
    InitialInv();
    RunInv(Initial(), lines, parse);
  }

  // ------------------------------------------------------------------
  // Batches
  // ------------------------------------------------------------------

  /**
   * After HELLO, a run of unknown commands long enough to reach
   * MAX_UNKNOWN_COMMANDS closes the session with the counter at the limit.
   */
  lemma {:induction false} UnknownCommandsClose(st: Session, lines: seq<string>, parse: string -> Document)
    requires Inv(st) && !st.closed && st.helloDone
    requires forall i :: 0 <= i < |lines| ==> IsUnknownLine(lines[i])
    requires |lines| >= MaxUnknownCommands - st.unknownCount
    ensures Run(st, lines, parse).closed
    ensures Run(st, lines, parse).unknownCount == MaxUnknownCommands
    decreases |lines|
  {
    var next := ProcessLine(st, lines[0], parse);
    UnknownCommand(st, lines[0], parse);
    assert Run(st, lines, parse) == Run(next, lines[1..], parse);
    if !next.closed {
      ProcessLineInv(st, lines[0], parse);
      assert forall i :: 0 <= i < |lines[1..]| ==> lines[1..][i] == lines[i + 1];
      UnknownCommandsClose(next, lines[1..], parse);
    }
  }

  /** The line that fails the protocol is the last one read from the batch. */
  lemma {:induction false} FailureEndsBatch(st: Session, raw: string, rest: seq<string>, parse: string -> Document)
    requires !st.closed && ProcessLine(st, raw, parse).closed
    ensures Run(st, [raw] + rest, parse) == ProcessLine(st, raw, parse)
  {
    assert ([raw] + rest)[1..] == rest;
  }

  /** A closed session reads nothing more. */
  lemma {:induction false} ClosedReadsNothing(st: Session, lines: seq<string>, parse: string -> Document)
    requires st.closed
    ensures Run(st, lines, parse) == st
  {
  }

  /** The HELLO branch only appends to the log. */
  lemma {:induction false} HelloAppends(st: Session, payload: string, parse: string -> Document)
    requires !st.closed
    ensures st.outputs <= HandleHello(st, payload, parse).outputs
  {
    if !st.helloDone && HelloAccepted(payload, parse) {
      HelloAccept(st, payload, parse);
    } else if !st.helloDone {
      HelloReject(st, payload, parse);
    }
  }

  /** The DESCRIBE branch only appends to the log. */
  lemma {:induction false} DescribeAppends(st: Session, payload: string, parse: string -> Document)
    requires !st.closed && st.helloDone
    ensures st.outputs <= HandleDescribe(st, payload, parse).outputs
  {
    if !st.describeDone {
      if DescribeAccepted(payload, parse) {
        DescribeAccept(st, payload, parse);
      } else {
        DescribeReject(st, payload, parse);
      }
    }
  }

  /** One line only appends to the log. */
  lemma {:induction false} ProcessLineAppends(st: Session, raw: string, parse: string -> Document)
    requires !st.closed
    ensures st.outputs <= ProcessLine(st, raw, parse).outputs
  {
    if Trim(raw) == [] {
    } else if Command(raw) == "HELLO" {
      HelloAppends(st, Payload(raw), parse);
    } else if !st.helloDone {
      FailShape(st, "First command must be HELLO", "ERROR: First command must be HELLO");
    } else if Command(raw) == "DESCRIBE" {
      DescribeAppends(st, Payload(raw), parse);
    } else {
      UnknownCommand(st, raw, parse);
    }
  }

  /** A batch only appends to the log: what was logged before stays a prefix. */
  lemma {:induction false} RunAppends(st: Session, lines: seq<string>, parse: string -> Document)
    ensures st.outputs <= Run(st, lines, parse).outputs
    decreases |lines|
  {
    if lines != [] && !st.closed {
      var next := ProcessLine(st, lines[0], parse);
      ProcessLineAppends(st, lines[0], parse);
      RunAppends(next, lines[1..], parse);
      assert Run(st, lines, parse) == Run(next, lines[1..], parse);
    }
  }

  /** Once DESCRIBE has succeeded, one more line changes neither the flags nor the description. */
  lemma {:induction false} DescribedLineKeepsDescription(st: Session, raw: string, parse: string -> Document)
    requires Inv(st) && !st.closed && st.describeDone
    ensures var r := ProcessLine(st, raw, parse);
            r.helloDone && r.describeDone && SameDescription(st, r)
  {
    if IsUnknownLine(raw) {
      UnknownCommand(st, raw, parse);
    }
  }

  /**
   * Once DESCRIBE has succeeded, no later line changes the flags or the
   * declared type, subtype, sensors and actuators.
   */
  lemma {:induction false} DescriptionIsFinal(st: Session, lines: seq<string>, parse: string -> Document)
    requires Inv(st) && st.describeDone
    ensures var r := Run(st, lines, parse);
            r.helloDone && r.describeDone && SameDescription(st, r)
    decreases |lines|
  {
    if lines != [] && !st.closed {
      var next := ProcessLine(st, lines[0], parse);
      DescribedLineKeepsDescription(st, lines[0], parse);
      ProcessLineInv(st, lines[0], parse);
      DescriptionIsFinal(next, lines[1..], parse);
      assert Run(st, lines, parse) == Run(next, lines[1..], parse);
    }
  }
}
