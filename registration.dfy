/**
 * IoTropolisRegistrationServer: assigns unit ids, keeps the set of live unit
 * connections, forwards their completion and error signals, and persists one
 * profile record per (type, subtype). The profile directory is a store from
 * file names to JSON documents.
 */
module Registration {
  import opened Wrappers
  import opened Json
  import opened Components
  import opened UnitSession
  import opened Connection
  import SessionProperties

  /** The directory the profile records live in. */
  const ProfileDir := "./UnitType/"

  /** The profile file name of a unit type and subtype: ./UnitType/{type}_{subtype}.json. */
  function ProfileKey(unitType: string, unitSubtype: string): string
  {
    ProfileDir + unitType + "_" + unitSubtype + ".json"
  }

  /** The JSON array of a list of components, entry i being the object toJson of component i. */
  function ComponentsJson(cs: seq<IOComponent>): (arr: seq<Json>)
    ensures |arr| == |cs|
  {
    seq(|cs|, i requires 0 <= i < |cs| => JObject(ToJson(cs[i])))
  }

  /** The profile record written for a unit: its sensors and actuators arrays. */
  function ProfileRecord(sensors: seq<IOComponent>, actuators: seq<IOComponent>): Json
  {
    JObject(map["sensors" := JArray(ComponentsJson(sensors)), "actuators" := JArray(ComponentsJson(actuators))])
  }

  /** The append loops of validateOrCreateTypeFile: one toJson object per component, in order. */
  method ComponentsArray(cs: seq<IOComponent>) returns (arr: seq<Json>)
    ensures |arr| == |cs|
    ensures forall i :: 0 <= i < |cs| ==> arr[i] == JObject(ToJson(cs[i]))
  {
    arr := [];
    var i := 0;
    while i < |cs|
      invariant 0 <= i <= |cs|
      invariant |arr| == i
      invariant forall k :: 0 <= k < i ==> arr[k] == JObject(ToJson(cs[k]))
    {
      arr := arr + [JObject(ToJson(cs[i]))];
      i := i + 1;
    }
  }

  /** The two file names agree on their fixed prefix and suffix. */
  lemma {:induction false} ProfileKeyParts(t: string, s: string)
    ensures var k := ProfileKey(t, s);
            |k| == |ProfileDir| + |t| + |s| + 6 &&
            k[..|ProfileDir|] == ProfileDir &&
            k[|ProfileDir|..|ProfileDir| + |t|] == t &&
            k[|ProfileDir| + |t|] == '_' &&
            k[|ProfileDir| + |t| + 1..|k| - 5] == s &&
            k[|k| - 5..] == ".json"
  {
    var k := ProfileKey(t, s);
    assert k == ProfileDir + (t + ("_" + (s + ".json")));
  }

  /**
   * For unit types without an underscore the profile file name determines the
   * type and the subtype.
   */
  lemma {:induction false} ProfileKeyInjective(t1: string, s1: string, t2: string, s2: string)
    requires '_' !in t1 && '_' !in t2
    requires ProfileKey(t1, s1) == ProfileKey(t2, s2)
    ensures t1 == t2 && s1 == s2
  {
    ProfileKeyParts(t1, s1);
    ProfileKeyParts(t2, s2);
  }

  /** With an underscore in the type, two different units share one profile file name. */
  lemma {:induction false} ProfileKeyAmbiguous()
    ensures ProfileKey("a_b", "c") == ProfileKey("a", "b_c")
  {
    assert ProfileKey("a_b", "c") == "./UnitType/a_b_c.json";
    assert ProfileKey("a", "b_c") == "./UnitType/a_b_c.json";
  }

  /**
   * A stored array of valid components reads back, under the DESCRIBE entry
   * rules, as exactly those components.
   */
  lemma {:induction false} ComponentsJsonReload(cs: seq<IOComponent>)
    requires AllValid(cs)
    ensures ParseComponentList(ComponentsJson(cs)) == (cs, None)
  {
    var arr := ComponentsJson(cs);
    forall i | 0 <= i < |arr|
      ensures GoodEntry(arr[i]) && Decode(arr[i]) == cs[i]
    {
      RoundTrip(cs[i]);
    }
    SessionProperties.ParseComponentListOk(arr);
    assert DecodeAll(arr) == cs;
  }

  /**
   * The record stored for a described unit holds its sensors and actuators,
   * which read back unchanged.
   */
  lemma {:induction false} ProfileRecordReload(sensors: seq<IOComponent>, actuators: seq<IOComponent>)
    requires AllValid(sensors) && AllValid(actuators)
    ensures var rec := DocumentObject(ProfileRecord(sensors, actuators));
            && rec.Keys == {"sensors", "actuators"}
            && ParseComponentList(ArrayMember(rec, "sensors")) == (sensors, None)
            && ParseComponentList(ArrayMember(rec, "actuators")) == (actuators, None)
  {
    ComponentsJsonReload(sensors);
    ComponentsJsonReload(actuators);
  }

  /** The signals the server emits. */
  datatype ServerEvent =
    | UnitReady(unit: UnitConnection)
    | UnitError(unit: UnitConnection, msg: string)
    | UnitDisconnected(unit: UnitConnection)

  class RegistrationServer {
    /** m_units: the live unit connections. */
    var units: set<UnitConnection>
    /** m_nextUnitID: the id the next accepted connection receives. */
    var nextUnitID: nat
    /** The profile directory: file name to stored record. */
    var store: map<string, Json>
    /** The signals emitted so far, in order. */
    var events: seq<ServerEvent>
    /** Every connection ever accepted, in order of acceptance. */
    ghost var issued: seq<UnitConnection>

    /**
     * Ids are handed out consecutively from 1 in order of acceptance, so they
     * are strictly increasing and never reused; every live unit was accepted.
     */
    ghost predicate Valid()
      reads this, issued
    {
      && nextUnitID == |issued| + 1
      && (forall i :: 0 <= i < |issued| ==> issued[i].unitID == i + 1)
      && (forall u :: u in units ==> u in issued)
    }

    /** The constructor: no units, the first id is 1, the profile directory as found. */
    constructor(existing: map<string, Json>)
      ensures Valid()
      ensures units == {} && nextUnitID == 1 && store == existing && events == [] && issued == []
    {
      units := {};
      nextUnitID := 1;
      store := existing;
      events := [];
      issued := [];
    }

    /**
     * onNewConnection: one new unit connection per pending socket, in order,
     * each given the next id and added to the live set.
     */
    method OnNewConnection(pending: seq<string>) returns (created: seq<UnitConnection>)
      requires Valid()
      modifies this
      ensures Valid()
      ensures |created| == |pending| && issued == old(issued) + created
      ensures forall i :: 0 <= i < |created| ==>
                && fresh(created[i])
                && created[i].unitID == old(nextUnitID) + i
                && created[i].peerAddress == pending[i]
                && created[i].State() == Initial()
      ensures nextUnitID == old(nextUnitID) + |pending|
      ensures forall u :: u in units <==> u in old(units) || u in created
      ensures store == old(store) && events == old(events)
    {
      created := [];
      var i := 0;
      while i < |pending|
        invariant 0 <= i <= |pending| && |created| == i
        invariant Valid() && issued == old(issued) + created
        invariant forall k :: 0 <= k < i ==>
                    && fresh(created[k])
                    && created[k].unitID == old(nextUnitID) + k
                    && created[k].peerAddress == pending[k]
                    && created[k].State() == Initial()
        invariant nextUnitID == old(nextUnitID) + i
        invariant forall u :: u in units <==> u in old(units) || u in created
        invariant store == old(store) && events == old(events)
      {
        var unit := new UnitConnection(pending[i]);
        unit.SetUnitID(nextUnitID);
        nextUnitID := nextUnitID + 1;
        units := units + {unit};
        issued := issued + [unit];
        created := created + [unit];
        i := i + 1;
      }
    }

    /** onUnitHello: unitReady for the unit. */
    method OnUnitHello(unit: UnitConnection)
      modifies this
      ensures events == old(events) + [UnitReady(unit)]
      ensures units == old(units) && nextUnitID == old(nextUnitID) && store == old(store) && issued == old(issued)
    {
      events := events + [UnitReady(unit)];
    }

    /** onUnitProtocolError: unitError with the same unit and the same message. */
    method OnUnitProtocolError(unit: UnitConnection, msg: string)
      modifies this
      ensures events == old(events) + [UnitError(unit, msg)]
      ensures units == old(units) && nextUnitID == old(nextUnitID) && store == old(store) && issued == old(issued)
    {
      events := events + [UnitError(unit, msg)];
    }

    /**
     * onUnitDisconnectedInternal: the unit leaves the live set, the other
     * members stay, and then unitDisconnected is emitted.
     */
    method OnUnitDisconnectedInternal(unit: UnitConnection)
      requires Valid()
      modifies this
      ensures Valid()
      ensures units == old(units) - {unit} && unit !in units
      ensures events == old(events) + [UnitDisconnected(unit)]
      ensures nextUnitID == old(nextUnitID) && store == old(store) && issued == old(issued)
    {
      units := units - {unit};
      events := events + [UnitDisconnected(unit)];
    }

    /**
     * validateOrCreateTypeFile: an existing profile is left alone and accepted;
     * otherwise a record of the unit's sensors and actuators is created, unless
     * creating the file fails.
     */
    method ValidateOrCreateTypeFile(unit: UnitConnection, createFails: bool) returns (ok: bool)
      modifies this
      ensures var key := ProfileKey(unit.unitType, unit.unitSubtype);
              && (key in old(store) ==> ok && store == old(store))
              && (key !in old(store) && createFails ==> !ok && store == old(store))
              && (key !in old(store) && !createFails ==>
                    ok && store == old(store)[key := ProfileRecord(unit.sensors, unit.actuators)])
      ensures units == old(units) && nextUnitID == old(nextUnitID) && events == old(events) && issued == old(issued)
    {
      var filename := ProfileKey(unit.unitType, unit.unitSubtype);
      if filename in store {
        return true;
      }
      if createFails {
        return false;
      }
      var sArray := ComponentsArray(unit.sensors);
      var aArray := ComponentsArray(unit.actuators);
      assert sArray == ComponentsJson(unit.sensors) && aArray == ComponentsJson(unit.actuators);
      store := store[filename := JObject(map["sensors" := JArray(sArray), "actuators" := JArray(aArray)])];
      return true;
    }

    /**
     * onUnitDescribe: validate or create the profile, then emit unitReady
     * whatever the outcome.
     */
    method OnUnitDescribe(unit: UnitConnection, createFails: bool)
      modifies this
      ensures var key := ProfileKey(unit.unitType, unit.unitSubtype);
              && (key in old(store) || createFails ==> store == old(store))
              && (key !in old(store) && !createFails ==>
                    store == old(store)[key := ProfileRecord(unit.sensors, unit.actuators)])
      ensures events == old(events) + [UnitReady(unit)]
      ensures units == old(units) && nextUnitID == old(nextUnitID) && issued == old(issued)
    {
      var _ := ValidateOrCreateTypeFile(unit, createFails);
      events := events + [UnitReady(unit)];
    }
  }
}
