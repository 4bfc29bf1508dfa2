/** The signal-handler registry mixed into the engine and the document
    helper: for every object, the handler ids connected under every signal
    name, in connection order.  Objects are identified by a numeric handle;
    the handler id is whatever the host's `connect`/`connect_after` returned. */
module Signals {

  type HandlerId = nat

  /** Handler ids per signal name, for one object. */
  type Names = map<string, seq<HandlerId>>

  /** The whole registry: object handle to its names. */
  type Registry = map<nat, Names>

  /** Every handler id recorded under any name of one object. */
  function AllIds(names: Names): set<HandlerId> {
    set n, h | n in names && h in names[n] :: h
  }

  /** `_connect` (and so `connect_signal` and `connect_signal_after`, which
      differ only in the host connector that produced `hid`): the new id is
      appended after the ids already recorded under `(obj, name)`; nothing
      else in the registry changes. */
  function Connect(reg: Registry, obj: nat, name: string, hid: HandlerId): (r: Registry)
    ensures obj in r && name in r[obj]
    ensures |r[obj][name]| > 0 && r[obj][name][|r[obj][name]| - 1] == hid
    ensures obj in reg && name in reg[obj] ==> r[obj][name][..|r[obj][name]| - 1] == reg[obj][name]
    ensures !(obj in reg && name in reg[obj]) ==> r[obj][name] == [hid]
    ensures r.Keys == reg.Keys + {obj}
    ensures forall o :: o in reg && o != obj ==> r[o] == reg[o]
    ensures obj in reg ==> r[obj].Keys == reg[obj].Keys + {name}
    ensures obj !in reg ==> r[obj].Keys == {name}
    ensures obj in reg ==> forall n :: n in reg[obj] && n != name ==> r[obj][n] == reg[obj][n]
  {
    var names := if obj in reg then reg[obj] else map[];
    var ids := if name in names then names[name] else [];
    reg[obj := names[name := ids + [hid]]]
  }

  /** `disconnect_signals(obj)`: an unknown object yields `false` and no
      change; otherwise every recorded id of the object is disconnected and
      the object is forgotten.  Returns (result, registry, ids disconnected). */
  function DisconnectSignals(reg: Registry, obj: nat): (r: (bool, Registry, set<HandlerId>))
    ensures !r.0 <==> obj !in reg
    ensures !r.0 ==> r.1 == reg && r.2 == {}
    ensures r.0 ==> r.2 == AllIds(reg[obj])
    ensures obj !in r.1
    ensures forall o :: o in reg && o != obj ==> o in r.1 && r.1[o] == reg[o]
    ensures r.1.Keys == reg.Keys - {obj}
  {
    if obj !in reg then (false, reg, {})
    else (true, map o | o in reg && o != obj :: reg[o], AllIds(reg[obj]))
  }

  /** `disconnect_signal(obj, name)`: `false` and no change when the object
      or the name is not recorded; otherwise the ids of that one name are
      disconnected in order, the name is dropped, and the object is dropped
      with its last name.  Other names and objects are untouched. */
  function DisconnectSignal(reg: Registry, obj: nat, name: string): (r: (bool, Registry, seq<HandlerId>))
    ensures !r.0 <==> !(obj in reg && name in reg[obj])
    ensures !r.0 ==> r.1 == reg && r.2 == []
    ensures r.0 ==> r.2 == reg[obj][name]
    ensures r.0 ==> (obj in r.1 <==> reg[obj].Keys != {name})
    ensures r.0 && obj in r.1 ==> r.1[obj].Keys == reg[obj].Keys - {name}
    ensures r.0 && obj in r.1 ==> forall n :: n in reg[obj] && n != name ==> r.1[obj][n] == reg[obj][n]
    ensures forall o :: o in reg && o != obj ==> o in r.1 && r.1[o] == reg[o]
    ensures r.1.Keys <= reg.Keys
  {
    if obj !in reg || name !in reg[obj] then (false, reg, [])
    else
      var names := map n | n in reg[obj] && n != name :: reg[obj][n];
      var reg' := if |names| == 0 then map o | o in reg && o != obj :: reg[o] else reg[obj := names];
      assert |names| == 0 <==> reg[obj].Keys == {name} by {
        assert names.Keys == reg[obj].Keys - {name};
        if reg[obj].Keys != {name} {
          var n :| n in reg[obj].Keys && n != name;
          assert n in names;
        }
      }
      (true, reg', reg[obj][name])
  }

  /** Every recorded object has at least one name (connecting always adds one,
      and disconnecting drops an object together with its last name). */
  predicate WellFormed(reg: Registry) {
    forall o :: o in reg ==> reg[o] != map[]
  }

  /** Connecting a handler under a name the object did not have, then
      disconnecting that name, restores the registry exactly and hands back
      just that handler id. */
  lemma ConnectThenDisconnectSignal(reg: Registry, obj: nat, name: string, hid: HandlerId)
    requires WellFormed(reg)
    requires !(obj in reg && name in reg[obj])
    ensures DisconnectSignal(Connect(reg, obj, name, hid), obj, name) == (true, reg, [hid])
  {
    var c := Connect(reg, obj, name, hid);
    var r := DisconnectSignal(c, obj, name);
    if obj in reg {
      assert r.1[obj].Keys == reg[obj].Keys;
      assert r.1[obj] == reg[obj];
      assert r.1 == reg;
    } else {
      assert r.1.Keys == reg.Keys;
      assert r.1 == reg;
    }
  }

  /** The registry operations keep every recorded object non-empty. */
  lemma OperationsKeepWellFormed(reg: Registry, obj: nat, name: string, hid: HandlerId)
    requires WellFormed(reg)
    ensures WellFormed(Connect(reg, obj, name, hid))
    ensures WellFormed(DisconnectSignals(reg, obj).1)
    ensures WellFormed(DisconnectSignal(reg, obj, name).1)
  {
    var c := Connect(reg, obj, name, hid);
    assert name in c[obj];
  }

  /** Every id connected for an object is handed back when the object is
      disconnected. */
  lemma ConnectedIdIsDisconnected(reg: Registry, obj: nat, name: string, hid: HandlerId)
    ensures var r := DisconnectSignals(Connect(reg, obj, name, hid), obj);
            r.0 && hid in r.2 && obj !in r.1
  {
    var c := Connect(reg, obj, name, hid);
    assert hid in c[obj][name];
  }
}
