/** The setting-trace registry of the Tcl interpreter
    (src/commands/Interpreter.cc): every setting is mirrored by a global Tcl
    variable, kept in sync by a variable trace whose client data is an id
    from a counter. A vector of (id, setting) sorted on id maps ids back to
    settings, so a trace that fires after its setting was unregistered finds
    nothing and does nothing. Tcl values are strings; the Tcl variable store
    is a map from names to values. */
module TclTraces {

  datatype Option<T> = None | Some(value: T)

  /** Tcl result codes. */
  const TCL_OK: int := 0
  const TCL_ERROR: int := 1

  /** The value getSafeValue falls back to for a setting without a value. */
  const SAFE_DEFAULT: string := "0"

  const EMPTY_MACHINE_MESSAGE: string := "Can't execute command in empty machine"

  /** A setting (BaseSetting) as the traces see it. Which values it accepts,
      and what each becomes once stored (a setting may normalise a value),
      is the map accepts; any other value is rejected with failMessage. A
      setting without a value (a proxy setting while there is no machine)
      fails getValue with failMessage as well. */
  class BaseSetting {
    const fullName: string
    var value: Option<string>
    const defaultValue: string
    const accepts: map<string, string>
    const failMessage: string

    constructor (fullName: string, value: Option<string>, defaultValue: string, accepts: map<string, string>, failMessage: string)
      ensures this.fullName == fullName && this.value == value && this.defaultValue == defaultValue
      ensures this.accepts == accepts && this.failMessage == failMessage
    {
      this.fullName := fullName;
      this.value := value;
      this.defaultValue := defaultValue;
      this.accepts := accepts;
      this.failMessage := failMessage;
    }

    /** setValueDirect: store an accepted value, or throw. */
    method SetValueDirect(v: string) returns (err: Option<string>)
      modifies this`value
      ensures v in accepts ==> err == None && value == Some(accepts[v])
      ensures v !in accepts ==> err == Some(failMessage) && value == old(value)
    {
      if v in accepts {
        value := Some(accepts[v]);
        err := None;
      } else {
        err := Some(failMessage);
      }
    }
  }

  /** getSafeValue: the setting's value, or "0" when it has none. */
  function SafeValue(value: Option<string>): string
  {
    if value.Some? then value.value else SAFE_DEFAULT
  }

  /** One element of the traces vector. */
  datatype Trace = Trace(id: nat, setting: BaseSetting)

  /** The vector is sorted on id, strictly: ids are unique. */
  ghost predicate IdsSorted(ts: seq<Trace>)
  {
    forall i, j :: 0 <= i < j < |ts| ==> ts[i].id < ts[j].id
  }

  /** The setting registered under id, if any. */
  function SettingOf(ts: seq<Trace>, id: nat): (r: Option<BaseSetting>)
    ensures r.None? <==> forall k :: 0 <= k < |ts| ==> ts[k].id != id
    ensures r.Some? ==> exists k :: 0 <= k < |ts| && ts[k] == Trace(id, r.value)
  {
    if ts == [] then None
    else if ts[|ts| - 1].id == id then Some(ts[|ts| - 1].setting)
    else
      var r := SettingOf(ts[..|ts| - 1], id);
      assert forall k :: 0 <= k < |ts| - 1 ==> ts[..|ts| - 1][k] == ts[k];
      r
  }

  /** With unique ids every element is found under its own id. */
  lemma {:induction false} SettingOfAt(ts: seq<Trace>, k: nat)
    requires IdsSorted(ts) && k < |ts|
    ensures SettingOf(ts, ts[k].id) == Some(ts[k].setting)
    decreases |ts|
  {
    if k < |ts| - 1 {
      var init := ts[..|ts| - 1];
      assert init[k] == ts[k];
      SettingOfAt(init, k);
    }
  }

  /** Registering under the next id: the new id finds the new setting,
      every other id finds what it found before. */
  lemma RegisterLookup(ts: seq<Trace>, count: nat, s: BaseSetting, id: nat)
    requires forall k :: 0 <= k < |ts| ==> ts[k].id < count
    ensures SettingOf(ts + [Trace(count, s)], id) == if id == count then Some(s) else SettingOf(ts, id)
  {
    assert (ts + [Trace(count, s)])[..|ts|] == ts;
  }

  /** Erasing an element keeps the ids sorted. */
  lemma EraseSorted(ts: seq<Trace>, k: nat)
    requires IdsSorted(ts) && k < |ts|
    ensures IdsSorted(ts[..k] + ts[k + 1..])
  {
    var rest := ts[..k] + ts[k + 1..];
    forall i, j | 0 <= i < j < |rest|
      ensures rest[i].id < rest[j].id
    {
      var i' := if i < k then i else i + 1;
      var j' := if j < k then j else j + 1;
      assert rest[i] == ts[i'] && rest[j] == ts[j'];
    }
  }

  /** Erasing element k: its id finds nothing any more, and every other id
      finds what it found before. */
  lemma {:induction false} EraseLookup(ts: seq<Trace>, k: nat, id: nat)
    requires IdsSorted(ts) && k < |ts|
    ensures SettingOf(ts[..k] + ts[k + 1..], id) == if id == ts[k].id then None else SettingOf(ts, id)
  {
    var rest := ts[..k] + ts[k + 1..];
    EraseSorted(ts, k);
    var r := SettingOf(ts, id);
    if id == ts[k].id || r.None? {
      forall j | 0 <= j < |rest|
        ensures rest[j].id != id
      {
        var j' := if j < k then j else j + 1;
        assert rest[j] == ts[j'];
      }
    } else {
      var j :| 0 <= j < |ts| && ts[j] == Trace(id, r.value);
      var j' := if j < k then j else j - 1;
      assert rest[j'] == ts[j];
      SettingOfAt(rest, j');
    }
  }

  /** What a command's execute did: returned a result or threw an
      MSXException with a message. */
  datatype Outcome = Returned(result: string) | Threw(message: string)

  /** commandProc: a command that is not allowed in an empty machine,
      issued through an MSX command controller whose machine has no
      configuration, fails without being executed; otherwise the command
      runs, and an exception becomes TCL_ERROR with its message as the
      result. */
  function CommandProc(allowedInEmptyMachine: bool, msxController: bool, hasMachineConfig: bool, execute: Outcome): (r: (int, string))
    ensures r.0 == TCL_OK || r.0 == TCL_ERROR
    ensures !allowedInEmptyMachine && msxController && !hasMachineConfig ==> r == (TCL_ERROR, EMPTY_MACHINE_MESSAGE)
    ensures allowedInEmptyMachine || !msxController || hasMachineConfig ==>
      (r.0 == TCL_OK <==> execute.Returned?) &&
      (execute.Returned? ==> r.1 == execute.result) &&
      (execute.Threw? ==> r.1 == execute.message)
  {
    var run := if !allowedInEmptyMachine && msxController && !hasMachineConfig
      then Threw(EMPTY_MACHINE_MESSAGE) else execute;
    match run
    case Returned(result) => (TCL_OK, result)
    case Threw(message) => (TCL_ERROR, message)
  }

  /** The kind of access a Tcl variable trace reports. */
  datatype TraceOp = Read | Write | Unset

  /** The interpreter's side of the settings: the global traces vector and
      its id counter, the Tcl global variables and the Tcl traces set on
      them (variable name and client-data id). */
  class Interpreter {
    var traces: seq<Trace>
    var traceCount: nat
    var vars: map<string, string>
    var tclTraces: set<(string, nat)>

    /** traces is sorted on id, and every id was issued by the counter. */
    ghost predicate Valid()
      reads this
    {
      IdsSorted(traces) && forall k :: 0 <= k < |traces| ==> traces[k].id < traceCount
    }

    ghost function Settings(): set<BaseSetting>
      reads this
    {
      set k | 0 <= k < |traces| :: traces[k].setting
    }

    constructor (vars: map<string, string>)
      ensures Valid() && traces == [] && traceCount == 0 && this.vars == vars && tclTraces == {}
    {
      traces := [];
      traceCount := 0;
      this.vars := vars;
      tclTraces := {};
    }

    /** registerSetting: synchronise the Tcl variable with the setting
        (an existing variable's value is pushed into the setting, and a
        rejection is ignored; otherwise the variable is created with the
        safe value), then append a trace under the next id. */
    method RegisterSetting(setting: BaseSetting)
      requires Valid()
      modifies this, setting`value
      ensures Valid()
      ensures traces == old(traces) + [Trace(old(traceCount), setting)] && traceCount == old(traceCount) + 1
      ensures tclTraces == old(tclTraces) + {(setting.fullName, old(traceCount))}
      ensures setting.fullName in old(vars) ==>
        vars == old(vars) &&
        setting.value == (if old(vars)[setting.fullName] in setting.accepts
          then Some(setting.accepts[old(vars)[setting.fullName]]) else old(setting.value))
      ensures setting.fullName !in old(vars) ==>
        vars == old(vars)[setting.fullName := SafeValue(old(setting.value))] && setting.value == old(setting.value)
    {
      var name := setting.fullName;
      if name in vars {
        var ignored := setting.SetValueDirect(vars[name]);
      } else {
        vars := vars[name := SafeValue(setting.value)];
      }
      var traceId := traceCount;
      traceCount := traceCount + 1;
      traces := traces + [Trace(traceId, setting)];
      tclTraces := tclTraces + {(name, traceId)};
    }

    /** rfind_unguarded on the setting: the index of the last trace of the
        setting. */
    method FindLast(setting: BaseSetting) returns (k: nat)
      requires exists j :: 0 <= j < |traces| && traces[j].setting == setting
      ensures k < |traces| && traces[k].setting == setting
      ensures forall j :: k < j < |traces| ==> traces[j].setting != setting
    {
      k := |traces|;
      while true
        invariant k <= |traces|
        invariant forall j :: k <= j < |traces| ==> traces[j].setting != setting
        invariant exists j :: 0 <= j < k && traces[j].setting == setting
        decreases k
      {
        k := k - 1;
        if traces[k].setting == setting {
          return;
        }
      }
    }

    /** unregisterSetting: erase the last trace of the setting, remove its
        Tcl trace, then unset the variable (the trace is gone, so unsetting
        does not call back). */
    method UnregisterSetting(setting: BaseSetting)
      requires Valid() && exists j :: 0 <= j < |traces| && traces[j].setting == setting
      modifies this
      ensures Valid() && traceCount == old(traceCount)
      ensures exists k ::
        (0 <= k < |old(traces)| && old(traces)[k].setting == setting &&
         (forall j :: k < j < |old(traces)| ==> old(traces)[j].setting != setting) &&
         traces == old(traces)[..k] + old(traces)[k + 1..] &&
         tclTraces == old(tclTraces) - {(setting.fullName, old(traces)[k].id)})
      ensures vars == old(vars) - {setting.fullName}
    {
      var k := FindLast(setting);
      var traceId := traces[k].id;
      EraseSorted(traces, k);
      traces := traces[..k] + traces[k + 1..];
      tclTraces := tclTraces - {(setting.fullName, traceId)};
      vars := vars - {setting.fullName};
    }

    /** getTraceSetting: binary search on id. */
    method GetTraceSetting(id: nat) returns (s: Option<BaseSetting>)
      requires Valid()
      ensures s == SettingOf(traces, id)
    {
      var lo, hi := 0, |traces|;
      while lo < hi
        invariant 0 <= lo <= hi <= |traces|
        invariant forall k :: 0 <= k < lo ==> traces[k].id < id
        invariant forall k :: hi <= k < |traces| ==> traces[k].id > id
        decreases hi - lo
      {
        var mid := (lo + hi) / 2;
        if traces[mid].id < id {
          lo := mid + 1;
        } else if traces[mid].id > id {
          hi := mid;
        } else {
          SettingOfAt(traces, mid);
          return Some(traces[mid].setting);
        }
      }
      s := None;
    }

    /** traceProc for the trace with client data id: look the setting up
        (an id that is no longer registered changes nothing), then
        - read: the variable takes the setting's value;
        - write: the setting takes the variable's value; if it then holds a
          different value the variable is rewritten with it; a rejected
          value resets the variable to the safe value and the message is
          returned;
        - unset: the setting goes back to its default (a rejected default
          keeps the current value), the variable is recreated with the safe
          value and the trace is set again with the same id. */
    method TraceProc(id: nat, op: TraceOp) returns (err: Option<string>)
      requires Valid()
      modifies this`vars, this`tclTraces, Settings()
      ensures Valid() && traces == old(traces) && traceCount == old(traceCount)
      ensures SettingOf(traces, id).None? ==>
        err == None && vars == old(vars) && tclTraces == old(tclTraces) &&
        forall t :: t in Settings() ==> t.value == old(t.value)
      ensures SettingOf(traces, id).Some? ==>
        var s := SettingOf(traces, id).value;
        var name := s.fullName;
        (forall t :: t in Settings() && t != s ==> t.value == old(t.value)) &&
        (op == Read ==>
          tclTraces == old(tclTraces) && s.value == old(s.value) &&
          (old(s.value).Some? ==> err == None && vars == old(vars)[name := old(s.value).value]) &&
          (old(s.value).None? ==> err == Some(s.failMessage) && vars == old(vars))) &&
        (op == Write ==>
          var v := if name in old(vars) then old(vars)[name] else "";
          tclTraces == old(tclTraces) &&
          (v in s.accepts ==>
            err == None && s.value == Some(s.accepts[v]) &&
            vars == (if s.accepts[v] != v then old(vars)[name := s.accepts[v]] else old(vars))) &&
          (v !in s.accepts ==>
            err == Some(s.failMessage) && s.value == old(s.value) &&
            vars == old(vars)[name := SafeValue(old(s.value))])) &&
        (op == Unset ==>
          err == None && tclTraces == old(tclTraces) + {(name, id)} &&
          s.value == (if s.defaultValue in s.accepts then Some(s.accepts[s.defaultValue]) else old(s.value)) &&
          vars == old(vars)[name := SafeValue(s.value)])
    {
      var found := GetTraceSetting(id);
      if found.None? {
        return None;
      }
      var setting := found.value;
      var name := setting.fullName;
      ghost var k :| 0 <= k < |traces| && traces[k] == Trace(id, setting);
      assert setting in Settings();
      err := None;
      match op {
        case Read =>
          if setting.value.None? {
            return Some(setting.failMessage);
          }
          vars := vars[name := setting.value.value];
        case Write =>
          var newValue := if name in vars then vars[name] else "";
          var e := setting.SetValueDirect(newValue);
          if e.Some? {
            vars := vars[name := SafeValue(setting.value)];
            return e;
          }
          var newValue2 := setting.value.value;
          if newValue != newValue2 {
            vars := vars[name := newValue2];
          }
        case Unset =>
          var ignored := setting.SetValueDirect(setting.defaultValue);
          vars := vars[name := SafeValue(setting.value)];
          tclTraces := tclTraces + {(name, id)};
      }
    }
  }
}
