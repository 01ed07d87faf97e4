/** The newer hmpl-dom runtime: string ids, `value.compile` and
    `value.templateFunction`, a second `init` throws, and every template is
    checked before it is compiled. */
module Runtime {
  import opened Wrappers
  import opened Js
  import opened Dom
  import opened Configs

  const DataHmplAttr := "data-hmpl"
  const HmplAttr := "hmpl"
  const DataConfigIdAttr := "data-config-id"
  const ConfigIdAttr := "configId"

  /** Templates carrying either marker are picked up by the mount pass. */
  const Markers: set<string> := {DataHmplAttr, HmplAttr}

  // ---------------------------------------------------------------------
  // Configuration validation

  /** The shape `validateInitOption` accepts: a plain object with an own
      string `id` and an own plain-object `value`. */
  predicate ValidConfig(c: JsValue) {
    && c.Obj?
    && "id" in c.props && "value" in c.props
    && c.props["id"].Str?
    && c.props["value"].Obj?
  }

  /** `validateInitOption`: the rules are tried in a fixed order and the first
      that fails decides the error. */
  function ValidateConfig(c: JsValue): (r: Outcome<InitError>)
    ensures r.Pass? <==> ValidConfig(c)
    ensures !c.Obj? ==> r == Fail(NotAnObject)
    ensures c.Obj? && ("id" !in c.props || "value" !in c.props) ==> r == Fail(MissingIdOrValue)
    ensures c.Obj? && "id" in c.props && "value" in c.props && !c.props["id"].Str? ==>
              r == Fail(InvalidIdType)
    ensures c.Obj? && "id" in c.props && "value" in c.props && c.props["id"].Str? && !c.props["value"].Obj? ==>
              r == Fail(ValueNotObject)
  {
    if !CheckObject(c) then Fail(NotAnObject)
    else if !HasOwn(c, "id") || !HasOwn(c, "value") then Fail(MissingIdOrValue)
    else if TypeOf(Get(c, "id")) != "string" then Fail(InvalidIdType)
    else if !CheckObject(Get(c, "value")) then Fail(ValueNotObject)
    else Pass
  }

  /** The registry key of a configuration: its string id. */
  function ConfigId(c: JsValue): string {
    if ValidConfig(c) then c.props["id"].s else ""
  }

  /** Every registered configuration is valid and is keyed by its own id. */
  predicate WellFormedRegistry(reg: map<string, JsValue>) {
    forall k :: k in reg ==> ValidConfig(reg[k]) && ConfigId(reg[k]) == k
  }

  /** Valid configurations with distinct ids have distinct registry keys. */
  lemma DistinctConfigIds(cs: seq<JsValue>, i: nat, j: nat)
    requires IdsDistinct(cs)
    requires i < j < |cs| && ValidConfig(cs[i]) && ValidConfig(cs[j])
    ensures ConfigId(cs[i]) != ConfigId(cs[j])
  {
    assert IdOf(cs[i]) == Some(cs[i].props["id"]);
    assert IdOf(cs[j]) == Some(cs[j].props["id"]);
  }

  /** With distinct ids, a valid entry's key differs from the key of every
      later valid entry up to `done`. */
  lemma LaterIdsDiffer(cs: seq<JsValue>, i: nat, done: nat)
    requires IdsDistinct(cs)
    requires i < done <= |cs|
    requires forall j :: i <= j < done ==> ValidConfig(cs[j])
    ensures forall j :: i < j < done ==> ConfigId(cs[j]) != ConfigId(cs[i])
  {
    forall j | i < j < done
      ensures ConfigId(cs[j]) != ConfigId(cs[i])
    {
      DistinctConfigIds(cs, i, j);
    }
  }

  /** Where the registration loop of `init` stopped: the registry it built,
      how many configurations it registered, and whether it threw. */
  datatype Registration = Registration(registry: map<string, JsValue>, done: nat, outcome: Outcome<InitError>)

  /** The loop of `init` from index `i`: validate each configuration, then
      store it under its id; the first invalid one stops the loop, leaving
      the configurations before it registered. */
  function Register(reg: map<string, JsValue>, cs: seq<JsValue>, i: nat): (r: Registration)
    requires i <= |cs|
    decreases |cs| - i
    ensures i <= r.done <= |cs|
    ensures forall j :: i <= j < r.done ==> ValidConfig(cs[j])
    ensures r.outcome.Pass? <==> r.done == |cs|
    ensures r.done < |cs| ==> r.outcome == ValidateConfig(cs[r.done]) && r.outcome.Fail?
  {
    if i == |cs| then Registration(reg, i, Pass)
    else
      match ValidateConfig(cs[i])
      case Fail(e) => Registration(reg, i, Fail(e))
      case Pass => Register(reg[ConfigId(cs[i]) := cs[i]], cs, i + 1)
  }

  /** The keys after the registration loop: the old ones plus the id of
      every configuration it registered. */
  lemma {:induction false} RegisterKeys(reg: map<string, JsValue>, cs: seq<JsValue>, i: nat)
    requires i <= |cs|
    decreases |cs| - i
    ensures var r := Register(reg, cs, i);
      forall k :: k in r.registry <==> k in reg || exists j :: i <= j < r.done && ConfigId(cs[j]) == k
  {
    if i < |cs| && ValidateConfig(cs[i]).Pass? {
      var key := ConfigId(cs[i]);
      var reg' := reg[key := cs[i]];
      RegisterKeys(reg', cs, i + 1);
      var r := Register(reg', cs, i + 1);
      assert r == Register(reg, cs, i);
      forall k
        ensures k in r.registry <==> k in reg || exists j :: i <= j < r.done && ConfigId(cs[j]) == k
      {
        if k == key {
          assert ConfigId(cs[i]) == k;
        } else if exists j :: i <= j < r.done && ConfigId(cs[j]) == k {
          var j :| i <= j < r.done && ConfigId(cs[j]) == k;
          assert j != i;
        }
      }
    }
  }

  /** An old entry whose key no registered configuration uses keeps its value. */
  lemma {:induction false} RegisterKeepsOthers(reg: map<string, JsValue>, cs: seq<JsValue>, i: nat, k: string)
    requires i <= |cs|
    requires k in reg
    decreases |cs| - i
    ensures var r := Register(reg, cs, i);
      (forall j :: i <= j < r.done ==> ConfigId(cs[j]) != k) ==> k in r.registry && r.registry[k] == reg[k]
  {
    if i < |cs| && ValidateConfig(cs[i]).Pass? {
      var reg' := reg[ConfigId(cs[i]) := cs[i]];
      RegisterKeepsOthers(reg', cs, i + 1, k);
      assert Register(reg', cs, i + 1) == Register(reg, cs, i);
    }
  }

  /** Every registered configuration is stored under its own id; with distinct ids no
      later configuration overwrites it. */
  lemma {:induction false} RegisterValues(reg: map<string, JsValue>, cs: seq<JsValue>, i: nat)
    requires i <= |cs|
    requires IdsDistinct(cs)
    decreases |cs| - i
    ensures var r := Register(reg, cs, i);
      forall j :: i <= j < r.done ==> ConfigId(cs[j]) in r.registry && r.registry[ConfigId(cs[j])] == cs[j]
  {
    if i < |cs| && ValidateConfig(cs[i]).Pass? {
      var key := ConfigId(cs[i]);
      var reg' := reg[key := cs[i]];
      RegisterValues(reg', cs, i + 1);
      RegisterKeepsOthers(reg', cs, i + 1, key);
      var r := Register(reg', cs, i + 1);
      assert r == Register(reg, cs, i);
      LaterIdsDiffer(cs, i, r.done);
      assert key in r.registry && r.registry[key] == cs[i];
    }
  }

  /** `reg` is `before` plus the first `k` entries of `cs`, each stored under
      its own id, and nothing else. */
  ghost predicate RegisteredPrefix(before: map<string, JsValue>, cs: seq<JsValue>, k: nat, reg: map<string, JsValue>)
    requires k <= |cs|
  {
    && (forall key :: key in reg <==> key in before || exists i :: 0 <= i < k && ConfigId(cs[i]) == key)
    && (forall i :: 0 <= i < k ==> ConfigId(cs[i]) in reg && reg[ConfigId(cs[i])] == cs[i])
  }

  /** A registration loop that throws stops at some index `k`: every earlier
      entry was valid and is stored under its own id, and the map holds
      nothing else new. */
  lemma RegisterFailure(reg: map<string, JsValue>, cs: seq<JsValue>)
    requires IdsDistinct(cs)
    requires Register(reg, cs, 0).outcome.Fail?
    ensures var r := Register(reg, cs, 0);
      exists k :: 0 <= k < |cs|
        && (forall i :: 0 <= i < k ==> ValidConfig(cs[i]))
        && r.outcome == ValidateConfig(cs[k])
        && RegisteredPrefix(reg, cs, k, r.registry)
  {
    var r := Register(reg, cs, 0);
    RegisterKeys(reg, cs, 0);
    RegisterValues(reg, cs, 0);
    var k := r.done;
    assert 0 <= k < |cs|;
    assert forall i :: 0 <= i < k ==> ValidConfig(cs[i]);
    assert r.outcome == ValidateConfig(cs[k]);
    assert RegisteredPrefix(reg, cs, k, r.registry);
  }

  /** Registering valid configurations keyed by their own ids keeps a
      well-formed registry well formed. */
  lemma RegisterKeepsWellFormed(reg: map<string, JsValue>, cs: seq<JsValue>, i: nat)
    requires i <= |cs| && IdsDistinct(cs)
    ensures WellFormedRegistry(reg) ==> WellFormedRegistry(Register(reg, cs, i).registry)
  {
    var r := Register(reg, cs, i);
    RegisterKeys(reg, cs, i);
    RegisterValues(reg, cs, i);
    forall k | WellFormedRegistry(reg) && k in r.registry
      ensures ValidConfig(r.registry[k]) && ConfigId(r.registry[k]) == k
    {
      if j :| i <= j < r.done && ConfigId(cs[j]) == k {
      } else {
        RegisterKeepsOthers(reg, cs, i, k);
      }
    }
  }

  // ---------------------------------------------------------------------
  // The init-once state machine

  /** Module state: the `initialized` flag, `initOptionsMap`, and how many
      times `onDocumentLoad(mountTemplates)` has been called. While the
      document is loading, repeated calls add one listener and so one pass
      (see README, "Left out"). */
  datatype State = State(initialized: bool, options: map<string, JsValue>, mounts: nat)

  /** The state right after the module is loaded. */
  const Loaded := State(false, map[], 0)

  /** The state after a call of `init`, and whether the call threw. */
  datatype Step = Step(state: State, outcome: Outcome<InitError>)

  /** The configuration array `init` sees: an omitted argument defaults to `[]`. */
  function ArgList(configs: Option<seq<JsValue>>): seq<JsValue> {
    configs.GetOr([])
  }

  /** `init(configs)`. The flag is set before anything is validated, the
      duplicate-id scan runs before the per-configuration checks, and only a
      call that passes every check calls `onDocumentLoad(mountTemplates)`. */
  function Init(s: State, configs: Option<seq<JsValue>>): (r: Step)
    ensures r.state.initialized
    ensures s.initialized ==> r == Step(s, Fail(AlreadyInitialized))
    ensures !s.initialized ==>
      (r.outcome.Pass? <==> IdsDistinct(ArgList(configs)) && forall i :: 0 <= i < |ArgList(configs)| ==> ValidConfig(ArgList(configs)[i]))
    ensures !s.initialized && !IdsDistinct(ArgList(configs)) ==>
      r.outcome.Fail? && (r.outcome.error.DuplicateId? || r.outcome.error.NullishRead?) && r.state.options == s.options
    ensures !s.initialized && IdsDistinct(ArgList(configs)) && r.outcome.Fail? ==>
      var cs := ArgList(configs);
      exists k :: 0 <= k < |cs|
        && (forall i :: 0 <= i < k ==> ValidConfig(cs[i]))
        && r.outcome == ValidateConfig(cs[k])
        && RegisteredPrefix(s.options, cs, k, r.state.options)
    ensures r.outcome.Pass? ==>
      var cs := ArgList(configs);
      RegisteredPrefix(s.options, cs, |cs|, r.state.options)
    ensures r.state.mounts == s.mounts + (if r.outcome.Pass? then 1 else 0)
    ensures WellFormedRegistry(s.options) ==> WellFormedRegistry(r.state.options)
  {
    if s.initialized then Step(s, Fail(AlreadyInitialized))
    else
      var s1 := s.(initialized := true);
      var cs := ArgList(configs);
      match ValidateDuplicateIds(cs)
      case Fail(e) => Step(s1, Fail(e))
      case Pass =>
        var reg := Register(s1.options, cs, 0);
        RegisterKeys(s1.options, cs, 0);
        RegisterValues(s1.options, cs, 0);
        RegisterKeepsWellFormed(s1.options, cs, 0);
        match reg.outcome
        case Fail(e) => RegisterFailure(s1.options, cs); Step(s1.(options := reg.registry), Fail(e))
        case Pass => Step(s1.(options := reg.registry, mounts := s.mounts + 1), Pass)
  }

  /** The microtask queued at load: it calls `onDocumentLoad(mountTemplates)`
      only when `init` has not set the flag first. */
  function AutoMount(s: State): (r: State)
    ensures r.initialized == s.initialized && r.options == s.options
    ensures r.mounts == s.mounts + (if s.initialized then 0 else 1)
  {
    if !s.initialized then s.(mounts := s.mounts + 1) else s
  }

  /** What can happen to the module: a call of `init` (`None` for an omitted
      argument) or the queued microtask running. */
  datatype Event = CallInit(configs: Option<seq<JsValue>>) | Microtask

  /** The final state of a sequence of events, and the outcome of each `init`
      call in order. A throwing call still sets the flag (and may leave a
      partly filled map); the run continues from the state it left. */
  datatype Trace = Trace(state: State, outcomes: seq<Outcome<InitError>>)

  function Run(s: State, evs: seq<Event>): Trace
    decreases |evs|
  {
    if evs == [] then Trace(s, [])
    else
      match evs[0]
      case Microtask => Run(AutoMount(s), evs[1..])
      case CallInit(configs) =>
        var step := Init(s, configs);
        var rest := Run(step.state, evs[1..]);
        Trace(rest.state, [step.outcome] + rest.outcomes)
  }

  /** How many of the outcomes passed. */
  function Successes(outs: seq<Outcome<InitError>>): nat {
    if outs == [] then 0 else (if outs[0].Pass? then 1 else 0) + Successes(outs[1..])
  }

  /** How many microtask runs come before the first `init` call. */
  function EarlyMicrotasks(evs: seq<Event>): nat {
    if evs == [] || evs[0].CallInit? then 0 else 1 + EarlyMicrotasks(evs[1..])
  }

  /** Once the flag is set, nothing changes the module state again and every
      later `init` throws, whether or not the first call succeeded. */
  lemma {:induction false} FrozenOnceInitialized(s: State, evs: seq<Event>)
    requires s.initialized
    ensures Run(s, evs).state == s
    ensures forall o :: o in Run(s, evs).outcomes ==> o == Fail(AlreadyInitialized)
    decreases |evs|
  {
    if evs != [] {
      FrozenOnceInitialized(s, evs[1..]);
    }
  }

  /** At most one `init` call ever succeeds. */
  lemma {:induction false} AtMostOneSuccessfulInit(s: State, evs: seq<Event>)
    ensures Successes(Run(s, evs).outcomes) <= (if s.initialized then 0 else 1)
    decreases |evs|
  {
    if evs != [] {
      match evs[0]
      case Microtask =>
        AtMostOneSuccessfulInit(AutoMount(s), evs[1..]);
      case CallInit(configs) =>
        var step := Init(s, configs);
        AtMostOneSuccessfulInit(step.state, evs[1..]);
        NoSuccessOnceInitialized(step.state, evs[1..]);
    }
  }

  /** From an initialized state no `init` call succeeds. */
  lemma NoSuccessOnceInitialized(s: State, evs: seq<Event>)
    requires s.initialized
    ensures Successes(Run(s, evs).outcomes) == 0
  {
    FrozenOnceInitialized(s, evs);
    AllFailedCountsZero(Run(s, evs).outcomes);
  }

  lemma {:induction false} AllFailedCountsZero(outs: seq<Outcome<InitError>>)
    requires forall o :: o in outs ==> o.Fail?
    ensures Successes(outs) == 0
  {
    if outs != [] {
      assert outs[0] in outs;
      assert forall o :: o in outs[1..] ==> o in outs;
      AllFailedCountsZero(outs[1..]);
    }
  }

  /** `onDocumentLoad(mountTemplates)` is called once per successful `init`
      plus once per microtask run that comes before any `init` call. */
  lemma {:induction false} MountCount(s: State, evs: seq<Event>)
    ensures Run(s, evs).state.mounts ==
            s.mounts + Successes(Run(s, evs).outcomes) + (if s.initialized then 0 else EarlyMicrotasks(evs))
    decreases |evs|
  {
    if evs != [] {
      match evs[0]
      case Microtask =>
        MountCount(AutoMount(s), evs[1..]);
      case CallInit(configs) =>
        var step := Init(s, configs);
        MountCount(step.state, evs[1..]);
        var rest := Run(step.state, evs[1..]);
        assert ([step.outcome] + rest.outcomes)[1..] == rest.outcomes;
    }
  }

  /** When `init` is called before the microtask runs, the first call decides
      everything: later calls and the microtask leave its state untouched, so
      `onDocumentLoad` is called once if that call succeeded and never if it threw;
      every later call throws. */
  lemma FirstInitDecides(configs: Option<seq<JsValue>>, rest: seq<Event>)
    ensures Run(Loaded, [CallInit(configs)] + rest).state == Init(Loaded, configs).state
    ensures Run(Loaded, [CallInit(configs)] + rest).state.mounts == (if Init(Loaded, configs).outcome.Pass? then 1 else 0)
    ensures var outs := Run(Loaded, [CallInit(configs)] + rest).outcomes;
      && |outs| >= 1 && outs[0] == Init(Loaded, configs).outcome
      && forall o :: o in outs[1..] ==> o == Fail(AlreadyInitialized)
  {
    var evs := [CallInit(configs)] + rest;
    assert evs[1..] == rest;
    FrozenOnceInitialized(Init(Loaded, configs).state, rest);
  }

  /** Every reachable registry is well formed, so each template lookup finds
      a valid configuration keyed by its own id. */
  lemma {:induction false} ReachableRegistryWellFormed(s: State, evs: seq<Event>)
    requires WellFormedRegistry(s.options)
    ensures WellFormedRegistry(Run(s, evs).state.options)
    decreases |evs|
  {
    if evs != [] {
      match evs[0]
      case Microtask =>
        ReachableRegistryWellFormed(AutoMount(s), evs[1..]);
      case CallInit(configs) =>
        ReachableRegistryWellFormed(Init(s, configs).state, evs[1..]);
    }
  }

  /** The duplicate scan reads `id` before any configuration is checked, so a
      `null` entry throws a TypeError rather than the "must be an object"
      error, and two distinct objects without ids clash on `undefined` before
      the missing-id error can be raised. */
  lemma DuplicateScanComesFirst(c1: JsValue, c2: JsValue)
    ensures Init(Loaded, Some([Null])).outcome == Fail(NullishRead)
    ensures c1.Obj? && "id" !in c1.props && c2.Obj? && "id" !in c2.props ==>
              Init(Loaded, Some([c1, c2])).outcome == Fail(DuplicateId(Undefined))
  {
    assert FailsAt([Null], 0, NullishRead);
    if c1.Obj? && "id" !in c1.props && c2.Obj? && "id" !in c2.props {
      var cs := [c1, c2];
      assert IdOf(cs[0]) == Some(Undefined) && IdOf(cs[1]) == Some(Undefined);
      assert IndexOf([Undefined], Undefined) == 0;
      assert ScanIds(cs, 1, [Undefined]) == Fail(DuplicateId(Undefined));
      assert ScanIds(cs, 0, []) == Fail(DuplicateId(Undefined));
    }
  }

  /** Any value with own properties takes part in the duplicate scan: an array
      carrying `id` clashes with a later configuration of the same id, which
      is reported before the array is rejected as "not an object". */
  lemma IdOnArrayClashes(a: JsValue, c: JsValue, id: string)
    requires a.Arr? && "id" in a.props && a.props["id"] == Str(id)
    requires c.Obj? && "id" in c.props && c.props["id"] == Str(id)
    ensures Init(Loaded, Some([a, c])).outcome == Fail(DuplicateId(Str(id)))
  {
    var cs := [a, c];
    assert IdOf(cs[0]) == Some(Str(id)) && IdOf(cs[1]) == Some(Str(id));
    assert IndexOf([Str(id)], Str(id)) == 0;
    assert ScanIds(cs, 1, [Str(id)]) == Fail(DuplicateId(Str(id)));
    assert ScanIds(cs, 0, []) == Fail(DuplicateId(Str(id)));
  }

  // ---------------------------------------------------------------------
  // Per-template admission in `mountTemplates`

  datatype TemplateError =
    | BothHmplAttributes         // `data-hmpl` and `hmpl` together
    | BothConfigIdAttributes     // `data-config-id` and `configId` together
    | EmptyConfigId              // the resolved config id is ""
    | ConfigNotFound(id: string) // no configuration registered under the id
    | MultipleRoots(count: nat)  // more than one element child
    | NoRoot                     // no element child

  /** What a template is compiled and run with: the configuration found for
      it, if any, and the two option arguments. */
  datatype Admission = Admission(config: Option<JsValue>, compile: Arg, templateFunction: Arg)

  /** `getAttribute("data-config-id") || getAttribute("configId")`. */
  function ResolveConfigId(t: Template): (r: Option<string>)
    ensures r == AttrOr(GetAttribute(t, DataConfigIdAttr), GetAttribute(t, ConfigIdAttr))
    ensures ToJs(r) == Js.Or(ToJs(GetAttribute(t, DataConfigIdAttr)), ToJs(GetAttribute(t, ConfigIdAttr)))
  {
    AttrOrIsJsOr(GetAttribute(t, DataConfigIdAttr), GetAttribute(t, ConfigIdAttr));
    AttrOr(GetAttribute(t, DataConfigIdAttr), GetAttribute(t, ConfigIdAttr))
  }

  /** A template the pass accepts: not both markers, not both id attributes,
      an id that is absent or names a registered configuration, and exactly
      one root element. */
  predicate Admissible(t: Template, reg: map<string, JsValue>) {
    && !(DataHmplAttr in t.attrs && HmplAttr in t.attrs)
    && !(DataConfigIdAttr in t.attrs && ConfigIdAttr in t.attrs)
    && (DataConfigIdAttr in t.attrs && t.attrs[DataConfigIdAttr] != "" ==> t.attrs[DataConfigIdAttr] in reg)
    && (DataConfigIdAttr !in t.attrs && ConfigIdAttr in t.attrs ==> t.attrs[ConfigIdAttr] != "" && t.attrs[ConfigIdAttr] in reg)
    && t.rootChildren == 1
  }

  /** The marker check: not both `data-hmpl` and `hmpl`. */
  predicate MarkersOk(t: Template) {
    !(DataHmplAttr in t.attrs && HmplAttr in t.attrs)
  }

  /** The id-attribute check: not both `data-config-id` and `configId`. */
  predicate IdAttributesOk(t: Template) {
    !(DataConfigIdAttr in t.attrs && ConfigIdAttr in t.attrs)
  }

  /** The resolved id is absent, or non-empty and registered. */
  predicate ResolvedIdOk(t: Template, reg: map<string, JsValue>) {
    match ResolveConfigId(t)
    case None => true
    case Some(id) => id != "" && id in reg
  }

  /** The checks of one iteration of `mountTemplates`, in source order: each
      error is raised exactly when every earlier check passed and its own
      fails; a template that passes them all is compiled with the options of
      its configuration. */
  function Admit(t: Template, reg: map<string, JsValue>): (r: Result<Admission, TemplateError>)
    requires WellFormedRegistry(reg)
    ensures r.Success? <==> Admissible(t, reg)
    ensures r == Failure(BothHmplAttributes) <==> !MarkersOk(t)
    ensures r == Failure(BothConfigIdAttributes) <==> MarkersOk(t) && !IdAttributesOk(t)
    ensures r == Failure(EmptyConfigId) <==>
              MarkersOk(t) && IdAttributesOk(t) && ResolveConfigId(t) == Some("")
    ensures (r.Failure? && r.error.ConfigNotFound?) <==>
              && MarkersOk(t) && IdAttributesOk(t)
              && ResolveConfigId(t).Some? && ResolveConfigId(t).value != "" && ResolveConfigId(t).value !in reg
    ensures r.Failure? && r.error.ConfigNotFound? ==> ResolveConfigId(t) == Some(r.error.id)
    ensures (r.Failure? && r.error.MultipleRoots?) <==>
              MarkersOk(t) && IdAttributesOk(t) && ResolvedIdOk(t, reg) && t.rootChildren > 1
    ensures r.Failure? && r.error.MultipleRoots? ==> r.error.count == t.rootChildren
    ensures r == Failure(NoRoot) <==>
              MarkersOk(t) && IdAttributesOk(t) && ResolvedIdOk(t, reg) && t.rootChildren == 0
    ensures r.Success? ==>
      && (r.value.config.None? <==> ResolveConfigId(t).None?)
      && (r.value.config.Some? ==> r.value.config.value == reg[ResolveConfigId(t).value])
      && r.value.compile == OptionField(r.value.config, "compile")
      && r.value.templateFunction == OptionField(r.value.config, "templateFunction")
  {
    if HasAttribute(t, DataHmplAttr) && HasAttribute(t, HmplAttr) then Failure(BothHmplAttributes)
    else if HasAttribute(t, DataConfigIdAttr) && HasAttribute(t, ConfigIdAttr) then Failure(BothConfigIdAttributes)
    else
      var id := ResolveConfigId(t);
      if id == Some("") then Failure(EmptyConfigId)
      else if id.Some? && id.value !in reg then Failure(ConfigNotFound(id.value))
      else if t.rootChildren > 1 then Failure(MultipleRoots(t.rootChildren))
      else if t.rootChildren == 0 then Failure(NoRoot)
      else
        var option := if id.Some? then Some(reg[id.value]) else None;
        Success(Admission(option, OptionField(option, "compile"), OptionField(option, "templateFunction")))
  }

  /** A template without a config id is compiled with two empty option objects. */
  lemma NoConfigIdMeansEmptyOptions(t: Template, reg: map<string, JsValue>)
    requires WellFormedRegistry(reg)
    requires DataConfigIdAttr !in t.attrs && ConfigIdAttr !in t.attrs
    requires Admit(t, reg).Success?
    ensures Admit(t, reg).value == Admission(None, EmptyObject, EmptyObject)
  {
  }

  /** An empty `data-config-id` on its own is falsy and falls through to the
      absent `configId`: no configuration and no error. An empty `configId`
      on its own is the empty-id error. */
  lemma EmptyConfigIdAttributes(t: Template, reg: map<string, JsValue>)
    requires WellFormedRegistry(reg)
    requires !(DataHmplAttr in t.attrs && HmplAttr in t.attrs) && t.rootChildren == 1
    ensures DataConfigIdAttr in t.attrs && t.attrs[DataConfigIdAttr] == "" && ConfigIdAttr !in t.attrs ==>
              Admit(t, reg) == Success(Admission(None, EmptyObject, EmptyObject))
    ensures ConfigIdAttr in t.attrs && t.attrs[ConfigIdAttr] == "" && DataConfigIdAttr !in t.attrs ==>
              Admit(t, reg) == Failure(EmptyConfigId)
  {
  }

  /** A non-empty id that is not registered stops the pass with that id. */
  lemma UnknownIdIsAnError(t: Template, reg: map<string, JsValue>, id: string)
    requires WellFormedRegistry(reg)
    requires !(DataHmplAttr in t.attrs && HmplAttr in t.attrs)
    requires !(DataConfigIdAttr in t.attrs && ConfigIdAttr in t.attrs)
    requires ResolveConfigId(t) == Some(id) && id != "" && id !in reg
    ensures Admit(t, reg) == Failure(ConfigNotFound(id))
  {
  }

  /** `mountTemplates`: visit the marked templates in document order; the
      first template that fails its checks throws, after the templates before
      it have been compiled and mounted. */
  method MountTemplates(doc: seq<Template>, reg: map<string, JsValue>)
    returns (mounted: seq<Admission>, error: Option<TemplateError>)
    requires WellFormedRegistry(reg)
    ensures |mounted| <= |Select(doc, Markers)|
    ensures forall i :: 0 <= i < |mounted| ==> Admit(Select(doc, Markers)[i], reg) == Success(mounted[i])
    ensures error.None? <==> |mounted| == |Select(doc, Markers)|
    ensures error.Some? ==> Admit(Select(doc, Markers)[|mounted|], reg) == Failure(error.value)
  {
    var templates := Select(doc, Markers);
    mounted := [];
    var i := 0;
    while i < |templates|
      invariant 0 <= i <= |templates|
      invariant |mounted| == i
      invariant forall j :: 0 <= j < i ==> Admit(templates[j], reg) == Success(mounted[j])
    {
      var decision := Admit(templates[i], reg);
      match decision {
        case Failure(e) =>
          error := Some(e);
          return;
        case Success(a) =>
          mounted := mounted + [a];
      }
      i := i + 1;
    }
    error := None;
  }

  /** What escapes from a call of `init`: one of its own errors, or the first
      template error of a mount pass it ran inside the call. */
  datatype InitThrow = InitFailed(initError: InitError) | MountFailed(templateError: TemplateError)

  /** `init` when `document.readyState` is already "interactive" or
      "complete": `onDocumentLoad` runs the mount pass inside the call, over
      the registry `init` has just filled, so the first rejected template
      makes `init` itself throw even though every configuration was valid. */
  method InitOnLoadedDocument(s: State, configs: Option<seq<JsValue>>, doc: seq<Template>)
    returns (state: State, mounted: seq<Admission>, thrown: Option<InitThrow>)
    requires WellFormedRegistry(s.options)
    ensures state == Init(s, configs).state
    ensures Init(s, configs).outcome.Fail? ==>
              mounted == [] && thrown == Some(InitFailed(Init(s, configs).outcome.error))
    ensures Init(s, configs).outcome.Pass? ==>
      var templates := Select(doc, Markers);
      && |mounted| <= |templates|
      && (forall i :: 0 <= i < |mounted| ==> Admit(templates[i], state.options) == Success(mounted[i]))
      && (thrown.None? <==> |mounted| == |templates|)
      && (thrown.Some? ==>
            thrown.value.MountFailed? && Admit(templates[|mounted|], state.options) == Failure(thrown.value.templateError))
  {
    var step := Init(s, configs);
    state := step.state;
    match step.outcome {
      case Fail(e) =>
        mounted := [];
        thrown := Some(InitFailed(e));
      case Pass =>
        var error;
        mounted, error := MountTemplates(doc, state.options);
        thrown := if error.Some? then Some(MountFailed(error.value)) else None;
    }
  }

  /** On a loaded document, valid configurations do not make `init` succeed:
      a template naming an unregistered id makes the call throw. */
  lemma ValidConfigsCanStillThrow(configs: seq<JsValue>, t: Template, id: string)
    requires IdsDistinct(configs) && forall i :: 0 <= i < |configs| ==> ValidConfig(configs[i])
    requires MarkersOk(t) && IdAttributesOk(t) && HmplAttr in t.attrs
    requires ResolveConfigId(t) == Some(id) && id != ""
    requires forall i :: 0 <= i < |configs| ==> ConfigId(configs[i]) != id
    ensures Init(Loaded, Some(configs)).outcome.Pass?
    ensures Select([t], Markers) == [t]
    ensures Admit(t, Init(Loaded, Some(configs)).state.options) == Failure(ConfigNotFound(id))
  {
    var reg := Init(Loaded, Some(configs)).state.options;
    assert id !in reg;
    assert Marked(t, Markers) by { assert HmplAttr in Markers * t.attrs.Keys; }
    assert Select([t], Markers) == [t] by { assert [t][1..] == []; }
  }
}
