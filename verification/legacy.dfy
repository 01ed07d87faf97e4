/** The older hmpl-dom source: string or number ids, `value.compileOptions`
    and `value.templateFunctionOptions`, a second `init` that does nothing,
    and a template whose configuration is missing only draws a warning. */
module Legacy {
  import opened Wrappers
  import opened Js
  import opened Dom
  import opened Configs

  const DataHmplAttr := "data-hmpl"
  const DataHmplIdAttr := "data-hmpl-id"

  /** Only `template[data-hmpl]` is picked up by the mount pass. */
  const Markers: set<string> := {DataHmplAttr}

  // ---------------------------------------------------------------------
  // Configuration validation

  /** A key of the `Map<string | number, ...>` registry. */
  datatype Key = StrKey(s: string) | NumKey(n: int)

  /** The shape `validateInitOption` accepts here: a plain object with an own
      `id` that is a string or a number and an own plain-object `value`. */
  predicate ValidOption(o: JsValue) {
    && o.Obj?
    && "id" in o.props && "value" in o.props
    && (o.props["id"].Str? || o.props["id"].Num?)
    && o.props["value"].Obj?
  }

  /** `validateInitOption`, with the same order of checks as the newer
      version but a wider id rule. */
  function ValidateOption(o: JsValue): (r: Outcome<InitError>)
    ensures r.Pass? <==> ValidOption(o)
    ensures !o.Obj? ==> r == Fail(NotAnObject)
    ensures o.Obj? && ("id" !in o.props || "value" !in o.props) ==> r == Fail(MissingIdOrValue)
    ensures o.Obj? && "id" in o.props && "value" in o.props && !(o.props["id"].Str? || o.props["id"].Num?) ==>
              r == Fail(InvalidIdType)
    ensures o.Obj? && "id" in o.props && "value" in o.props && (o.props["id"].Str? || o.props["id"].Num?)
              && !o.props["value"].Obj? ==>
              r == Fail(ValueNotObject)
  {
    if !CheckObject(o) then Fail(NotAnObject)
    else if !HasOwn(o, "id") || !HasOwn(o, "value") then Fail(MissingIdOrValue)
    else if TypeOf(Get(o, "id")) != "string" && TypeOf(Get(o, "id")) != "number" then Fail(InvalidIdType)
    else if !CheckObject(Get(o, "value")) then Fail(ValueNotObject)
    else Pass
  }

  /** The registry key of an option: its id, as a string or a number key. */
  function KeyOf(o: JsValue): Key {
    if ValidOption(o) then
      match o.props["id"]
      case Num(n) => NumKey(n)
      case Str(s) => StrKey(s)
    else StrKey("")
  }

  /** Every registered option is valid and is keyed by its own id. */
  predicate WellFormedRegistry(reg: map<Key, JsValue>) {
    forall k :: k in reg ==> ValidOption(reg[k]) && KeyOf(reg[k]) == k
  }

  /** `"1"` and `1` are not strictly equal and are different keys, so valid
      options with distinct ids land under distinct keys. */
  lemma DistinctKeys(cs: seq<JsValue>, i: nat, j: nat)
    requires IdsDistinct(cs)
    requires i < j < |cs| && ValidOption(cs[i]) && ValidOption(cs[j])
    ensures KeyOf(cs[i]) != KeyOf(cs[j])
  {
    assert IdOf(cs[i]) == Some(cs[i].props["id"]);
    assert IdOf(cs[j]) == Some(cs[j].props["id"]);
  }

  /** With distinct ids, a valid entry's key differs from the key of every
      later valid entry up to `done`. */
  lemma LaterIdsDiffer(cs: seq<JsValue>, i: nat, done: nat)
    requires IdsDistinct(cs)
    requires i < done <= |cs|
    requires forall j :: i <= j < done ==> ValidOption(cs[j])
    ensures forall j :: i < j < done ==> KeyOf(cs[j]) != KeyOf(cs[i])
  {
    forall j | i < j < done
      ensures KeyOf(cs[j]) != KeyOf(cs[i])
    {
      DistinctKeys(cs, i, j);
    }
  }

  /** Where the registration loop of `init` stopped. */
  datatype Registration = Registration(registry: map<Key, JsValue>, done: nat, outcome: Outcome<InitError>)

  /** The loop of `init` from index `i`: validate each option, then store it
      under its id; the first invalid one stops the loop. */
  function Register(reg: map<Key, JsValue>, cs: seq<JsValue>, i: nat): (r: Registration)
    requires i <= |cs|
    decreases |cs| - i
    ensures i <= r.done <= |cs|
    ensures forall j :: i <= j < r.done ==> ValidOption(cs[j])
    ensures r.outcome.Pass? <==> r.done == |cs|
    ensures r.done < |cs| ==> r.outcome == ValidateOption(cs[r.done]) && r.outcome.Fail?
  {
    if i == |cs| then Registration(reg, i, Pass)
    else
      match ValidateOption(cs[i])
      case Fail(e) => Registration(reg, i, Fail(e))
      case Pass => Register(reg[KeyOf(cs[i]) := cs[i]], cs, i + 1)
  }

  /** The keys after the registration loop: the old ones plus the id of
      every option it registered. */
  lemma {:induction false} RegisterKeys(reg: map<Key, JsValue>, cs: seq<JsValue>, i: nat)
    requires i <= |cs|
    decreases |cs| - i
    ensures var r := Register(reg, cs, i);
      forall k :: k in r.registry <==> k in reg || exists j :: i <= j < r.done && KeyOf(cs[j]) == k
  {
    if i < |cs| && ValidateOption(cs[i]).Pass? {
      var key := KeyOf(cs[i]);
      var reg' := reg[key := cs[i]];
      RegisterKeys(reg', cs, i + 1);
      var r := Register(reg', cs, i + 1);
      assert r == Register(reg, cs, i);
      forall k
        ensures k in r.registry <==> k in reg || exists j :: i <= j < r.done && KeyOf(cs[j]) == k
      {
        if k == key {
          assert KeyOf(cs[i]) == k;
        } else if exists j :: i <= j < r.done && KeyOf(cs[j]) == k {
          var j :| i <= j < r.done && KeyOf(cs[j]) == k;
          assert j != i;
        }
      }
    }
  }

  /** An old entry whose key no registered option uses keeps its value. */
  lemma {:induction false} RegisterKeepsOthers(reg: map<Key, JsValue>, cs: seq<JsValue>, i: nat, k: Key)
    requires i <= |cs|
    requires k in reg
    decreases |cs| - i
    ensures var r := Register(reg, cs, i);
      (forall j :: i <= j < r.done ==> KeyOf(cs[j]) != k) ==> k in r.registry && r.registry[k] == reg[k]
  {
    if i < |cs| && ValidateOption(cs[i]).Pass? {
      var reg' := reg[KeyOf(cs[i]) := cs[i]];
      RegisterKeepsOthers(reg', cs, i + 1, k);
      assert Register(reg', cs, i + 1) == Register(reg, cs, i);
    }
  }

  /** Every registered option is stored under its own id; with distinct ids no
      later option overwrites it. */
  lemma {:induction false} RegisterValues(reg: map<Key, JsValue>, cs: seq<JsValue>, i: nat)
    requires i <= |cs|
    requires IdsDistinct(cs)
    decreases |cs| - i
    ensures var r := Register(reg, cs, i);
      forall j :: i <= j < r.done ==> KeyOf(cs[j]) in r.registry && r.registry[KeyOf(cs[j])] == cs[j]
  {
    if i < |cs| && ValidateOption(cs[i]).Pass? {
      var key := KeyOf(cs[i]);
      var reg' := reg[key := cs[i]];
      RegisterValues(reg', cs, i + 1);
      RegisterKeepsOthers(reg', cs, i + 1, key);
      var r := Register(reg', cs, i + 1);
      assert r == Register(reg, cs, i);
      LaterIdsDiffer(cs, i, r.done);
      assert key in r.registry && r.registry[key] == cs[i];
    }
  }

  /** `reg` is `before` plus the first `k` entries of `cs`, each stored under
      its own id, and nothing else. */
  ghost predicate RegisteredPrefix(before: map<Key, JsValue>, cs: seq<JsValue>, k: nat, reg: map<Key, JsValue>)
    requires k <= |cs|
  {
    && (forall key :: key in reg <==> key in before || exists i :: 0 <= i < k && KeyOf(cs[i]) == key)
    && (forall i :: 0 <= i < k ==> KeyOf(cs[i]) in reg && reg[KeyOf(cs[i])] == cs[i])
  }

  /** A registration loop that throws stops at some index `k`: every earlier
      entry was valid and is stored under its own id, and the map holds
      nothing else new. */
  lemma RegisterFailure(reg: map<Key, JsValue>, cs: seq<JsValue>)
    requires IdsDistinct(cs)
    requires Register(reg, cs, 0).outcome.Fail?
    ensures var r := Register(reg, cs, 0);
      exists k :: 0 <= k < |cs|
        && (forall i :: 0 <= i < k ==> ValidOption(cs[i]))
        && r.outcome == ValidateOption(cs[k])
        && RegisteredPrefix(reg, cs, k, r.registry)
  {
    var r := Register(reg, cs, 0);
    RegisterKeys(reg, cs, 0);
    RegisterValues(reg, cs, 0);
    var k := r.done;
    assert 0 <= k < |cs|;
    assert forall i :: 0 <= i < k ==> ValidOption(cs[i]);
    assert r.outcome == ValidateOption(cs[k]);
    assert RegisteredPrefix(reg, cs, k, r.registry);
  }

  lemma RegisterKeepsWellFormed(reg: map<Key, JsValue>, cs: seq<JsValue>, i: nat)
    requires i <= |cs| && IdsDistinct(cs)
    ensures WellFormedRegistry(reg) ==> WellFormedRegistry(Register(reg, cs, i).registry)
  {
    var r := Register(reg, cs, i);
    RegisterKeys(reg, cs, i);
    RegisterValues(reg, cs, i);
    forall k | WellFormedRegistry(reg) && k in r.registry
      ensures ValidOption(r.registry[k]) && KeyOf(r.registry[k]) == k
    {
      if j :| i <= j < r.done && KeyOf(cs[j]) == k {
      } else {
        RegisterKeepsOthers(reg, cs, i, k);
      }
    }
  }

  // ---------------------------------------------------------------------
  // The init-once state machine

  /** Module state: the `initialized` flag, the `optionurations` map, and how
      many times `onDocumentLoad(mountTemplates)` has been called. */
  datatype State = State(initialized: bool, options: map<Key, JsValue>, mounts: nat)

  const Loaded := State(false, map[], 0)

  datatype Step = Step(state: State, outcome: Outcome<InitError>)

  /** `init(options)`. A call after the first returns at once without error;
      the first sets the flag, then checks ids, then each option. An omitted
      argument has no default here: reading its `length` throws. */
  function Init(s: State, options: Option<seq<JsValue>>): (r: Step)
    ensures r.state.initialized
    ensures s.initialized ==> r == Step(s, Pass)
    ensures !s.initialized && options.None? ==> r.outcome == Fail(NullishRead) && r.state.options == s.options
    ensures !s.initialized && options.Some? ==>
      (r.outcome.Pass? <==> IdsDistinct(options.value) && forall i :: 0 <= i < |options.value| ==> ValidOption(options.value[i]))
    ensures !s.initialized && options.Some? && !IdsDistinct(options.value) ==>
      r.outcome.Fail? && (r.outcome.error.DuplicateId? || r.outcome.error.NullishRead?) && r.state.options == s.options
    ensures !s.initialized && options.Some? && IdsDistinct(options.value) && r.outcome.Fail? ==>
      var cs := options.value;
      exists k :: 0 <= k < |cs|
        && (forall i :: 0 <= i < k ==> ValidOption(cs[i]))
        && r.outcome == ValidateOption(cs[k])
        && RegisteredPrefix(s.options, cs, k, r.state.options)
    ensures !s.initialized && r.outcome.Pass? ==>
      var cs := options.value;
      RegisteredPrefix(s.options, cs, |cs|, r.state.options)
    ensures r.state.mounts == s.mounts + (if !s.initialized && r.outcome.Pass? then 1 else 0)
    ensures WellFormedRegistry(s.options) ==> WellFormedRegistry(r.state.options)
  {
    if s.initialized then Step(s, Pass)
    else
      var s1 := s.(initialized := true);
      match options
      case None => Step(s1, Fail(NullishRead))
      case Some(cs) =>
        match ValidateDuplicateIds(cs)
        case Fail(e) => Step(s1, Fail(e))
        case Pass =>
          var reg := Register(s1.options, cs, 0);
          RegisterKeys(s1.options, cs, 0);
          RegisterValues(s1.options, cs, 0);
          RegisterKeepsWellFormed(s1.options, cs, 0);
          match reg.outcome
          case Fail(e) => RegisterFailure(s1.options, cs); Step(s1.(options := reg.registry), Fail(e))
          case Pass => Step(s1.(options := reg.registry, mounts := s.mounts + 1), Pass)
  }

  /** The microtask queued at load: it calls `onDocumentLoad(mountTemplates)`
      only when `init` has not run first. */
  function AutoMount(s: State): (r: State)
    ensures r.initialized == s.initialized && r.options == s.options
    ensures r.mounts == s.mounts + (if s.initialized then 0 else 1)
  {
    if !s.initialized then s.(mounts := s.mounts + 1) else s
  }

  datatype Event = CallInit(options: Option<seq<JsValue>>) | Microtask

  datatype Trace = Trace(state: State, outcomes: seq<Outcome<InitError>>)

  function Run(s: State, evs: seq<Event>): Trace
    decreases |evs|
  {
    if evs == [] then Trace(s, [])
    else
      match evs[0]
      case Microtask => Run(AutoMount(s), evs[1..])
      case CallInit(options) =>
        var step := Init(s, options);
        var rest := Run(step.state, evs[1..]);
        Trace(rest.state, [step.outcome] + rest.outcomes)
  }

  /** Once the flag is set, every later `init` is a silent no-op and the
      microtask does nothing: the state never changes again. */
  lemma {:induction false} FrozenOnceInitialized(s: State, evs: seq<Event>)
    requires s.initialized
    ensures Run(s, evs).state == s
    ensures forall o :: o in Run(s, evs).outcomes ==> o == Pass
    decreases |evs|
  {
    if evs != [] {
      FrozenOnceInitialized(s, evs[1..]);
    }
  }

  /** When `init` is called before the microtask runs, the first call decides
      everything, and `onDocumentLoad` is called once if it passed and never
      if it threw; every later call passes without doing anything. */
  lemma FirstInitDecides(options: Option<seq<JsValue>>, rest: seq<Event>)
    ensures Run(Loaded, [CallInit(options)] + rest).state == Init(Loaded, options).state
    ensures Run(Loaded, [CallInit(options)] + rest).state.mounts == (if Init(Loaded, options).outcome.Pass? then 1 else 0)
    ensures var outs := Run(Loaded, [CallInit(options)] + rest).outcomes;
      && |outs| >= 1 && outs[0] == Init(Loaded, options).outcome
      && forall o :: o in outs[1..] ==> o == Pass
  {
    var evs := [CallInit(options)] + rest;
    assert evs[1..] == rest;
    FrozenOnceInitialized(Init(Loaded, options).state, rest);
  }

  lemma {:induction false} ReachableRegistryWellFormed(s: State, evs: seq<Event>)
    requires WellFormedRegistry(s.options)
    ensures WellFormedRegistry(Run(s, evs).state.options)
    decreases |evs|
  {
    if evs != [] {
      match evs[0]
      case Microtask =>
        ReachableRegistryWellFormed(AutoMount(s), evs[1..]);
      case CallInit(options) =>
        ReachableRegistryWellFormed(Init(s, options).state, evs[1..]);
    }
  }

  /** Strict equality tells the string `"1"` from the number `1`, so two
      options with those ids pass the duplicate scan and get separate keys. */
  lemma StringAndNumberIdsDiffer(a: JsValue, b: JsValue, s: string, n: int)
    requires ValidOption(a) && ValidOption(b)
    requires a.props["id"] == Str(s) && b.props["id"] == Num(n)
    ensures ValidateDuplicateIds([a, b]) == Pass
    ensures KeyOf(a) != KeyOf(b)
  {
    var cs := [a, b];
    assert IdOf(cs[0]) == Some(Str(s)) && IdOf(cs[1]) == Some(Num(n));
    assert IdsDistinct(cs);
  }

  // ---------------------------------------------------------------------
  // Per-template lookup in `mountTemplates`

  /** What a template is compiled and run with, and whether a warning was
      printed because its id matched no option. */
  datatype Admission = Admission(config: Option<JsValue>, compile: Arg, templateFunction: Arg, warned: bool)

  /** One iteration of `mountTemplates`: a non-empty `data-hmpl-id` is looked
      up as a string key; a miss only warns, and the template is compiled
      anyway. Nothing here throws. */
  function Admit(t: Template, reg: map<Key, JsValue>): (r: Admission)
    requires WellFormedRegistry(reg)
    ensures r.warned <==>
      DataHmplIdAttr in t.attrs && t.attrs[DataHmplIdAttr] != "" && StrKey(t.attrs[DataHmplIdAttr]) !in reg
    ensures r.config.Some? <==>
      DataHmplIdAttr in t.attrs && t.attrs[DataHmplIdAttr] != "" && StrKey(t.attrs[DataHmplIdAttr]) in reg
    ensures r.config.Some? ==> r.config.value == reg[StrKey(t.attrs[DataHmplIdAttr])]
    ensures r.config.None? ==> r.compile == EmptyObject && r.templateFunction == EmptyObject
    ensures r.compile == OptionField(r.config, "compileOptions")
    ensures r.templateFunction == OptionField(r.config, "templateFunctionOptions")
  {
    var templateId := GetAttribute(t, DataHmplIdAttr);
    var found := if templateId.Some? && templateId.value != "" && StrKey(templateId.value) in reg
                 then Some(reg[StrKey(templateId.value)]) else None;
    var warned := templateId.Some? && templateId.value != "" && found.None?;
    Admission(found, OptionField(found, "compileOptions"), OptionField(found, "templateFunctionOptions"), warned)
  }

  /** The registry with its number-keyed entries removed. */
  function StringKeyed(reg: map<Key, JsValue>): (r: map<Key, JsValue>)
    ensures forall k :: k in r <==> k in reg && k.StrKey?
    ensures forall k :: k in r ==> r[k] == reg[k]
  {
    map k | k in reg && k.StrKey? :: reg[k]
  }

  /** Options registered under a number id can never be found: the lookup key
      is always the attribute string, so dropping every number-keyed entry
      changes no template's outcome. */
  lemma NumericIdsNeverMatch(t: Template, reg: map<Key, JsValue>)
    requires WellFormedRegistry(reg)
    ensures WellFormedRegistry(StringKeyed(reg))
    ensures Admit(t, reg) == Admit(t, StringKeyed(reg))
  {
  }

  /** `mountTemplates`: every `template[data-hmpl]` is processed, in document
      order, with the options its lookup produced. */
  method MountTemplates(doc: seq<Template>, reg: map<Key, JsValue>) returns (mounted: seq<Admission>)
    requires WellFormedRegistry(reg)
    ensures |mounted| == |Select(doc, Markers)|
    ensures forall i :: 0 <= i < |mounted| ==> mounted[i] == Admit(Select(doc, Markers)[i], reg)
  {
    var templates := Select(doc, Markers);
    mounted := [];
    var i := 0;
    while i < |templates|
      invariant 0 <= i <= |templates|
      invariant |mounted| == i
      invariant forall j :: 0 <= j < i ==> mounted[j] == Admit(templates[j], reg)
    {
      mounted := mounted + [Admit(templates[i], reg)];
      i := i + 1;
    }
  }

  /** `init` when `document.readyState` is already "interactive" or
      "complete": the mount pass runs inside the call, over the map `init`
      has just filled; a pass only runs when the first call passed. */
  method InitOnLoadedDocument(s: State, options: Option<seq<JsValue>>, doc: seq<Template>)
    returns (state: State, outcome: Outcome<InitError>, mounted: seq<Admission>)
    requires WellFormedRegistry(s.options)
    ensures state == Init(s, options).state && outcome == Init(s, options).outcome
    ensures s.initialized || outcome.Fail? ==> mounted == []
    ensures !s.initialized && outcome.Pass? ==>
      && |mounted| == |Select(doc, Markers)|
      && forall i :: 0 <= i < |mounted| ==> mounted[i] == Admit(Select(doc, Markers)[i], state.options)
  {
    var step := Init(s, options);
    state, outcome := step.state, step.outcome;
    if !s.initialized && outcome.Pass? {
      mounted := MountTemplates(doc, state.options);
    } else {
      mounted := [];
    }
  }
}
