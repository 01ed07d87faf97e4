/** What both versions of hmpl-dom share about the configuration array passed
    to `init`: the error kinds, the duplicate-id scan (identical in both
    sources apart from the message text) and how a found configuration
    supplies the options handed to the templating library. */
module Configs {
  import opened Wrappers
  import opened Js

  /** The errors `init` can throw. Messages are not modelled. */
  datatype InitError =
    | AlreadyInitialized      // a second `init` (newer version only)
    | NotAnObject             // the configuration is not a plain object
    | MissingIdOrValue        // no own `id` or no own `value` property
    | InvalidIdType           // `id` has a type the version does not accept
    | ValueNotObject          // `value` is not a plain object
    | DuplicateId(id: JsValue)
    | NullishRead             // TypeError: reading a property of null/undefined

  /** An options argument for the templating library: `x || {}` is either a
      truthy `x` or a fresh empty object. */
  datatype Arg = EmptyObject | Given(v: JsValue)

  /** `option.id`, or `None` where reading it throws. */
  function IdOf(option: JsValue): Option<JsValue> {
    if IsNullish(option) then None else Some(Get(option, "id"))
  }

  /** The first `n` configurations have readable ids, no two strictly equal. */
  predicate IdsDistinctUpTo(cs: seq<JsValue>, n: nat)
    requires n <= |cs|
  {
    && (forall i :: 0 <= i < n ==> IdOf(cs[i]).Some?)
    && (forall i, j :: 0 <= i < j < n && IdOf(cs[i]).Some? && IdOf(cs[j]).Some? ==>
          !StrictEquals(IdOf(cs[i]).value, IdOf(cs[j]).value))
  }

  predicate IdsDistinct(cs: seq<JsValue>) {
    IdsDistinctUpTo(cs, |cs|)
  }

  /** The scan stops at index `k` with error `e`: either `cs[k].id` cannot be
      read, or it is strictly equal to the id of an earlier configuration. */
  predicate FailsAt(cs: seq<JsValue>, k: nat, e: InitError)
    requires k < |cs|
  {
    match IdOf(cs[k])
    case None => e == NullishRead
    case Some(id) =>
      && e == DuplicateId(id)
      && exists j :: 0 <= j < k && IdOf(cs[j]).Some? && StrictEquals(IdOf(cs[j]).value, id)
  }

  /** `xs.indexOf(x)`: the first index holding a value strictly equal to `x`,
      or -1. */
  function IndexOf(xs: seq<JsValue>, x: JsValue): (r: int)
    ensures -1 <= r < |xs|
    ensures r >= 0 ==> StrictEquals(xs[r], x)
    ensures r >= 0 ==> forall j :: 0 <= j < r ==> !StrictEquals(xs[j], x)
    ensures r == -1 <==> forall j :: 0 <= j < |xs| ==> !StrictEquals(xs[j], x)
  {
    if xs == [] then -1
    else if StrictEquals(xs[0], x) then 0
    else
      var k := IndexOf(xs[1..], x);
      if k == -1 then -1 else k + 1
  }

  /** `validateDuplicateIds`: passes exactly when every id is readable and no
      two are strictly equal; otherwise it reports the first index whose id
      cannot be read or repeats an earlier one. */
  function ValidateDuplicateIds(cs: seq<JsValue>): (r: Outcome<InitError>)
    ensures r.Pass? <==> IdsDistinct(cs)
    ensures r.Fail? ==> exists k :: 0 <= k < |cs| && IdsDistinctUpTo(cs, k) && FailsAt(cs, k, r.error)
  {
    ScanIds(cs, 0, [])
  }

  /** The loop of `validateDuplicateIds` from index `i`, with `seen` the ids
      pushed so far. */
  function ScanIds(cs: seq<JsValue>, i: nat, seen: seq<JsValue>): (r: Outcome<InitError>)
    requires i <= |cs| && |seen| == i
    requires forall j :: 0 <= j < i ==> IdOf(cs[j]) == Some(seen[j])
    requires IdsDistinctUpTo(cs, i)
    decreases |cs| - i
    ensures r.Pass? <==> IdsDistinct(cs)
    ensures r.Fail? ==> exists k :: i <= k < |cs| && IdsDistinctUpTo(cs, k) && FailsAt(cs, k, r.error)
  {
    if i == |cs| then Pass
    else
      match IdOf(cs[i])
      case None => Fail(NullishRead)
      case Some(id) =>
        if IndexOf(seen, id) > -1 then
          var j := IndexOf(seen, id);
          assert IdOf(cs[j]) == Some(seen[j]);
          assert FailsAt(cs, i, DuplicateId(id));
          Fail(DuplicateId(id))
        else
          var r := ScanIds(cs, i + 1, seen + [id]);
          if r.Fail? then FailureBreaksDistinctness(cs); r else r
  }

  /** A scan that stops somewhere means the ids are not distinct. */
  lemma FailureBreaksDistinctness(cs: seq<JsValue>)
    ensures (exists k, e :: 0 <= k < |cs| && FailsAt(cs, k, e)) ==> !IdsDistinct(cs)
  {
    if k, e :| 0 <= k < |cs| && FailsAt(cs, k, e) {
      if IdOf(cs[k]).Some? {
        var j :| 0 <= j < k && IdOf(cs[j]).Some? && StrictEquals(IdOf(cs[j]).value, IdOf(cs[k]).value);
      }
    }
  }

  /** The configuration carries an own `value` property that is a plain object. */
  predicate HasObjectValue(c: JsValue) {
    c.Obj? && "value" in c.props && c.props["value"].Obj?
  }

  /** `option?.value[key] || {}`: no configuration, or a falsy or absent field,
      gives a fresh empty object; a truthy field is passed on as it is. */
  function OptionField(config: Option<JsValue>, key: string): (r: Arg)
    requires config.Some? ==> HasObjectValue(config.value)
    ensures config.None? ==> r == EmptyObject
    ensures config.Some? ==>
      var fields := config.value.props["value"].props;
      && (r.Given? <==> key in fields && Truthy(fields[key]))
      && (r.Given? ==> r.v == fields[key])
  {
    match config
    case None => EmptyObject
    case Some(option) =>
      var field := Get(Get(option, "value"), key);
      if Truthy(field) then Given(field) else EmptyObject
  }
}
