# hmpl-dom: configuration validation, init-once lifecycle and template admission

hmpl-dom finds `<template>` elements marked with `data-hmpl` (or `hmpl`). It compiles their markup with the
hmpl templating library, runs the compiled function and puts the result in place of the template. The logic the
repository owns is small:

- validation of the configuration array passed to `init`;
- an init-once state machine, with an auto-mount queued as a microtask;
- the per-template decision about which configuration, if any, a template uses, and whether it may be
  mounted at all.

This project models that logic in Dafny and proves properties of it. The repository has two implementations
that differ, and each gets its own module:

- `Runtime` models `dist/hmpl-dom.runtime.js`, the newer build. Ids are strings, options come from
  `value.compile` and `value.templateFunction`, and a second `init` throws. Each template goes through six
  ordered checks, and the first failure aborts the pass.
- `Legacy` models `src/main.ts`, the older source. Ids are strings or numbers, options come from
  `value.compileOptions` and `value.templateFunctionOptions`, and a second `init` does nothing. A missing
  configuration only produces a warning.

Shared modules:

- `Js`: the JavaScript value semantics the code relies on. This covers `typeof`, `Array.isArray`, `===`
  (objects compare by identity), truthiness, `||`, and own-property reads of objects, arrays and functions, where reading from
  `null`/`undefined` is a TypeError.
- `Dom`: a template as a record of its attributes plus its number of root element children. It also holds
  the `template[...]` selector as an order-preserving filter.
- `Configs`: the error kinds of `init`, the duplicate-id scan, and `x || {}` option defaulting. The
  duplicate-id scan is the same code in both sources.
- `Wrappers`: `Option`, `Result`, `Outcome`.

Thrown errors are `Failure`/`Fail` values. Module state (`initialized`, the id-to-config map, and the
number of calls of `onDocumentLoad(mountTemplates)`) is an immutable `State`, and `init` is a transition on it. A `Run` folds a
sequence of `init` calls and microtask runs.

The code and its type declarations disagree in two places, and the model follows the code:

- `src/main.ts:4` imports `HMPLInitOption`, but `src/types.ts` exports only `HMPLInitFunction` and
  `HMPLTemplateConfig`. The older source therefore does not match the published types.
- `src/types.ts:14-38` declares `id: string` with `value.compile` / `value.templateFunction`. Only the
  newer build follows this shape. The older source accepts number ids and reads the other field names.

## Model

| member | source | states |
|---|---|---|
| `Js.CheckObject` | dist/hmpl-dom.runtime.js:50-52 | holds exactly of plain objects: false for null, arrays, functions and primitives (`src/main.ts:20-22` is the same function) |
| `Dom.Select` | dist/hmpl-dom.runtime.js:88-90 | the selected templates are exactly the document's templates that carry a marker attribute, and there are no more of them than templates |
| `Dom.SelectAppend` | dist/hmpl-dom.runtime.js:88-91 | selection keeps document order: selecting from `a + b` is selecting from `a` followed by selecting from `b` |
| `Dom.AttrOrIsJsOr` | dist/hmpl-dom.runtime.js:107-109 | the model's `||` on two `getAttribute` results equals JavaScript's `||` on `string \| null`, including the falsy empty string |
| `Configs.IndexOf` | dist/hmpl-dom.runtime.js:71 | `indexOf` under `===`: -1 exactly when no element is strictly equal; otherwise the first strictly equal index |
| `Configs.ValidateDuplicateIds` | dist/hmpl-dom.runtime.js:67-77 | passes if and only if every id is readable and no two are strictly equal; on failure the error belongs to the first index whose id is unreadable (TypeError) or repeats an earlier one, and that index's id is reported |
| `Configs.ScanIds` | src/main.ts:50-64 | the same loop in the older source: from any index whose prefix is distinct, it passes if and only if the whole array is distinct, and otherwise stops at a later offending index |
| `Configs.OptionField` | dist/hmpl-dom.runtime.js:135-136 | `option?.value[key] \|\| {}`: no configuration gives an empty object; otherwise the field is passed on if and only if it is present and truthy, else an empty object |
| `Runtime.ValidateConfig` | dist/hmpl-dom.runtime.js:53-66 | passes if and only if the value is a plain object with own string `id` and own plain-object `value`; otherwise the error is that of the first failing rule: not an object, missing id/value, non-string id, non-object value |
| `Runtime.Register` | dist/hmpl-dom.runtime.js:153-157 | the registration loop stops at the first invalid configuration with that configuration's validation error, after registering all earlier ones; it passes if and only if it reaches the end |
| `Runtime.RegisterKeys` | dist/hmpl-dom.runtime.js:153-157 | after the loop the registry's keys are exactly the old keys plus the ids of the registered configurations |
| `Runtime.RegisterKeepsOthers` | dist/hmpl-dom.runtime.js:156 | an old entry whose key no registered configuration uses keeps its value |
| `Runtime.RegisterValues` | dist/hmpl-dom.runtime.js:153-157 | with distinct ids, every registered configuration is found under its own id after the loop; no later one overwrites it |
| `Runtime.RegisterKeepsWellFormed` | dist/hmpl-dom.runtime.js:156 | storing validated configurations under their own ids keeps every entry valid and keyed by its id |
| `Runtime.RegisterFailure` | dist/hmpl-dom.runtime.js:153-157 | a registration loop that throws stops at an index whose configuration gives the error; every earlier configuration is valid and stored under its own id, and the map gains no other key |
| `Runtime.Init` | dist/hmpl-dom.runtime.js:147-159 | a second call throws and changes nothing; the first sets the flag whatever happens next; duplicate-id errors take precedence over per-configuration errors; it passes its own checks if and only if ids are distinct and every configuration is valid; on success the map holds exactly the old keys plus the config ids, each mapped to its config, and `onDocumentLoad(mountTemplates)` is called once; when a configuration fails validation, the map keeps exactly the configurations before it, each under its own id (a pass the microtask requested earlier can still read that map) |
| `Runtime.FrozenOnceInitialized` | dist/hmpl-dom.runtime.js:147-151 | once the flag is set, no sequence of `init` calls or microtask runs changes the state, and every later `init` throws the already-initialized error, even when the first call failed |
| `Runtime.AtMostOneSuccessfulInit` | dist/hmpl-dom.runtime.js:147-151 | in any run at most one `init` call succeeds, and none does once the flag is set |
| `Runtime.AutoMount` | dist/hmpl-dom.runtime.js:160-164 | the queued microtask calls `onDocumentLoad(mountTemplates)` only while the flag is unset, and touches nothing else; `Runtime.MountCount` and `Runtime.FirstInitDecides` show what this means over a run: only microtask runs before any `init` add a call, and after an early `init` the microtask adds none |
| `Runtime.MountCount` | dist/hmpl-dom.runtime.js:158-164 | the number of calls of `onDocumentLoad(mountTemplates)` equals the number of successful `init` calls plus the microtask runs that happen before any `init` |
| `Runtime.FirstInitDecides` | dist/hmpl-dom.runtime.js:147-164 | if `init` is called before the microtask, the final state is the one that first call produced, with one `onDocumentLoad` call if it succeeded and none if it threw, and every later call throws the already-initialized error |
| `Runtime.ReachableRegistryWellFormed` | dist/hmpl-dom.runtime.js:78-79 | every registry reachable from a well-formed one (the empty map at load) maps each id to a valid configuration with that id |
| `Runtime.DuplicateScanComesFirst` | dist/hmpl-dom.runtime.js:152-155 | ids are read before configurations are checked. So `init([null])` throws a TypeError rather than "must be an object", and any two distinct objects without `id` clash on `undefined` before the missing-id error can be raised |
| `Runtime.IdOnArrayClashes` | dist/hmpl-dom.runtime.js:67-77 | the duplicate scan reads `id` from any value with own properties. An array carrying `id` followed by a configuration with the same id raises the duplicate-id error, not "must be an object" |
| `Runtime.ResolveConfigId` | dist/hmpl-dom.runtime.js:107-109 | the resolved id is JavaScript's `getAttribute("data-config-id") \|\| getAttribute("configId")` |
| `Runtime.Admit` | dist/hmpl-dom.runtime.js:92-136 | accepts a template if and only if it is admissible (not both markers, not both id attributes, an id that is absent or registered and non-empty, exactly one root); each of the six errors is raised exactly when every earlier check passed and its own failed; an accepted template uses the configuration registered under its resolved id, or none, with options defaulted as `OptionField` states |
| `Runtime.NoConfigIdMeansEmptyOptions` | dist/hmpl-dom.runtime.js:135-136 | an accepted template with neither id attribute is compiled with no configuration and two empty option objects |
| `Runtime.EmptyConfigIdAttributes` | dist/hmpl-dom.runtime.js:107-115 | an empty `data-config-id` on its own falls through to null, giving no configuration and no error; an empty `configId` on its own raises the empty-id error |
| `Runtime.UnknownIdIsAnError` | dist/hmpl-dom.runtime.js:116-123 | a resolved, non-empty id that is not registered raises not-found with that id |
| `Runtime.MountTemplates` | dist/hmpl-dom.runtime.js:87-146 | visits the selected templates in document order; each mounted template is accepted with the recorded options; it stops at the first rejected template with that template's error, or mounts all of them |
| `Runtime.InitOnLoadedDocument` | dist/hmpl-dom.runtime.js:80-86 | on an already loaded document, `init` leaves the state `Init` describes; if its own checks fail it throws that error and mounts nothing; otherwise it runs the mount pass over the new map inside the call, and the first rejected template's error escapes from `init` |
| `Runtime.ValidConfigsCanStillThrow` | dist/hmpl-dom.runtime.js:116-123 | valid, distinct configurations make `init`'s own checks pass, yet a marked template naming an unregistered id is rejected with not-found by the pass that `init` runs on a loaded document |
| `Legacy.ValidateOption` | src/main.ts:28-44 | passes if and only if the value is a plain object with own string-or-number `id` and own plain-object `value`; the errors come in the same order as in the newer version |
| `Legacy.Register` | src/main.ts:112-116 | the registration loop stops at the first invalid option with its validation error, after registering all earlier ones |
| `Legacy.RegisterKeys` | src/main.ts:112-116 | after the loop the map's keys are exactly the old keys plus the string or number key of each registered option |
| `Legacy.RegisterKeepsOthers` | src/main.ts:115 | an old entry whose key no registered option uses keeps its value |
| `Legacy.RegisterValues` | src/main.ts:112-116 | with distinct ids, every registered option is found under its own key after the loop |
| `Legacy.RegisterKeepsWellFormed` | src/main.ts:115 | storing validated options under their own keys keeps every entry valid and keyed by its id |
| `Legacy.RegisterFailure` | src/main.ts:112-116 | a registration loop that throws stops at an index whose option gives the error; every earlier option is valid and stored under its own key, and the map gains no other key |
| `Legacy.Init` | src/main.ts:106-119 | a call after initialization is a silent no-op (passes, state unchanged); an omitted argument throws a TypeError after the flag is set; it passes if and only if ids are distinct and every option is valid; on success the map holds exactly the old keys plus the option keys, each mapped to its option, and `onDocumentLoad(mountTemplates)` is called once; when an option fails validation, the map keeps exactly the options before it, each under its own key |
| `Legacy.AutoMount` | src/main.ts:121-125 | the queued microtask calls `onDocumentLoad(mountTemplates)` only while the flag is unset, and touches nothing else; `Legacy.FirstInitDecides` shows that after an early `init` it adds no call |
| `Legacy.FrozenOnceInitialized` | src/main.ts:106-108 | once the flag is set, no later `init` or microtask run changes the state, and every later `init` passes silently |
| `Legacy.FirstInitDecides` | src/main.ts:106-125 | if `init` is called before the microtask, the final state is the one that first call produced, with one `onDocumentLoad` call if it succeeded and none if it threw, and every later call passes without effect |
| `Legacy.ReachableRegistryWellFormed` | src/main.ts:66-67 | every registry reachable from a well-formed one maps each key to a valid option with that id |
| `Legacy.StringAndNumberIdsDiffer` | src/main.ts:50-64 | ids `"1"` and `1` are not strictly equal: options with a string id and a number id pass the duplicate scan and get different keys |
| `Legacy.Admit` | src/main.ts:83-96 | a configuration is used if and only if `data-hmpl-id` is present, non-empty and registered as a string key; a warning is printed if and only if it is present and non-empty but not registered; without a configuration both options are empty objects; nothing is rejected |
| `Legacy.NumericIdsNeverMatch` | src/main.ts:84-88 | options registered under a number id are never found: removing every number-keyed entry changes no template's outcome |
| `Legacy.MountTemplates` | src/main.ts:77-104 | processes every `template[data-hmpl]` in document order, each with the options its lookup gives, and never stops early |
| `Legacy.InitOnLoadedDocument` | src/main.ts:69-75 | on an already loaded document, a first `init` that passes runs the mount pass over the new map inside the call, processing every marked template; a no-op or failing call mounts nothing; state and outcome are those `Init` describes |

## Left out

- DOM access is not modelled. This covers `querySelectorAll`, `innerHTML`, `template.content` and
  `replaceWith`, which are browser I/O. A template is a record of its attributes and its number of root
  element children, and a document is the sequence of its `<template>` elements.
- Attribute names are taken as already normalised. HTML lower-cases them, so `configId` matches any casing.
- `hmpl.compile`, the template function it returns, and the `result.response` check belong to the external
  hmpl library. A mount records the configuration and the two option arguments the library would receive.
  Errors thrown inside the library are not modelled.
- Scheduling is reduced to a counter. `document.readyState`, the `DOMContentLoaded` listener and microtask
  timing are event-loop plumbing. `mounts` counts calls of `onDocumentLoad(mountTemplates)`, and the
  microtask is an explicit event.
- `mounts` is a count of `onDocumentLoad(mountTemplates)` calls, not of mount passes. While
  `document.readyState` is "loading", `onDocumentLoad` registers `mountTemplates` as a `DOMContentLoaded`
  listener (`dist/hmpl-dom.runtime.js:80-86`, `src/main.ts:69-75`). `addEventListener` ignores the same
  listener a second time, so a microtask run and a later successful `init` before `DOMContentLoaded` give
  one pass, over the filled map, although `mounts` is 2. When `readyState` is "interactive" or
  "complete", each call runs its own pass at once.
- `console.warn` becomes a `warned` flag. Error message texts become `InitError` / `TemplateError` variants.
- The esbuild CommonJS/ESM interop helpers in `dist/hmpl-dom.runtime.js:2-39` and the module exports are
  bundler boilerplate. `dist/index.d.ts` and `src/types.ts` only declare types.
- JavaScript numbers are integers here. NaN, infinities and fractions are not modelled. In particular the
  model does not cover NaN, which `===` never matches but a `Map` key does.
- Objects, arrays and functions carry only their own data properties. Prototype chains, getters, an
  overridden `hasOwnProperty` and objects without a prototype are not modelled. None of the keys the code
  reads is inherited from a built-in prototype. An array's elements and a function's built-in `name` and
  `length` are not modelled as properties, because the code never reads those keys.
- `init` receives an array or no argument (`None`). Other non-array arguments are not modelled: `null`
  (a TypeError on `length`) and strings or array-likes, which are read element by element.
- Runtime.Init: its outcome covers the checks `init` makes itself. When the document is already loaded,
  `onDocumentLoad` runs the mount pass inside the call, and `init` then also throws the pass's first
  `TemplateError`. `Runtime.InitOnLoadedDocument` composes `Init` with `Runtime.MountTemplates` for that
  case. Which case applies depends on `document.readyState`, and that is not modelled.
- Registered configurations are treated as unchanged between `init` and the mount pass. The source
  stores the caller's objects by reference. A caller that later sets `value` to `null`, or changes `id`,
  makes the pass throw a TypeError or miss the entry. The model's values cannot change, and that is the
  only reason the well-formed-registry requirement of `Admit` and `MountTemplates` holds at every call.
