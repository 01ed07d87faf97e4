/** The view of a `<template>` element the mount pass needs: its attributes,
    the number of element children of its content, and the selector that
    picks templates out of the document. */
module Dom {
  import opened Wrappers
  import Js

  /** A `<template>` element: attribute name to value, and how many element
      children its `content` fragment has. */
  datatype Template = Template(attrs: map<string, string>, rootChildren: nat)

  /** `hasAttribute(name)`. */
  predicate HasAttribute(t: Template, name: string) {
    name in t.attrs
  }

  /** `getAttribute(name)`: the value, or `None` for `null`. */
  function GetAttribute(t: Template, name: string): (r: Option<string>)
    ensures r.Some? <==> HasAttribute(t, name)
    ensures r.Some? ==> r.value == t.attrs[name]
  {
    if name in t.attrs then Some(t.attrs[name]) else None
  }

  /** An attribute read as a JavaScript value: a string, or `null`. */
  function ToJs(a: Option<string>): Js.JsValue {
    match a
    case Some(s) => Js.Str(s)
    case None => Js.Null
  }

  /** `a || b` on two attribute reads: the empty string is falsy, so an empty
      first attribute falls through to the second one. */
  function AttrOr(a: Option<string>, b: Option<string>): (r: Option<string>)
    ensures a.Some? && a.value != "" ==> r == a
    ensures (a.None? || a.value == "") ==> r == b
  {
    if a.Some? && a.value != "" then a else b
  }

  /** `AttrOr` is JavaScript's `||` on `string | null`, value for value. */
  lemma AttrOrIsJsOr(a: Option<string>, b: Option<string>)
    ensures ToJs(AttrOr(a, b)) == Js.Or(ToJs(a), ToJs(b))
  {
  }

  /** The template carries at least one of the marker attributes. */
  predicate Marked(t: Template, markers: set<string>) {
    markers * t.attrs.Keys != {}
  }

  /** `querySelectorAll("template[m1], template[m2], ...")`: the marked
      templates of the document, in document order. */
  function Select(doc: seq<Template>, markers: set<string>): (r: seq<Template>)
    ensures |r| <= |doc|
    ensures forall t :: t in r <==> t in doc && Marked(t, markers)
  {
    if doc == [] then []
    else (if Marked(doc[0], markers) then [doc[0]] else []) + Select(doc[1..], markers)
  }

  /** Selection keeps document order: selecting from two consecutive parts of
      a document is selecting from each part in turn. */
  lemma {:induction false} SelectAppend(a: seq<Template>, b: seq<Template>, markers: set<string>)
    ensures Select(a + b, markers) == Select(a, markers) + Select(b, markers)
  {
    if a == [] {
      assert a + b == b;
    } else {
      assert (a + b)[0] == a[0];
      assert (a + b)[1..] == a[1..] + b;
      SelectAppend(a[1..], b, markers);
    }
  }
}
