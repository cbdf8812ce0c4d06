/** The pass over the cloned page that makes resource URLs absolute: on every
    element the properties `src`, `href`, `srcset` and `data-src` are
    resolved against the page, the `href` of a stylesheet link a second
    time, and the text of a `<style>` element goes through the `url(...)`
    rewrite. */
module ResourceUrls {
  import opened Wrappers
  import opened Strings
  import StyleUrls

  /** The properties every element is checked for. */
  const ResourceProperties: seq<string> := ["src", "href", "srcset", "data-src"]

  /** An element of the clone as the pass sees it: its tag name, its `rel`,
      the string values of its properties (a name that is absent reads as
      `undefined`) and its text content. */
  datatype Element = Element(tagName: string, rel: string, props: map<string, string>, text: string)

  /** A value the rule leaves alone: empty (falsy), or an inline `data:`
      or `blob:` URL. */
  predicate IsSkipped(v: string) {
    v == [] || StartsWith(v, "data:") || StartsWith(v, "blob:")
  }

  /** The new value of one property: the resolved URL, or the value as it
      was when it is skipped or its resolution throws. */
  function NormalizeValue(v: string, resolve: StyleUrls.Resolver): string {
    if IsSkipped(v) then v
    else match resolve(v)
      case Some(u) => u
      case None => v
  }

  /** One property processed; an absent property is left absent. */
  function NormalizeProperty(props: map<string, string>, name: string, resolve: StyleUrls.Resolver): map<string, string> {
    if name in props then props[name := NormalizeValue(props[name], resolve)] else props
  }

  /** The properties after `processAttributes(el, names)`: the names are
      taken in order. */
  function NormalizedProps(props: map<string, string>, names: seq<string>, resolve: StyleUrls.Resolver): map<string, string>
    decreases |names|
  {
    if names == [] then props
    else NormalizeProperty(NormalizedProps(props, names[..|names| - 1], resolve), names[|names| - 1], resolve)
  }

  predicate IsStylesheetLink(e: Element) {
    e.tagName == "LINK" && e.rel == "stylesheet"
  }

  /** What the pass does to one element. */
  function ProcessElement(e: Element, resolve: StyleUrls.Resolver): Element {
    var p := NormalizedProps(e.props, ResourceProperties, resolve);
    var p' := if IsStylesheetLink(e) then NormalizedProps(p, ["href"], resolve) else p;
    var t := if e.tagName == "STYLE" then StyleUrls.Rewrite(e.text, resolve) else e.text;
    e.(props := p', text := t)
  }

  /** `processAttributes(el, names)`: each listed property that holds a
      value is replaced by its normalised value. */
  method ProcessAttributes(props: map<string, string>, names: seq<string>, resolve: StyleUrls.Resolver)
    returns (r: map<string, string>)
    ensures r == NormalizedProps(props, names, resolve)
  {
    r := props;
    for j := 0 to |names|
      invariant r == NormalizedProps(props, names[..j], resolve)
    {
      assert names[..j + 1][..j] == names[..j];
      var name := names[j];
      if name in r && r[name] != [] {
        var v := r[name];
        if !StartsWith(v, "data:") && !StartsWith(v, "blob:") {
          match resolve(v)
          case Some(u) =>
            r := r[name := u];
          case None =>
        }
      }
    }
    assert names[..|names|] == names;
  }

  /** `clone.querySelectorAll("*").forEach(...)`: every element of the
      clone is processed in place, and nothing else changes. */
  method NormalizeClone(els: array<Element>, resolve: StyleUrls.Resolver)
    modifies els
    ensures forall i :: 0 <= i < els.Length ==> els[i] == ProcessElement(old(els[i]), resolve)
  {
    for i := 0 to els.Length
      invariant forall k :: 0 <= k < i ==> els[k] == ProcessElement(old(els[k]), resolve)
      invariant forall k :: i <= k < els.Length ==> els[k] == old(els[k])
    {
      var e := els[i];
      var p := ProcessAttributes(e.props, ResourceProperties, resolve);
      if e.tagName == "LINK" && e.rel == "stylesheet" {
        p := ProcessAttributes(p, ["href"], resolve);
      }
      var t := e.text;
      if e.tagName == "STYLE" {
        t := StyleUrls.Rewrite(t, resolve);
      }
      els[i] := e.(props := p, text := t);
    }
  }

  /** The rule on one value, case by case: a skipped value is kept, a
      value whose resolution throws is kept, and any other value becomes
      its resolution. */
  lemma NormalizeValueCases(v: string, resolve: StyleUrls.Resolver)
    ensures IsSkipped(v) ==> NormalizeValue(v, resolve) == v
    ensures resolve(v).None? ==> NormalizeValue(v, resolve) == v
    ensures !IsSkipped(v) && resolve(v).Some? ==> NormalizeValue(v, resolve) == resolve(v).value
  {
  }

  /** A value that is not skipped is changed exactly when it resolves to
      something else. */
  lemma NormalizeValueChanges(v: string, resolve: StyleUrls.Resolver)
    requires !IsSkipped(v)
    ensures NormalizeValue(v, resolve) != v <==> resolve(v).Some? && resolve(v).value != v
  {
  }

  /** With a resolver whose results resolve to themselves (an absolute
      URL is its own resolution), normalising twice is normalising once. */
  lemma NormalizeValueIdempotent(v: string, resolve: StyleUrls.Resolver)
    requires forall x, u :: resolve(x) == Some(u) ==> resolve(u) == Some(u)
    ensures NormalizeValue(NormalizeValue(v, resolve), resolve) == NormalizeValue(v, resolve)
  {
    if !IsSkipped(v) && resolve(v).Some? {
      var u := resolve(v).value;
      assert resolve(u) == Some(u);
    }
  }

  /** Processing a list of distinct names changes exactly the listed
      properties that are present, each by the rule, keeps every other
      property, and neither adds nor removes one; a value whose
      resolution fails does not stop the names after it. */
  lemma {:induction false} NormalizedPropsSpec(props: map<string, string>, names: seq<string>, resolve: StyleUrls.Resolver)
    requires forall i, j :: 0 <= i < j < |names| ==> names[i] != names[j]
    ensures NormalizedProps(props, names, resolve).Keys == props.Keys
    ensures forall k :: k in props ==>
      NormalizedProps(props, names, resolve)[k]
        == if k in names then NormalizeValue(props[k], resolve) else props[k]
    decreases |names|
  {
    if names != [] {
      var init := names[..|names| - 1];
      var last := names[|names| - 1];
      NormalizedPropsSpec(props, init, resolve);
      assert last !in init;
      forall k | k in names ensures k in init || k == last {
        var i :| 0 <= i < |names| && names[i] == k;
        if i < |names| - 1 {
          assert init[i] == k;
        }
      }
    }
  }

  /** Only the four resource properties can change on an element that is
      not a stylesheet link, and each one that is present changes by the
      rule. */
  lemma ProcessElementProps(e: Element, resolve: StyleUrls.Resolver)
    requires !IsStylesheetLink(e)
    ensures ProcessElement(e, resolve).props.Keys == e.props.Keys
    ensures forall k :: k in e.props ==>
      ProcessElement(e, resolve).props[k]
        == if k in ResourceProperties then NormalizeValue(e.props[k], resolve) else e.props[k]
  {
    NormalizedPropsSpec(e.props, ResourceProperties, resolve);
  }

  /** On a stylesheet link `href` is processed twice, once among the four
      resource properties and once more on its own; every other property
      follows the rule of the first pass. */
  lemma StylesheetLinkProps(e: Element, resolve: StyleUrls.Resolver)
    requires IsStylesheetLink(e)
    ensures ProcessElement(e, resolve).props.Keys == e.props.Keys
    ensures forall k :: k in e.props ==>
      ProcessElement(e, resolve).props[k]
        == if k == "href" then NormalizeValue(NormalizeValue(e.props[k], resolve), resolve)
           else if k in ResourceProperties then NormalizeValue(e.props[k], resolve)
           else e.props[k]
  {
    var p := NormalizedProps(e.props, ResourceProperties, resolve);
    NormalizedPropsSpec(e.props, ResourceProperties, resolve);
    NormalizedPropsSpec(p, ["href"], resolve);
  }

  /** On a stylesheet link the second pass over `href` changes nothing
      when the resolver's results resolve to themselves: the link ends up
      as if `href` had been processed once. */
  lemma StylesheetSecondPass(e: Element, resolve: StyleUrls.Resolver)
    requires IsStylesheetLink(e)
    requires forall x, u :: resolve(x) == Some(u) ==> resolve(u) == Some(u)
    ensures ProcessElement(e, resolve).props == NormalizedProps(e.props, ResourceProperties, resolve)
  {
    var p := NormalizedProps(e.props, ResourceProperties, resolve);
    assert ["href"][..0] == [];
    NormalizedPropsSpec(e.props, ResourceProperties, resolve);
    if "href" in p {
      NormalizeValueIdempotent(e.props["href"], resolve);
      assert p["href" := NormalizeValue(p["href"], resolve)] == p;
    }
  }

  /** With a resolver that never changes a URL, processing a list of
      names changes nothing. */
  lemma {:induction false} NormalizedPropsIdentity(props: map<string, string>, names: seq<string>, resolve: StyleUrls.Resolver)
    requires forall x :: resolve(x).Some? ==> resolve(x).value == x
    ensures NormalizedProps(props, names, resolve) == props
    decreases |names|
  {
    if names != [] {
      NormalizedPropsIdentity(props, names[..|names| - 1], resolve);
      var last := names[|names| - 1];
      if last in props {
        assert props[last := NormalizeValue(props[last], resolve)] == props;
      }
    }
  }

  /** With a resolver that never changes a URL, the pass leaves every
      element as it was: its properties, and the text of a `<style>`
      element. */
  lemma ProcessElementIdentity(e: Element, resolve: StyleUrls.Resolver)
    requires forall x :: resolve(x).Some? ==> resolve(x).value == x
    ensures ProcessElement(e, resolve) == e
  {
    NormalizedPropsIdentity(e.props, ResourceProperties, resolve);
    NormalizedPropsIdentity(e.props, ["href"], resolve);
    StyleUrls.RewriteIdentity(e.text, resolve);
  }
}
