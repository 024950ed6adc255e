/**
 * The recorded page states the healer searches, and the search itself.
 *
 * The search is done in the source by `de.retest.web.selenium.By.findElement` and
 * `By.findElementByAttribute`, whose code is not part of this model. What is written here is
 * the behaviour this model ASSUMES of them:
 *  - the expected (Golden Master) elements are scanned in order and the first one satisfying
 *    the criterion is taken;
 *  - an attribute criterion holds when the element's identifying attribute of that name, or
 *    else its descriptive attribute of that name, is present and satisfies the condition;
 *  - the element handed back is the first element of the actual state that has the same
 *    retestId as the expected match; if there is none, nothing is found.
 */
module Snapshot {
  import opened Wrappers
  import opened Strings

  /**
   * A recorded element. `path` and `tagType` are the identifying attributes "path" and "type"
   * (the path rendered as a string such as "HTML[1]/DIV[3]"); `identifying` holds the other
   * identifying attributes and `attributes` the descriptive ones.
   */
  datatype Element = Element(
    identifying: map<string, string>,
    attributes: map<string, string>,
    path: string,
    tagType: string,
    retestId: string)

  /** `element.getIdentifyingAttributes().get(key)`. */
  function IdentifyingGet(e: Element, key: string): Option<string> {
    if key == "path" then Some(e.path)
    else if key == "type" then Some(e.tagType)
    else if key in e.identifying then Some(e.identifying[key])
    else None
  }

  /** `element.getAttributes().get(key)`. */
  function AttributeGet(e: Element, key: string): Option<string> {
    if key in e.attributes then Some(e.attributes[key]) else None
  }

  /** What an element is searched for. */
  datatype Criterion =
    | AttributeEquals(key: string, value: string)
    | AttributeContains(key: string, literal: string)
    | PathContains(fragment: string)
    | PathStartsWith(prefix: string)
    | LinkTextIs(text: string)

  predicate ValueEquals(v: Option<string>, value: string) {
    v.Some? && v.value == value
  }

  predicate ValueContains(v: Option<string>, literal: string) {
    v.Some? && Contains(v.value, literal)
  }

  /** Whether element `e` satisfies criterion `c`. */
  predicate Satisfies(e: Element, c: Criterion) {
    match c
    case AttributeEquals(key, value) =>
      ValueEquals(IdentifyingGet(e, key), value) || ValueEquals(AttributeGet(e, key), value)
    case AttributeContains(key, literal) =>
      ValueContains(IdentifyingGet(e, key), literal) || ValueContains(AttributeGet(e, key), literal)
    case PathContains(fragment) =>
      Contains(Lower(e.path), fragment)
    case PathStartsWith(prefix) =>
      StartsWith(Lower(e.path), prefix)
    case LinkTextIs(text) =>
      // `&&` binds tighter than `||`: the descriptive text alone suffices, whatever the type
      ValueEquals(AttributeGet(e, "text"), text)
      || (ValueEquals(IdentifyingGet(e, "text"), text) && EqualsIgnoreCase("a", e.tagType))
  }

  /** The index of the first element satisfying `c`, scanning in recorded order. */
  function FirstMatch(elements: seq<Element>, c: Criterion): (r: Option<nat>)
    ensures r.Some? ==> r.value < |elements| && Satisfies(elements[r.value], c)
    ensures r.Some? ==> forall j :: 0 <= j < r.value ==> !Satisfies(elements[j], c)
    ensures r.None? ==> forall j :: 0 <= j < |elements| ==> !Satisfies(elements[j], c)
  {
    if elements == [] then None
    else if Satisfies(elements[0], c) then Some(0)
    else match FirstMatch(elements[1..], c)
      case None => None
      case Some(k) => Some(k + 1)
  }

  /** The index of the first element with the given retestId. */
  function FirstWithRetestId(elements: seq<Element>, retestId: string): (r: Option<nat>)
    ensures r.Some? ==> r.value < |elements| && elements[r.value].retestId == retestId
    ensures r.Some? ==> forall j :: 0 <= j < r.value ==> elements[j].retestId != retestId
    ensures r.None? ==> forall j :: 0 <= j < |elements| ==> elements[j].retestId != retestId
  {
    if elements == [] then None
    else if elements[0].retestId == retestId then Some(0)
    else match FirstWithRetestId(elements[1..], retestId)
      case None => None
      case Some(k) => Some(k + 1)
  }

  /**
   * `By.findElement(lastExpectedState, lastActualState, predicate)`: the first actual element
   * that corresponds to the first expected element satisfying `c`.
   */
  function Locate(expected: seq<Element>, actual: seq<Element>, c: Criterion): (r: Option<Element>)
    ensures r.Some? ==> r.value in actual
    ensures r.Some? ==> exists k :: FirstMatch(expected, c) == Some(k) && expected[k].retestId == r.value.retestId
    ensures r.Some? ==>
      exists j :: 0 <= j < |actual| && actual[j] == r.value && forall i :: 0 <= i < j ==> actual[i].retestId != r.value.retestId
    ensures r.None? <==>
      (FirstMatch(expected, c).None? || forall a :: a in actual ==> a.retestId != expected[FirstMatch(expected, c).value].retestId)
  {
    match FirstMatch(expected, c)
    case None => None
    case Some(k) =>
      match FirstWithRetestId(actual, expected[k].retestId)
      case None => None
      case Some(j) => Some(actual[j])
  }
}
