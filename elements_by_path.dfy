/**
 * The DOM snapshot script src/main/resources/javascript/getAllElementsByPath.js: it walks the
 * page from a root element and stores one entry per element (and per non-blank text node
 * between elements) under a path key such as "//html[1]/body[1]/div[2]". Those keys are the
 * paths the XPath healing later matches against.
 *
 * The DOM is a read-only tree value here. What `transform` extracts from a node (style,
 * coordinates, text) is a live-DOM query and is kept opaque: an entry is the node together with
 * the lower-cased tag name the script records for it.
 */
module ElementsByPath {
  import opened Wrappers
  import opened Strings

  /** A DOM node; `nodeName` and `tagName` follow from the kind (see `NodeName`). */
  datatype Node =
    | Element(name: string, childNodes: seq<Node>)
    | Text(nodeValue: Option<string>)
    | Comment(data: string)
    | DocumentType(doctypeName: string)
    | Document(childNodes: seq<Node>)

  /** `node.nodeName`; for an element it equals its `tagName`. */
  function NodeName(n: Node): string {
    match n
    case Element(name, _) => name
    case Text(_) => "#text"
    case Comment(_) => "#comment"
    case DocumentType(name) => name
    case Document(_) => "#document"
  }

  /** `node.children` is defined (an element or a document). */
  predicate HasChildrenCollection(n: Node) {
    n.Element? || n.Document?
  }

  /** `containsOtherElements`: `node.children.length > 0`. */
  predicate ContainsOtherElements(n: Node) {
    HasChildrenCollection(n) && exists c :: c in n.childNodes && c.Element?
  }

  /** `children`: the element nodes among `childNodes`, in order. */
  function ElementChildren(nodes: seq<Node>): (r: seq<Node>)
    ensures |r| <= |nodes|
  {
    if nodes == [] then []
    else if nodes[0].Element? then [nodes[0]] + ElementChildren(nodes[1..])
    else ElementChildren(nodes[1..])
  }

  /** `children` holds exactly the element nodes among `childNodes`. */
  lemma {:induction false} ElementChildrenFilters(nodes: seq<Node>, c: Node)
    ensures c in ElementChildren(nodes) <==> c in nodes && c.Element?
  {
    if nodes != [] {
      ElementChildrenFilters(nodes[1..], c);
      assert nodes == [nodes[0]] + nodes[1..];
    }
  }

  /** A node contains other elements exactly when its `children` collection is non-empty. */
  lemma ContainsOtherElementsIffChildren(n: Node)
    ensures ContainsOtherElements(n) <==> HasChildrenCollection(n) && |ElementChildren(n.childNodes)| > 0
  {
    if HasChildrenCollection(n) {
      var children := ElementChildren(n.childNodes);
      if |children| > 0 {
        ElementChildrenFilters(n.childNodes, children[0]);
      }
      forall c | c in n.childNodes && c.Element? ensures |children| > 0 {
        ElementChildrenFilters(n.childNodes, c);
      }
    }
  }

  // ---------------------------------------------------------------------------------------
  // Text nodes
  // ---------------------------------------------------------------------------------------

  /** The characters `String.prototype.trim` removes: white space and line terminators. */
  predicate IsJsWhitespace(c: char) {
    c == '\t' || c == '\n' || c == '\U{B}' || c == '\U{C}' || c == '\r' || c == ' '
    || c == '\U{A0}' || c == '\U{1680}' || ('\U{2000}' <= c <= '\U{200A}')
    || c == '\U{2028}' || c == '\U{2029}' || c == '\U{202F}' || c == '\U{205F}'
    || c == '\U{3000}' || c == '\U{FEFF}'
  }

  function TrimStart(s: string): (r: string)
    ensures r != [] ==> !IsJsWhitespace(r[0])
  {
    if s != [] && IsJsWhitespace(s[0]) then TrimStart(s[1..]) else s
  }

  function TrimEnd(s: string): string {
    if s != [] && IsJsWhitespace(s[|s| - 1]) then TrimEnd(s[..|s| - 1]) else s
  }

  /** `s.trim()`. */
  function Trim(s: string): string {
    TrimEnd(TrimStart(s))
  }

  predicate IsBlank(s: string) {
    forall i :: 0 <= i < |s| ==> IsJsWhitespace(s[i])
  }

  lemma {:induction false} TrimStartEmptyIffBlank(s: string)
    ensures TrimStart(s) == [] <==> IsBlank(s)
    decreases |s|
  {
    if s != [] && IsJsWhitespace(s[0]) {
      TrimStartEmptyIffBlank(s[1..]);
      assert forall i :: 1 <= i < |s| ==> s[i] == s[1..][i - 1];
    } else if s != [] {
      assert !IsJsWhitespace(s[0]);
    }
  }

  lemma {:induction false} TrimEndEmptyIffBlank(s: string)
    ensures TrimEnd(s) == [] <==> IsBlank(s)
    decreases |s|
  {
    if s != [] && IsJsWhitespace(s[|s| - 1]) {
      TrimEndEmptyIffBlank(s[..|s| - 1]);
      assert forall i :: 0 <= i < |s| - 1 ==> s[i] == s[..|s| - 1][i];
    } else if s != [] {
      assert !IsJsWhitespace(s[|s| - 1]);
    }
  }

  /** `s.trim()` is empty exactly when every character of `s` is white space. */
  lemma TrimEmptyIffBlank(s: string)
    ensures |Trim(s)| == 0 <==> IsBlank(s)
  {
    TrimStartEmptyIffBlank(s);
    TrimEndEmptyIffBlank(TrimStart(s));
    if TrimStart(s) != [] {
      assert !IsBlank(TrimStart(s));
    }
  }

  /** `isNonEmptyTextNode`: a text node whose value (null read as "") is not blank after trim. */
  predicate IsNonEmptyTextNode(n: Node) {
    n.Text? && |Trim(if n.nodeValue.None? then "" else n.nodeValue.value)| > 0
  }

  /** A node is a non-empty text node exactly when it is a text node with a visible character. */
  lemma NonEmptyTextNodeHasVisibleCharacter(n: Node)
    ensures IsNonEmptyTextNode(n) <==>
      n.Text? && n.nodeValue.Some? && exists i :: 0 <= i < |n.nodeValue.value| && !IsJsWhitespace(n.nodeValue.value[i])
  {
    if n.Text? {
      TrimEmptyIffBlank(if n.nodeValue.None? then "" else n.nodeValue.value);
    }
  }

  // ---------------------------------------------------------------------------------------
  // Which children are visited, and under which key
  // ---------------------------------------------------------------------------------------

  /** A child is visited if it is an element, or non-blank text beside element siblings. */
  predicate Included(child: Node, parent: Node) {
    child.Element? || (IsNonEmptyTextNode(child) && ContainsOtherElements(parent))
  }

  /** The `tagName` the script reads: a visited text node is renamed "textnode" first. */
  function TagOf(n: Node): string {
    if n.Text? then "textnode" else NodeName(n)
  }

  /** What `transform(child)` stores: the lower-cased tag name and the (opaque) node. */
  datatype Entry = Entry(tagName: string, node: Node)

  function Transform(n: Node): Entry {
    Entry(Lower(TagOf(n)), n)
  }

  /** The number of visited children among the first `i` whose tag name is `tag`. */
  function CountBefore(parent: Node, i: nat, tag: string): nat
    requires HasChildrenCollection(parent) && i <= |parent.childNodes|
  {
    if i == 0 then 0
    else
      var c := parent.childNodes[i - 1];
      CountBefore(parent, i - 1, tag) + (if Included(c, parent) && TagOf(c) == tag then 1 else 0)
  }

  /** The 1-based position of child `i` among the visited siblings before it with its tag name. */
  function SiblingIndex(parent: Node, i: nat): nat
    requires HasChildrenCollection(parent) && i < |parent.childNodes|
  {
    CountBefore(parent, i, TagOf(parent.childNodes[i])) + 1
  }

  /** `parentPath + "/" + tagName.toLowerCase() + "[" + cnt + "]"`. */
  function ChildKey(parentPath: string, parent: Node, i: nat): string
    requires HasChildrenCollection(parent) && i < |parent.childNodes|
  {
    parentPath + "/" + KeySegment(Lower(TagOf(parent.childNodes[i])), SiblingIndex(parent, i))
  }

  /** One path segment, `tag[index]`. */
  function KeySegment(tag: string, index: nat): string {
    tag + "[" + NatToString(index) + "]"
  }

  /**
   * Segments are equal only when tags and indices are: the index is all digits, so the last
   * `[` of a segment separates the tag from it.
   */
  lemma KeySegmentInjective(a: string, m: nat, b: string, n: nat)
    requires KeySegment(a, m) == KeySegment(b, n)
    ensures a == b && m == n
  {
    var s := KeySegment(a, m);
    var ms, ns := NatToString(m), NatToString(n);
    assert s == b + "[" + ns + "]";
    forall i | |a| < i < |s| - 1 ensures s[i] != '[' {
      assert s[i] == ms[i - |a| - 1];
    }
    forall i | |b| < i < |s| - 1 ensures s[i] != '[' {
      assert s[i] == ns[i - |b| - 1];
    }
    assert s[|a|] == '[' && s[|b|] == '[';
    assert |a| == |b|;
    assert a == s[..|a|] == b;
    assert ms == s[|a| + 1..|s| - 1] == ns;
    NatToStringInjective(m, n);
  }

  /** Counting further children never lowers a tag's count. */
  lemma {:induction false} CountBeforeMonotone(parent: Node, i: nat, j: nat, tag: string)
    requires HasChildrenCollection(parent) && i <= j <= |parent.childNodes|
    ensures CountBefore(parent, i, tag) <= CountBefore(parent, j, tag)
    decreases j - i
  {
    if i < j {
      CountBeforeMonotone(parent, i, j - 1, tag);
    }
  }

  /**
   * Distinct visited siblings get distinct keys, provided that when their lower-cased tag names
   * agree, so do the tag names themselves.
   */
  lemma SiblingKeysDistinct(parentPath: string, parent: Node, i: nat, j: nat)
    requires HasChildrenCollection(parent) && i < j < |parent.childNodes|
    requires Included(parent.childNodes[i], parent) && Included(parent.childNodes[j], parent)
    requires Lower(TagOf(parent.childNodes[i])) == Lower(TagOf(parent.childNodes[j])) ==>
      TagOf(parent.childNodes[i]) == TagOf(parent.childNodes[j])
    ensures ChildKey(parentPath, parent, i) != ChildKey(parentPath, parent, j)
  {
    var ti, tj := TagOf(parent.childNodes[i]), TagOf(parent.childNodes[j]);
    var p := parentPath + "/";
    var x, y := KeySegment(Lower(ti), SiblingIndex(parent, i)), KeySegment(Lower(tj), SiblingIndex(parent, j));
    if p + x == p + y {
      assert x == (p + x)[|p|..] == (p + y)[|p|..] == y;
      KeySegmentInjective(Lower(ti), SiblingIndex(parent, i), Lower(tj), SiblingIndex(parent, j));
      CountBeforeMonotone(parent, i + 1, j, ti);
      assert false;
    }
  }

  /**
   * The counter is keyed by the raw tag name but the key uses the lower-cased one: an `A` and
   * an `a` element side by side (possible in an XML document) both get the key "/p/a[1]".
   */
  lemma CaseVariantSiblingsShareKey()
    ensures var parent := Element("P", [Element("A", []), Element("a", [])]);
      ChildKey("/p", parent, 0) == ChildKey("/p", parent, 1) == "/p/a[1]"
  {
    var parent := Element("P", [Element("A", []), Element("a", [])]);
    assert CountBefore(parent, 1, "a") == 0;
    assert Lower("A") == "a" && Lower("a") == "a";
    assert NatToString(1) == "1";
  }

  // ---------------------------------------------------------------------------------------
  // The path-to-entry table (the script's `allElements` object)
  // ---------------------------------------------------------------------------------------

  /** Entries by key, and the keys in insertion order (the object's property order). */
  datatype Table = Table(entries: map<string, Entry>, order: seq<string>)

  /** `allElements[key] = e`: a new key goes to the end, an existing key keeps its place. */
  function Store(t: Table, key: string, e: Entry): Table {
    Table(t.entries[key := e], if key in t.entries then t.order else t.order + [key])
  }

  /** The keys listed in order are exactly the stored keys, each once. */
  ghost predicate Valid(t: Table) {
    (forall i, j :: 0 <= i < j < |t.order| ==> t.order[i] != t.order[j])
    && (forall k :: k in t.entries <==> k in t.order)
  }

  lemma StorePreservesValid(t: Table, key: string, e: Entry)
    requires Valid(t)
    ensures Valid(Store(t, key, e))
  {
  }

  datatype Assignment = Assignment(key: string, entry: Entry)

  /** The table after storing the assignments one after the other. */
  function StoreAll(t: Table, assigns: seq<Assignment>): Table
    decreases |assigns|
  {
    if assigns == [] then t else StoreAll(Store(t, assigns[0].key, assigns[0].entry), assigns[1..])
  }

  lemma {:induction false} StoreAllAppend(t: Table, a: seq<Assignment>, b: seq<Assignment>)
    ensures StoreAll(t, a + b) == StoreAll(StoreAll(t, a), b)
    decreases |a|
  {
    if a != [] {
      var t' := Store(t, a[0].key, a[0].entry);
      assert (a + b)[0] == a[0];
      assert (a + b)[1..] == a[1..] + b;
      calc {
        StoreAll(t, a + b);
        StoreAll(t', a[1..] + b);
        { StoreAllAppend(t', a[1..], b); }
        StoreAll(StoreAll(t', a[1..]), b);
      }
    } else {
      assert a + b == b;
    }
  }

  /** Storing keeps the table valid and keeps the order already there as a prefix. */
  lemma {:induction false} StoreAllKeepsValid(t: Table, assigns: seq<Assignment>)
    requires Valid(t)
    ensures Valid(StoreAll(t, assigns))
    ensures |t.order| <= |StoreAll(t, assigns).order| && StoreAll(t, assigns).order[..|t.order|] == t.order
    decreases |assigns|
  {
    if assigns != [] {
      var t' := Store(t, assigns[0].key, assigns[0].entry);
      StorePreservesValid(t, assigns[0].key, assigns[0].entry);
      StoreAllKeepsValid(t', assigns[1..]);
      assert t'.order[..|t.order|] == t.order;
    }
  }

  /** Storing keeps the entry of every key that no assignment names. */
  lemma {:induction false} StoreAllKeepsUntouched(t: Table, assigns: seq<Assignment>, k: string)
    requires k in t.entries && forall a :: a in assigns ==> a.key != k
    ensures k in StoreAll(t, assigns).entries && StoreAll(t, assigns).entries[k] == t.entries[k]
    decreases |assigns|
  {
    if assigns != [] {
      assert assigns[0] in assigns;
      assert forall a :: a in assigns[1..] ==> a in assigns;
      StoreAllKeepsUntouched(Store(t, assigns[0].key, assigns[0].entry), assigns[1..], k);
    }
  }

  /** After storing, the keys are the old ones and those the assignments name. */
  lemma {:induction false} StoreAllKeys(t: Table, assigns: seq<Assignment>, k: string)
    ensures k in StoreAll(t, assigns).entries <==> (k in t.entries || exists a :: a in assigns && a.key == k)
    decreases |assigns|
  {
    if assigns != [] {
      StoreAllKeys(Store(t, assigns[0].key, assigns[0].entry), assigns[1..], k);
      if exists a :: a in assigns[1..] && a.key == k {
        var a :| a in assigns[1..] && a.key == k;
        assert a in assigns;
      }
      if k !in t.entries && k != assigns[0].key && exists a :: a in assigns && a.key == k {
        var a :| a in assigns && a.key == k;
        assert a in assigns[1..];
      }
    }
  }

  /** The script's `allElements` object, updated in place. */
  class ElementMap {
    var entries: map<string, Entry>
    var order: seq<string>

    constructor ()
      ensures entries == map[] && order == []
    {
      entries := map[];
      order := [];
    }

    function Contents(): Table
      reads this
    {
      Table(entries, order)
    }

    /** `allElements[key] = e`. */
    method Put(key: string, e: Entry)
      modifies this
      ensures Contents() == Store(old(Contents()), key, e)
    {
      if key !in entries {
        order := order + [key];
      }
      entries := entries[key := e];
    }
  }

  // ---------------------------------------------------------------------------------------
  // The traversal
  // ---------------------------------------------------------------------------------------

  /** The per-parent `Counter`: how often each tag name has been seen among the children so far. */
  class Counter {
    var counts: map<string, nat>

    constructor ()
      ensures counts == map[]
    {
      counts := map[];
    }

    /** `increase`: 1 for a new tag name, else one more than before; other tags unchanged. */
    method Increase(tagName: string) returns (n: nat)
      modifies this
      ensures n == (if tagName in old(counts) then old(counts)[tagName] + 1 else 1)
      ensures counts == old(counts)[tagName := n]
    {
      if tagName in counts {
        counts := counts[tagName := counts[tagName] + 1];
      } else {
        counts := counts[tagName := 1];
      }
      n := counts[tagName];
    }
  }

  /** The assignments `mapElement(node, path, _)` makes, in the order it makes them. */
  function Visit(node: Node, path: string): seq<Assignment>
    decreases node, 1
  {
    if !HasChildrenCollection(node) then [] else VisitChildren(node, path, |node.childNodes|)
  }

  /** The assignments made for the first `n` children of `parent`, each child before its subtree. */
  function VisitChildren(parent: Node, path: string, n: nat): seq<Assignment>
    requires HasChildrenCollection(parent) && n <= |parent.childNodes|
    decreases parent, 0, n
  {
    if n == 0 then []
    else
      var child := parent.childNodes[n - 1];
      VisitChildren(parent, path, n - 1) +
        (if Included(child, parent) then
           var key := ChildKey(path, parent, n - 1);
           [Assignment(key, Transform(child))] + Visit(child, key)
         else [])
  }

  /** The counter holds, for every tag, the count of visited children before position `i`. */
  ghost predicate CounterAgrees(counts: map<string, nat>, parent: Node, i: nat)
    requires HasChildrenCollection(parent) && i <= |parent.childNodes|
  {
    forall tag :: (if tag in counts then counts[tag] else 0) == CountBefore(parent, i, tag)
  }

  /** Counting child `i` moves the counter from position `i` to `i + 1`. */
  lemma CounterStep(counts: map<string, nat>, parent: Node, i: nat)
    requires HasChildrenCollection(parent) && i < |parent.childNodes|
    requires CounterAgrees(counts, parent, i)
    ensures var c := parent.childNodes[i];
      if Included(c, parent) then
        var n := if TagOf(c) in counts then counts[TagOf(c)] + 1 else 1;
        n == SiblingIndex(parent, i) && CounterAgrees(counts[TagOf(c) := n], parent, i + 1)
      else CounterAgrees(counts, parent, i + 1)
  {
  }

  /** Visiting one more included child adds its own assignment and then its subtree's. */
  lemma VisitChildrenStep(parent: Node, path: string, i: nat)
    requires HasChildrenCollection(parent) && i < |parent.childNodes| && Included(parent.childNodes[i], parent)
    ensures var child, key := parent.childNodes[i], ChildKey(path, parent, i);
      VisitChildren(parent, path, i + 1) == VisitChildren(parent, path, i) + ([Assignment(key, Transform(child))] + Visit(child, key))
  {
  }

  /** Storing a run, then one assignment, then another run is storing them concatenated. */
  lemma StoreAllStep(t: Table, prior: seq<Assignment>, a: Assignment, rest: seq<Assignment>)
    ensures StoreAll(Store(StoreAll(t, prior), a.key, a.entry), rest) == StoreAll(t, prior + ([a] + rest))
  {
    var middle := StoreAll(t, prior);
    assert StoreAll(middle, [a]) == Store(middle, a.key, a.entry);
    StoreAllAppend(middle, [a], rest);
    StoreAllAppend(t, prior, [a] + rest);
  }

  /**
   * Storing child `i` under its key and then its subtree takes the table for the first `i`
   * children to the table for the first `i + 1`.
   */
  lemma ContentsStep(t: Table, parent: Node, path: string, i: nat)
    requires HasChildrenCollection(parent) && i < |parent.childNodes| && Included(parent.childNodes[i], parent)
    ensures var child, key := parent.childNodes[i], ChildKey(path, parent, i);
      StoreAll(Store(StoreAll(t, VisitChildren(parent, path, i)), key, Transform(child)), Visit(child, key))
      == StoreAll(t, VisitChildren(parent, path, i + 1))
  {
    var child, key := parent.childNodes[i], ChildKey(path, parent, i);
    VisitChildrenStep(parent, path, i);
    StoreAllStep(t, VisitChildren(parent, path, i), Assignment(key, Transform(child)), Visit(child, key));
  }

  /**
   * `mapElement(element, parentPath, allElements)`: stores every visited child under its key
   * and descends into it; a node without `children` leaves the table as it is.
   */
  method MapElement(element: Node, parentPath: string, all: ElementMap)
    modifies all
    ensures all.Contents() == StoreAll(old(all.Contents()), Visit(element, parentPath))
    decreases element, 1
  {
    if !HasChildrenCollection(element) {
      return;
    }
    var counter := new Counter();
    var i := 0;
    while i < |element.childNodes|
      invariant 0 <= i <= |element.childNodes|
      invariant fresh(counter)
      invariant CounterAgrees(counter.counts, element, i)
      invariant all.Contents() == StoreAll(old(all.Contents()), VisitChildren(element, parentPath, i))
    {
      if Included(element.childNodes[i], element) {
        MapChild(element, parentPath, i, counter, all, old(all.Contents()));
      } else {
        CounterStep(counter.counts, element, i);
        assert VisitChildren(element, parentPath, i + 1) == VisitChildren(element, parentPath, i);
      }
      i := i + 1;
    }
  }

  /**
   * One pass of the loop in `mapElement` for a child that is visited: count it, store it under
   * its key and descend into it.
   */
  method MapChild(element: Node, parentPath: string, i: nat, counter: Counter, all: ElementMap, ghost start: Table)
    requires HasChildrenCollection(element) && i < |element.childNodes| && Included(element.childNodes[i], element)
    requires CounterAgrees(counter.counts, element, i)
    requires all.Contents() == StoreAll(start, VisitChildren(element, parentPath, i))
    modifies counter, all
    ensures CounterAgrees(counter.counts, element, i + 1)
    ensures all.Contents() == StoreAll(start, VisitChildren(element, parentPath, i + 1))
    decreases element, 0
  {
    var child := element.childNodes[i];
    CounterStep(counter.counts, element, i);
    var cnt := counter.Increase(TagOf(child));
    var path := parentPath + "/" + KeySegment(Lower(TagOf(child)), cnt);
    assert path == ChildKey(parentPath, element, i);
    ContentsStep(start, element, parentPath, i);
    all.Put(path, Transform(child));
    MapElement(child, path, all);
  }

  /** Every key stored below `path` extends `path + "/"`. */
  lemma {:induction false} VisitKeysExtend(node: Node, path: string)
    ensures forall a :: a in Visit(node, path) ==> StartsWith(a.key, path + "/")
    decreases node, 1
  {
    if HasChildrenCollection(node) {
      VisitChildrenKeysExtend(node, path, |node.childNodes|);
    }
  }

  lemma {:induction false} VisitChildrenKeysExtend(parent: Node, path: string, n: nat)
    requires HasChildrenCollection(parent) && n <= |parent.childNodes|
    ensures forall a :: a in VisitChildren(parent, path, n) ==> StartsWith(a.key, path + "/")
    decreases parent, 0, n
  {
    if n > 0 {
      VisitChildrenKeysExtend(parent, path, n - 1);
      var child := parent.childNodes[n - 1];
      if Included(child, parent) {
        var key := ChildKey(path, parent, n - 1);
        assert StartsWith(key, path + "/") by {
          assert key == (path + "/") + (Lower(TagOf(child)) + "[" + NatToString(SiblingIndex(parent, n - 1)) + "]");
        }
        VisitKeysExtend(child, key);
        forall a | a in Visit(child, key) ensures StartsWith(a.key, path + "/") {
          StartsWithTransitive(a.key, key + "/", path + "/");
        }
      }
    }
  }

  // ---------------------------------------------------------------------------------------
  // getElementXPath
  // ---------------------------------------------------------------------------------------

  /**
   * One step of the walk up from a node: the node and its preceding siblings (in document
   * order). A chain lists the start node first and then its ancestors, up to where
   * `parentNode` is null.
   */
  datatype Level = Level(node: Node, previousSiblings: seq<Node>)

  /** Preceding siblings with the same node name, document-type nodes skipped. */
  function SameNameBefore(siblings: seq<Node>, name: string): nat {
    if siblings == [] then 0
    else
      var last := siblings[|siblings| - 1];
      SameNameBefore(siblings[..|siblings| - 1], name) + (if !last.DocumentType? && NodeName(last) == name then 1 else 0)
  }

  lemma SameNameBeforeStep(siblings: seq<Node>, j: nat, name: string)
    requires j < |siblings|
    ensures SameNameBefore(siblings[..j + 1], name) ==
      SameNameBefore(siblings[..j], name) + (if !siblings[j].DocumentType? && NodeName(siblings[j]) == name then 1 else 0)
  {
    assert siblings[..j + 1][..j] == siblings[..j];
  }

  /** `tagName + "[" + (index + 1) + "]"` for one level. */
  function Segment(l: Level): string {
    KeySegment(Lower(NodeName(l.node)), SameNameBefore(l.previousSiblings, NodeName(l.node)) + 1)
  }

  /** How many levels, from the start, are elements: where the walk stops. */
  function ElementRun(chain: seq<Level>): (r: nat)
    ensures r <= |chain|
    ensures forall j :: 0 <= j < r ==> chain[j].node.Element?
    ensures r < |chain| ==> !chain[r].node.Element?
  {
    if chain == [] || !chain[0].node.Element? then 0 else 1 + ElementRun(chain[1..])
  }

  /** The segments of `levels`, outermost first (`paths.unshift` reverses the walk). */
  function RootFirst(levels: seq<Level>): (r: seq<string>)
    ensures |r| == |levels|
  {
    if levels == [] then [] else RootFirst(levels[1..]) + [Segment(levels[0])]
  }

  lemma {:induction false} RootFirstSnoc(levels: seq<Level>, l: Level)
    ensures RootFirst(levels + [l]) == [Segment(l)] + RootFirst(levels)
    decreases |levels|
  {
    if levels != [] {
      assert (levels + [l])[1..] == levels[1..] + [l];
      RootFirstSnoc(levels[1..], l);
    }
  }

  /** Walking one more level of the chain puts that level's segment in front. */
  lemma RootFirstStep(chain: seq<Level>, i: nat)
    requires i < |chain|
    ensures RootFirst(chain[..i + 1]) == [Segment(chain[i])] + RootFirst(chain[..i])
  {
    assert chain[..i + 1] == chain[..i] + [chain[i]];
    RootFirstSnoc(chain[..i], chain[i]);
  }

  /** What `getElementXPath` returns: null when the start is not an element. */
  function ElementXPath(chain: seq<Level>): Option<string> {
    var k := ElementRun(chain);
    if k == 0 then None else Some("/" + Join(RootFirst(chain[..k]), "/"))
  }

  /**
   * The inner loop of `getElementXPath`: walk `previousSibling` links from the nearest sibling
   * back, skipping document-type nodes and counting those with the node's name.
   */
  method CountPreviousSameName(node: Node, siblings: seq<Node>) returns (index: nat)
    ensures index == SameNameBefore(siblings, NodeName(node))
  {
    index := 0;
    var j := |siblings|;
    assert siblings[..j] == siblings;
    while j > 0
      invariant 0 <= j <= |siblings|
      invariant index + SameNameBefore(siblings[..j], NodeName(node)) == SameNameBefore(siblings, NodeName(node))
    {
      j := j - 1;
      var sibling := siblings[j];
      SameNameBeforeStep(siblings, j, NodeName(node));
      if sibling.DocumentType? {
        continue;
      }
      if NodeName(sibling) == NodeName(node) {
        index := index + 1;
      }
    }
    assert siblings[..0] == [];
  }

  /** `getElementXPath(node)`: walk `parentNode` links while on an element, prepending segments. */
  method GetElementXPath(chain: seq<Level>) returns (r: Option<string>)
    ensures r == ElementXPath(chain)
  {
    var paths: seq<string> := [];
    var i := 0;
    while i < |chain| && chain[i].node.Element?
      invariant 0 <= i <= ElementRun(chain)
      invariant paths == RootFirst(chain[..i])
    {
      var node := chain[i].node;
      var index := CountPreviousSameName(node, chain[i].previousSiblings);
      var tagName := Lower(NodeName(node));
      RootFirstStep(chain, i);
      paths := [KeySegment(tagName, index + 1)] + paths;
      i := i + 1;
    }
    assert i == ElementRun(chain);
    assert |paths| == i;
    if |paths| > 0 {
      r := Some("/" + Join(paths, "/"));
    } else {
      r := None;
    }
  }

  /** The walk yields a path exactly when it starts at an element. */
  lemma ElementXPathDefinedIffElement(chain: seq<Level>)
    ensures ElementXPath(chain).Some? <==> (|chain| > 0 && chain[0].node.Element?)
  {
  }

  /** A walk that starts at an element: its own segment comes after those of the levels above. */
  lemma ElementXPathUnfold(chain: seq<Level>)
    requires |chain| > 0 && chain[0].node.Element?
    ensures ElementXPath(chain) == Some("/" + Join(RootFirst(chain[1..][..ElementRun(chain[1..])]) + [Segment(chain[0])], "/"))
  {
    var k := ElementRun(chain);
    assert chain[..k][0] == chain[0];
    assert chain[..k][1..] == chain[1..][..k - 1];
  }

  /** An element's path is its parent element's path, "/", and its own segment. */
  lemma ElementXPathExtendsParent(chain: seq<Level>)
    requires |chain| >= 2 && chain[0].node.Element? && chain[1].node.Element?
    ensures ElementXPath(chain) == Some(ElementXPath(chain[1..]).value + "/" + Segment(chain[0]))
  {
    var parents := RootFirst(chain[1..][..ElementRun(chain[1..])]);
    var own := Segment(chain[0]);
    ElementXPathUnfold(chain);
    assert ElementXPath(chain[1..]) == Some("/" + Join(parents, "/"));
    JoinSnoc(parents, own, "/");
    assert "/" + (Join(parents, "/") + "/" + own) == ("/" + Join(parents, "/")) + "/" + own;
  }

  /** A chain level whose node is child `i` of the next level's node. */
  predicate IsChildLevel(l: Level, parent: Node, i: nat) {
    HasChildrenCollection(parent) && i < |parent.childNodes|
    && l.node == parent.childNodes[i] && l.previousSiblings == parent.childNodes[..i]
  }

  /** An element name that is not one of the fixed node names and not the text-node rename. */
  predicate PlainElementName(name: string) {
    |name| > 0 && name[0] != '#' && name != "textnode"
  }

  lemma {:induction false} CountsAgree(parent: Node, i: nat, name: string)
    requires HasChildrenCollection(parent) && i <= |parent.childNodes|
    requires PlainElementName(name)
    ensures CountBefore(parent, i, name) == SameNameBefore(parent.childNodes[..i], name)
    decreases i
  {
    if i > 0 {
      CountsAgree(parent, i - 1, name);
      assert parent.childNodes[..i][..i - 1] == parent.childNodes[..i - 1];
      var c := parent.childNodes[i - 1];
      assert "#text"[0] == '#' && "#comment"[0] == '#' && "#document"[0] == '#';
    }
  }

  /**
   * The two numberings agree: for an element child whose name is plain, the segment
   * `getElementXPath` computes is the last segment of the key `mapElement` stores it under.
   */
  lemma SegmentAgreesWithChildKey(l: Level, parentPath: string, parent: Node, i: nat)
    requires IsChildLevel(l, parent, i) && l.node.Element? && PlainElementName(l.node.name)
    ensures ChildKey(parentPath, parent, i) == parentPath + "/" + Segment(l)
  {
    CountsAgree(parent, i, l.node.name);
  }

  /**
   * The two numberings disagree for an element named `textnode` after a visited text node:
   * `mapElement` counts the renamed text node under the same tag, `getElementXPath` compares
   * against its node name "#text". In `<p>hi<textnode/></p>` the key ends in `textnode[2]` and
   * the segment is `textnode[1]`.
   */
  lemma TextnodeElementNumberingsDisagree(parentPath: string, parentName: string, text: Node)
    requires IsNonEmptyTextNode(text)
    ensures var named := Element("textnode", []);
      var parent := Element(parentName, [text, named]);
      ChildKey(parentPath, parent, 1) == parentPath + "/" + KeySegment("textnode", 2)
      && Segment(Level(named, [text])) == KeySegment("textnode", 1)
      && ChildKey(parentPath, parent, 1) != parentPath + "/" + Segment(Level(named, [text]))
  {
    var named := Element("textnode", []);
    var parent := Element(parentName, [text, named]);
    TextnodeIsLowerCase();
    KeyAfterVisibleText(parentPath, parent);
    SegmentAfterText(named, text);
    KeySegmentIndexMatters("textnode", 2, 1);
    PrefixedDiffer(parentPath + "/", KeySegment("textnode", 2), KeySegment("textnode", 1));
  }

  /** An element whose tag a visible text node before it shares is numbered 2. */
  lemma KeyAfterVisibleText(parentPath: string, parent: Node)
    requires HasChildrenCollection(parent) && |parent.childNodes| == 2
    requires IsNonEmptyTextNode(parent.childNodes[0]) && parent.childNodes[1].Element?
    requires TagOf(parent.childNodes[1]) == TagOf(parent.childNodes[0])
    ensures ChildKey(parentPath, parent, 1) ==
      parentPath + "/" + KeySegment(Lower(TagOf(parent.childNodes[1])), 2)
  {
    assert ContainsOtherElements(parent) by {
      assert parent.childNodes[1] in parent.childNodes;
    }
    assert Included(parent.childNodes[0], parent);
    assert CountBefore(parent, 1, TagOf(parent.childNodes[1])) == 1;
  }

  /** An element after a text node only is numbered 1 by `getElementXPath`. */
  lemma SegmentAfterText(named: Node, text: Node)
    requires named.Element? && named.name != "#text" && text.Text?
    ensures Segment(Level(named, [text])) == KeySegment(Lower(named.name), 1)
  {
    assert SameNameBefore([text], named.name) == SameNameBefore([], named.name);
  }

  /** The text of `<p>hi<textnode/></p>` is visible, so the disagreement above applies to it. */
  lemma VisibleText()
    ensures IsNonEmptyTextNode(Text(Some("hi")))
  {
    NonEmptyTextNodeHasVisibleCharacter(Text(Some("hi")));
    assert !IsJsWhitespace("hi"[0]);
  }

  lemma TextnodeIsLowerCase()
    ensures Lower("textnode") == "textnode"
  {
    forall c | c in "textnode" ensures !('A' <= c <= 'Z') {}
    LowerUnchanged("textnode");
  }

  /** Segments of one tag with different indices differ. */
  lemma KeySegmentIndexMatters(tag: string, m: nat, n: nat)
    requires m != n
    ensures KeySegment(tag, m) != KeySegment(tag, n)
  {
    if KeySegment(tag, m) == KeySegment(tag, n) {
      KeySegmentInjective(tag, m, tag, n);
    }
  }

  lemma PrefixedDiffer(prefix: string, x: string, y: string)
    requires x != y
    ensures prefix + x != prefix + y
  {
    assert (prefix + x)[|prefix|..] == x && (prefix + y)[|prefix|..] == y;
  }

  // ---------------------------------------------------------------------------------------
  // The script
  // ---------------------------------------------------------------------------------------

  /** The first `html` element in document order, as `getElementsByTagName("html")[0]`. */
  function FindHtml(n: Node): Option<Node>
    decreases n, 1
  {
    if n.Element? && Lower(n.name) == "html" then Some(n)
    else if HasChildrenCollection(n) then FindHtmlAmong(n, 0)
    else None
  }

  function FindHtmlAmong(parent: Node, i: nat): Option<Node>
    requires HasChildrenCollection(parent) && i <= |parent.childNodes|
    decreases parent, 0, |parent.childNodes| - i
  {
    if i == |parent.childNodes| then None
    else match FindHtml(parent.childNodes[i])
      case Some(h) => Some(h)
      case None => FindHtmlAmong(parent, i + 1)
  }

  /** A runtime failure of the script: `transform` reads `tagName` of a non-element. */
  datatype ScriptError = TypeError

  /** The root node and its key: the `html` element under "//html[1]", or the given node. */
  function RootSelection(document: Node, rootArgument: Option<seq<Level>>): (Option<Node>, string)
    requires rootArgument.Some? ==> |rootArgument.value| > 0
  {
    match rootArgument
    case None => (FindHtml(document), "//html[1]")
    case Some(chain) =>
      (Some(chain[0].node), match ElementXPath(chain) case None => "null" case Some(p) => p)
  }

  /** The object the script returns, or the error it dies with. */
  function AllElementsByPath(document: Node, rootArgument: Option<seq<Level>>): Result<Table, ScriptError>
    requires rootArgument.Some? ==> |rootArgument.value| > 0
  {
    var (rootNode, rootPath) := RootSelection(document, rootArgument);
    if rootNode.None? || !rootNode.value.Element? then Failure(TypeError)
    else Success(StoreAll(Store(Table(map[], []), rootPath, Transform(rootNode.value)), Visit(rootNode.value, rootPath)))
  }

  /**
   * The script body: pick the root, store it under its key, then map everything below it.
   * `rootArgument` is the optional second argument, given as the chain of its ancestors.
   */
  method GetAllElementsByPath(document: Node, rootArgument: Option<seq<Level>>) returns (r: Result<Table, ScriptError>)
    requires rootArgument.Some? ==> |rootArgument.value| > 0
    ensures r == AllElementsByPath(document, rootArgument)
  {
    var rootNode := FindHtml(document);
    var rootPath := "//html[1]";
    if rootArgument.Some? {
      rootNode := Some(rootArgument.value[0].node);
      var p := GetElementXPath(rootArgument.value);
      rootPath := if p.None? then "null" else p.value;
    }
    if rootNode.None? || !rootNode.value.Element? {
      return Failure(TypeError);
    }
    var root := Transform(rootNode.value);
    var allElements := new ElementMap();
    allElements.Put(rootPath, root);
    MapElement(rootNode.value, rootPath, allElements);
    r := Success(allElements.Contents());
  }

  /** The script fails exactly when there is no root element. */
  lemma FailsIffNoRootElement(document: Node, rootArgument: Option<seq<Level>>)
    requires rootArgument.Some? ==> |rootArgument.value| > 0
    ensures AllElementsByPath(document, rootArgument).Failure? <==>
      (if rootArgument.Some? then !rootArgument.value[0].node.Element?
       else FindHtml(document).None? || !FindHtml(document).value.Element?)
  {
  }

  /**
   * On success the root is stored first and keeps its entry, every other key extends the root
   * key by "/", and each key is listed once in insertion order.
   */
  lemma RootFirstAndEverythingBelowIt(document: Node, rootArgument: Option<seq<Level>>)
    requires rootArgument.Some? ==> |rootArgument.value| > 0
    requires AllElementsByPath(document, rootArgument).Success?
    ensures var (rootNode, rootPath) := RootSelection(document, rootArgument);
      var t := AllElementsByPath(document, rootArgument).value;
      Valid(t) && |t.order| > 0 && t.order[0] == rootPath
      && rootPath in t.entries && t.entries[rootPath] == Transform(rootNode.value)
      && forall k :: k in t.entries && k != rootPath ==> StartsWith(k, rootPath + "/")
  {
    var (rootNode, rootPath) := RootSelection(document, rootArgument);
    var t0 := Store(Table(map[], []), rootPath, Transform(rootNode.value));
    var assigns := Visit(rootNode.value, rootPath);
    VisitKeysExtend(rootNode.value, rootPath);
    forall a | a in assigns ensures a.key != rootPath {
      assert |a.key| > |rootPath|;
    }
    StoreAllKeepsValid(t0, assigns);
    StoreAllKeepsUntouched(t0, assigns, rootPath);
    forall k | k in StoreAll(t0, assigns).entries && k != rootPath
      ensures StartsWith(k, rootPath + "/")
    {
      StoreAllKeys(t0, assigns, k);
    }
  }

  /** Without a root argument the root key is "//html[1]"; with one, the root's own path. */
  lemma RootKeyChoice(document: Node, rootArgument: Option<seq<Level>>)
    requires rootArgument.Some? ==> |rootArgument.value| > 0
    ensures rootArgument.None? ==> RootSelection(document, rootArgument).1 == "//html[1]"
    ensures rootArgument.Some? && rootArgument.value[0].node.Element? ==>
      RootSelection(document, rootArgument).1 == ElementXPath(rootArgument.value).value
  {
  }

  // ---------------------------------------------------------------------------------------
  // isDisabled
  // ---------------------------------------------------------------------------------------

  /** A JavaScript value as read from `node.disabled`. */
  datatype JsValue = Undefined | Null | Bool(b: bool) | Number(n: real) | Str(s: string) | Object

  /** JavaScript truthiness (`NaN` is not representable here). */
  predicate Truthy(v: JsValue) {
    match v
    case Undefined => false
    case Null => false
    case Bool(b) => b
    case Number(n) => n != 0.0
    case Str(s) => |s| > 0
    case Object => true
  }

  /** `isDisabled`: its four branches amount to the truthiness of `node.disabled`. */
  function IsDisabled(disabled: JsValue): (r: bool)
    ensures r <==> Truthy(disabled)
  {
    if !Truthy(disabled) then false
    else if disabled == Str("") then false
    else if disabled == Str("disabled") then true
    else Truthy(disabled)
  }
}
