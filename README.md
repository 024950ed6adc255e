# recheck-web: test healing, path numbering and attribute configuration

This project models three parts of recheck-web, the Selenium extension of the recheck
Golden Master testing tool, and proves properties of each.

- **Test healing** (`TestHealer`, file `test_healer.dfy`). A Selenium `By` lookup can fail
  because the page changed. The healer then searches the last expected (Golden Master) state
  for the element the locator meant. It maps that element to the last actual state, hands a
  `QualifiedElementWarning` to the driver's warning consumer, and redirects the lookup to the
  element's recorded path.
  - `#id` and bare-tag CSS selectors are re-issued as `By.id` and `By.tagName`.
  - Other CSS selectors must be a simple `.class` selector.
  - An XPath expression is refused only when it contains one of `< > : + " | ' @ *` or white
    space. Every other expression is searched by the XPath rule, which lower-cases both the
    expression and the recorded path. For `//expr`, the lower-cased expression without its
    first `/` must occur in the lower-cased path. For any other expression, the lower-cased
    expression without its first character must start the lower-cased path. So `div[1]` is
    accepted and searched as the prefix `iv[1]`. As written, the empty expression throws
    `StringIndexOutOfBoundsException` once an element is tested (see "## Findings").
  - Anything else is refused with the source's exceptions and messages.
  - The lookup of an expected element and its actual counterpart is done by
    `de.retest.web.selenium.By`, whose code is not part of this model. `snapshot.dfy` states
    the behaviour assumed of it: first match in recorded order, an attribute matched through
    either the identifying or the descriptive attributes, and correspondence by retestId.
- **Path numbering** (`ElementsByPath`, file `elements_by_path.dfy`). This is the in-page
  script that snapshots the DOM. It gives every element, and every non-blank text node
  beside elements, a key `parent/tag[n]`. Here `n` is one more than the number of earlier
  visited siblings with that tag, that is, the child's 1-based position among them. It stores the entries in pre-order under those keys. Its `getElementXPath` computes
  the key of a given root node from its ancestors.
  - The script's `Counter`, its result object and the recursive `mapElement` are modelled as
    classes and methods, each proved against a pure specification of the traversal.
  - Keys of distinct siblings differ, unless two tag names differ only in case: the counter
    is keyed by the raw tag name, the key by the lower-cased one.
  - Every key extends the root key.
  - For element names other than `textnode` (and not starting with `#`), the segment
    `getElementXPath` computes for a node agrees with the key `mapElement` gives it. An element
    named `textnode` after a visible text node is numbered differently by the two: in
    `<p>hi<textnode/></p>` its key ends in `textnode[2]` and its segment is `textnode[1]`.
- **Attribute configuration** (`AttributesConfig`, `AttributesConfigDeserializer`). The
  `htmlAttributes` entry of the YAML configuration is read from a parsed node tree:
  - the text `all` selects all attributes;
  - any other text is an error;
  - null selects none;
  - a list or mapping selects the texts of its items.

`wrappers.dfy` holds `Option` and `Result`. `strings.dfy` holds the Java and JavaScript string
operations the sources call: `contains`, `startsWith`, `toLowerCase`, number rendering and
`join`.

## Model

| member | source | states |
|---|---|---|
| Strings.ContainsIffOccurs | src/main/java/de/retest/web/selenium/TestHealer.java:93 | `contains` holds exactly when the fragment occurs at some index |
| Strings.Lower | src/main/java/de/retest/web/selenium/TestHealer.java:229-230 | lower-casing keeps the length and lower-cases each character in place |
| Strings.NatToString | src/main/resources/javascript/getAllElementsByPath.js:180 | a count renders as a non-empty string of decimal digits |
| Strings.ParseNatToString | src/main/resources/javascript/getAllElementsByPath.js:180 | the rendered count reads back as the same number |
| Strings.NatToStringInjective | src/main/resources/javascript/getAllElementsByPath.js:180 | different counts render differently |
| Strings.JoinSnoc | src/main/resources/javascript/getAllElementsByPath.js:164 | joining one more part appends the separator and that part |
| Strings.StartsWithTransitive | src/main/resources/javascript/getAllElementsByPath.js:180 | a key that extends a key extending a path extends that path |
| Snapshot.FirstMatch | src/main/java/de/retest/web/selenium/TestHealer.java:144-147 | the found index satisfies the criterion and no earlier element does; none means none does |
| Snapshot.Satisfies | src/main/java/de/retest/web/selenium/TestHealer.java:96-147 | what an element is searched for: an attribute equal to or containing a value, looked up in the identifying or the descriptive attributes; a lower-cased path containing or starting with a fragment; the link-text rule |
| Snapshot.FirstWithRetestId | src/main/java/de/retest/web/selenium/TestHealer.java:98-99 | the found index is the first with the retestId; no element has it when none is found |
| Snapshot.Locate | src/main/java/de/retest/web/selenium/TestHealer.java:98-99 | a found element is the first actual element sharing its retestId with the first expected match, so it is in the actual state; nothing is found exactly when there is no match or no counterpart |
| Warnings.WarningConsumer.Accept | src/main/java/de/retest/web/selenium/TestHealer.java:268-271 | the consumer records the warning after those already accepted |
| TestHealer.ComplexSelectorContainsSpaceOrBracket | src/main/java/de/retest/web/selenium/TestHealer.java:92-94 | a selector is complex exactly when `contains(" ")` or `contains("[")` holds of it |
| TestHealer.IsRejectedClassSelector | src/main/java/de/retest/web/selenium/TestHealer.java:187 | the intended class-selector check; it agrees with the Java pattern on every selector without line terminators |
| TestHealer.IsNotYetSupportedXPathExpression | src/main/java/de/retest/web/selenium/TestHealer.java:193-197 | the intended XPath check; it agrees with the Java pattern on every expression without line terminators |
| TestHealer.IsNotYetSupportedCssSelector | src/main/java/de/retest/web/selenium/TestHealer.java:72-81 | a CSS selector is not yet supported exactly when it is complex, or is a `.` selector whose class part is refused |
| TestHealer.RegexMatchesWithoutLineTerminators | src/main/java/de/retest/web/selenium/TestHealer.java:187 | without line terminators the rejection pattern holds exactly when a rejected character occurs |
| TestHealer.IsRejectedClassSelectorAsWritten | src/main/java/de/retest/web/selenium/TestHealer.java:187 | the Java class-selector pattern as written; when it matches, the selector holds a rejected character |
| TestHealer.IsNotYetSupportedXPathExpressionAsWritten | src/main/java/de/retest/web/selenium/TestHealer.java:195 | the Java XPath pattern as written; when it matches, the expression holds a rejected character |
| TestHealer.RegexMatchesExactly | src/main/java/de/retest/web/selenium/TestHealer.java:187 | the `.*[…].*` pattern matches exactly when some position holds a listed character and no other position holds a line terminator (`\n`, `\r`, U+0085, U+2028 or U+2029) |
| TestHealer.LineBreaksHideRejectedCharacter | src/main/java/de/retest/web/selenium/TestHealer.java:195 | the selector `a\r\n[b` and the expression `//a\r\n@b` each hold a rejected character, yet neither matches its pattern |
| TestHealer.RetrieveUsableCssSelectorAsWritten | src/main/java/de/retest/web/selenium/TestHealer.java:175-191 | the class-selector check as written: succeeds exactly for `.` selectors the Java pattern does not match, returning the selector without its dot |
| TestHealer.RetrieveUsableCssSelector | src/main/java/de/retest/web/selenium/TestHealer.java:175-191 | succeeds exactly for `.` selectors with no rejected character; the result is the selector minus the dot and has no space or `[`; every failure is an IllegalArgumentException |
| TestHealer.ClassSelectorCheckMissesLineBreaks | src/main/java/de/retest/web/selenium/TestHealer.java:187 | the complex selector ".a\r\n[b" passes the check as written and is refused as intended |
| TestHealer.Heal | src/main/java/de/retest/web/selenium/TestHealer.java:96-108 | a lookup never throws; it heals exactly when the first expected element meeting the criterion has an actual counterpart, and then yields that counterpart with the given attribute kind |
| TestHealer.FindMatchingElementAsWritten | src/main/java/de/retest/web/selenium/TestHealer.java:226-235 | the XPath match as written throws exactly for the empty expression on a non-empty expected state; on other expressions it heals exactly when the XPath rule finds an element |
| TestHealer.FindMatchingElement | src/main/java/de/retest/web/selenium/TestHealer.java:226-235 | the XPath match never throws and agrees with the code as written on every non-empty expression; a heal yields the actual counterpart of the first expected element whose path meets the XPath rule, under the kind "xpath" |
| TestHealer.XPathRule | src/main/java/de/retest/web/selenium/TestHealer.java:193-235 | a supported non-empty expression heals by the XPath rule: "//expr" needs the lower-cased expression minus its first character inside the lower-cased path, any other expression needs it as a prefix |
| TestHealer.EmptyXPathThrowsAsWritten | src/main/java/de/retest/web/selenium/TestHealer.java:232-234 | an empty expression throws StringIndexOutOfBounds as written and finds nothing as intended |
| TestHealer.Resolve | src/main/java/de/retest/web/selenium/TestHealer.java:59-90 | every failure is an IllegalArgumentException or an UnsupportedOperationException; a healed element is in the actual state |
| TestHealer.ResultOf | src/main/java/de/retest/web/selenium/TestHealer.java:101-107 | the driver is redirected exactly on a heal, to the healed element's path; it sees an exception exactly on a failure |
| TestHealer.FailsExactlyForUnsupportedLocators | src/main/java/de/retest/web/selenium/TestHealer.java:59-90 | healing throws exactly for unsupported locators: UnsupportedOperation for an unknown kind, IllegalArgument for refused syntax |
| TestHealer.CssIdSelectorIsById | src/main/java/de/retest/web/selenium/TestHealer.java:74-76 | a simple `#x` selector heals exactly as `By.id(x)` |
| TestHealer.CssTagSelectorIsByTagName | src/main/java/de/retest/web/selenium/TestHealer.java:77-79 | a simple selector without `#` or `.` heals exactly as `By.tagName` |
| TestHealer.CssClassSelectorIsByClassName | src/main/java/de/retest/web/selenium/TestHealer.java:159-173 | a `.x` selector whose class part is accepted heals exactly as `By.className(x)`: by substring of the class attribute |
| TestHealer.ComplexCssSelectorRejected | src/main/java/de/retest/web/selenium/TestHealer.java:175-189 | a selector with a space or `[` is always refused, with the message chosen by its first character |
| TestHealer.NotYetSupportedCssSelectorIsRefused | src/test/java/de/retest/web/selenium/TestHealerTest.java:128-139 | a CSS selector is classified as not yet supported exactly when healing refuses it |
| TestHealer.NotYetSupportedXPathIsRefused | src/main/java/de/retest/web/selenium/TestHealer.java:193-197 | an XPath expression is classified as not yet supported exactly when healing refuses it |
| TestHealer.EmptyExpectedStateHealsNothing | src/test/java/de/retest/web/selenium/TestHealerTest.java:111-125 | every supported locator finds nothing in an empty expected state and throws nothing |
| TestHealer.EmptySelectorsNeverThrow | src/test/java/de/retest/web/selenium/TestHealerTest.java:111-125 | the empty selector of every supported kind never throws, whatever the states |
| TestHealer.HealedElementIsInActualState | src/main/java/de/retest/web/selenium/TestHealer.java:96-108 | a healed element is in the actual state and shares its retestId with an expected element |
| TestHealer.CssSelectorRedirectExamples | src/test/java/de/retest/web/selenium/TestHealerTest.java:26-64 | `#special-button` heals by id and `div` by tag, as the tests expect |
| TestHealer.XPathExamples | src/test/java/de/retest/web/selenium/TestHealerTest.java:140-159 | on an element recorded at "HTML[1]/DIV[2]", "//div[2]" and "/html[1]/div[2]" heal with it and "//div[1]" finds nothing |
| TestHealer.ClassSelectorExamples | src/test/java/de/retest/web/selenium/TestHealerTest.java:86-108 | on an element with the class "pure-button", ".pure-button" heals with it and ".special-class" finds nothing |
| TestHealer.NotYetSupportedExamples | src/test/java/de/retest/web/selenium/TestHealerTest.java:128-164 | the six CSS selectors and the two XPath expressions the tests expect to be refused are refused |
| TestHealer.ClassNameMatchesRawSubstring | src/main/java/de/retest/web/selenium/TestHealer.java:111-114 | the class rule is substring containment: "btn" heals on the class list "btnx" |
| TestHealer.LinkTextExamples | src/main/java/de/retest/web/selenium/TestHealer.java:141-147 | the descriptive text matches on any tag; the identifying text only on an `a` element |
| TestHealer.IdentificationWarning | src/main/java/de/retest/web/selenium/TestHealer.java:244-256 | the warning carries the call site's file and line, or "" and -1 when it cannot be found |
| TestHealer.WarningsFor | src/main/java/de/retest/web/selenium/TestHealer.java:268-271 | a lookup yields exactly one warning when it heals, naming the healed element, the attribute kind and the identification warning of the call site, and none otherwise |
| TestHealer.TestHealer.constructor | src/main/java/de/retest/web/selenium/TestHealer.java:45-53 | the healer captures the driver's expected state, actual state and consumer |
| TestHealer.TestHealer.WriteWarnLogForChangedIdentifier | src/main/java/de/retest/web/selenium/TestHealer.java:237-272 | a present consumer receives exactly one warning, with the element, the label and the call site |
| TestHealer.TestHealer.FindElement | src/main/java/de/retest/web/selenium/TestHealer.java:59-90 | the result is the redirect, null or exception of the dispatch; the consumer gains exactly the warnings of that lookup |
| TestHealer.FindElement | src/main/java/de/retest/web/selenium/TestHealer.java:45-57 | without an expected state the call throws IllegalState and reports nothing; otherwise it heals with the captured states |
| ElementsByPath.TrimEmptyIffBlank | src/main/resources/javascript/getAllElementsByPath.js:137-140 | `trim()` gives the empty string exactly when every character is white space |
| ElementsByPath.NonEmptyTextNodeHasVisibleCharacter | src/main/resources/javascript/getAllElementsByPath.js:137-140 | a node is a non-empty text node exactly when it is a text node with a non-white-space character |
| ElementsByPath.ElementChildrenFilters | src/main/resources/javascript/getAllElementsByPath.js:142-144 | a node's `children` are exactly the element nodes among its child nodes |
| ElementsByPath.ContainsOtherElementsIffChildren | src/main/resources/javascript/getAllElementsByPath.js:142-144 | a node contains other elements exactly when its `children` collection is non-empty |
| ElementsByPath.Included | src/main/resources/javascript/getAllElementsByPath.js:174-175 | which children the traversal visits: elements, and non-blank text nodes whose parent has element children |
| ElementsByPath.TagOf | src/main/resources/javascript/getAllElementsByPath.js:176-179 | the tag name a visited child is keyed by; a text node is renamed "textnode" |
| ElementsByPath.KeySegmentInjective | src/main/resources/javascript/getAllElementsByPath.js:180 | two segments `tag[n]` are equal only when tags and numbers are, whatever characters the tags hold |
| ElementsByPath.CountBeforeMonotone | src/main/resources/javascript/getAllElementsByPath.js:171-179 | a tag's count over the children never decreases as more children are counted |
| ElementsByPath.SiblingKeysDistinct | src/main/resources/javascript/getAllElementsByPath.js:171-180 | distinct visited siblings get distinct keys, given tags that agree when their lower-cased forms do |
| ElementsByPath.CaseVariantSiblingsShareKey | src/main/resources/javascript/getAllElementsByPath.js:179-180 | sibling elements `A` and `a` both get the key `/p/a[1]` |
| ElementsByPath.StorePreservesValid | src/main/resources/javascript/getAllElementsByPath.js:181 | storing an entry keeps each key listed once, in insertion order |
| ElementsByPath.StoreAllAppend | src/main/resources/javascript/getAllElementsByPath.js:181-182 | storing two runs of entries is storing their concatenation |
| ElementsByPath.StoreAllKeepsValid | src/main/resources/javascript/getAllElementsByPath.js:181 | storing keeps each key listed once and keeps the earlier order as a prefix |
| ElementsByPath.StoreAllKeepsUntouched | src/main/resources/javascript/getAllElementsByPath.js:181 | a key no assignment names keeps its entry |
| ElementsByPath.StoreAllKeys | src/main/resources/javascript/getAllElementsByPath.js:181 | after storing, the keys are the old ones plus the stored ones |
| ElementsByPath.ContentsStep | src/main/resources/javascript/getAllElementsByPath.js:179-182 | storing one visited child under its key and then its subtree extends the table by exactly that child's part of the traversal |
| ElementsByPath.ElementMap.Put | src/main/resources/javascript/getAllElementsByPath.js:181 | the result object gets the entry; a new key goes last in the order |
| ElementsByPath.Counter.Increase | src/main/resources/javascript/getAllElementsByPath.js:10-18 | returns 1 for a new tag name and one more than before otherwise; other tags' counts are unchanged |
| ElementsByPath.CounterStep | src/main/resources/javascript/getAllElementsByPath.js:171-179 | after counting a visited child, its number is its 1-based position among the visited siblings with its tag |
| ElementsByPath.Visit | src/main/resources/javascript/getAllElementsByPath.js:167-186 | the entries `mapElement` stores, in order: each visited child under its key, followed by its subtree |
| ElementsByPath.MapElement | src/main/resources/javascript/getAllElementsByPath.js:167-186 | the result object is the old one with every visited descendant stored in pre-order under its key; a node without `children` leaves it unchanged |
| ElementsByPath.MapChild | src/main/resources/javascript/getAllElementsByPath.js:173-182 | one pass of the loop for a visited child: the counter moves past it and the table gains the child and its subtree, under the child's key |
| ElementsByPath.VisitKeysExtend | src/main/resources/javascript/getAllElementsByPath.js:180-182 | every key stored below a path extends that path and "/" |
| ElementsByPath.VisitChildrenKeysExtend | src/main/resources/javascript/getAllElementsByPath.js:172-184 | the same for the keys stored for the first n children |
| ElementsByPath.ElementRun | src/main/resources/javascript/getAllElementsByPath.js:148 | the walk up stops at the first ancestor that is not an element |
| ElementsByPath.RootFirst | src/main/resources/javascript/getAllElementsByPath.js:161 | one segment per level walked |
| ElementsByPath.RootFirstSnoc | src/main/resources/javascript/getAllElementsByPath.js:161 | walking one level further puts its segment in front |
| ElementsByPath.RootFirstStep | src/main/resources/javascript/getAllElementsByPath.js:159-161 | each pass of the outer loop puts the level's segment in front of those already collected |
| ElementsByPath.SameNameBeforeStep | src/main/resources/javascript/getAllElementsByPath.js:150-158 | one more sibling adds one exactly when it is not a document type and has the node's name |
| ElementsByPath.CountPreviousSameName | src/main/resources/javascript/getAllElementsByPath.js:150-158 | the index counts the preceding siblings with the node's name, document types skipped |
| ElementsByPath.ElementXPath | src/main/resources/javascript/getAllElementsByPath.js:146-165 | what `getElementXPath` returns: "/" and the segments of the element run from the outermost element down, or null |
| ElementsByPath.GetElementXPath | src/main/resources/javascript/getAllElementsByPath.js:146-165 | the result is "/" and the segments from the outermost element down, joined by "/", or null when the node is not an element |
| ElementsByPath.ElementXPathDefinedIffElement | src/main/resources/javascript/getAllElementsByPath.js:164 | a path is returned exactly when the start node is an element |
| ElementsByPath.ElementXPathExtendsParent | src/main/resources/javascript/getAllElementsByPath.js:159-164 | an element's path is its parent element's path, "/" and its own segment |
| ElementsByPath.CountsAgree | src/main/resources/javascript/getAllElementsByPath.js:150-158 | for a plain element name, the traversal's count before a child equals the walk's count of same-named preceding siblings |
| ElementsByPath.SegmentAgreesWithChildKey | src/main/resources/javascript/getAllElementsByPath.js:150-180 | for an element whose name is not `textnode` and does not start with `#`, the segment the walk gives it is the last segment of the key the traversal stores it under |
| ElementsByPath.TextnodeElementNumberingsDisagree | src/main/resources/javascript/getAllElementsByPath.js:155-180 | an element named `textnode` after a visible text node is keyed `textnode[2]` by the traversal but gets the segment `textnode[1]` from the walk, so the two differ |
| ElementsByPath.KeyAfterVisibleText | src/main/resources/javascript/getAllElementsByPath.js:174-180 | an element after a visible text node that is keyed under the same tag is numbered 2 |
| ElementsByPath.SegmentAfterText | src/main/resources/javascript/getAllElementsByPath.js:150-161 | an element preceded only by a text node is numbered 1 by the walk, whatever the text |
| ElementsByPath.AllElementsByPath | src/main/resources/javascript/getAllElementsByPath.js:188-198 | the script's result: the root's entry and then everything `mapElement` stores below it, or the TypeError of a missing or non-element root |
| ElementsByPath.GetAllElementsByPath | src/main/resources/javascript/getAllElementsByPath.js:188-198 | the script returns the table of the root and all it maps below it, or fails when the root is not an element |
| ElementsByPath.FailsIffNoRootElement | src/main/resources/javascript/getAllElementsByPath.js:188-194 | the script fails exactly when the chosen root is missing or not an element |
| ElementsByPath.RootFirstAndEverythingBelowIt | src/main/resources/javascript/getAllElementsByPath.js:194-197 | the root key is first and keeps the root's entry; every other key extends it; each key is listed once |
| ElementsByPath.RootKeyChoice | src/main/resources/javascript/getAllElementsByPath.js:188-193 | the root key is "//html[1]" by default and the root node's own path when one is given |
| ElementsByPath.IsDisabled | src/main/resources/javascript/getAllElementsByPath.js:66-77 | `isDisabled` is true exactly when `node.disabled` is truthy |
| AttributesConfig.GetHtmlAttributes | src/main/java/de/retest/web/YamlAttributesConfig.java:19-21 | the getter returns the set the configuration was built with |
| AttributesConfig.AllHtmlAttributes | src/main/java/de/retest/web/YamlAttributesConfig.java:26-28 | "all" is selected exactly when no explicit set is held |
| AttributesConfig.ExplicitSetIsNotAll | src/main/java/de/retest/web/YamlAttributesConfig.java:26-28 | an explicit set, even an empty one, is not "all"; the absent set is |
| AttributesConfigDeserializer.IsAll | src/main/java/de/retest/web/YamlAttributesConfigDeserializer.java:36-45 | true exactly for the text "all"; false exactly for non-text nodes; any other text fails with the message naming value and key |
| AttributesConfigDeserializer.ToSet | src/main/java/de/retest/web/YamlAttributesConfigDeserializer.java:47-54 | a list or mapping gives exactly the texts of its items; any other node gives the empty set |
| AttributesConfigDeserializer.ToHtmlAttributesSet | src/main/java/de/retest/web/YamlAttributesConfigDeserializer.java:29-34 | "all" gives null (all); other text fails; any other node gives its set |
| AttributesConfigDeserializer.Deserialize | src/main/java/de/retest/web/YamlAttributesConfigDeserializer.java:22-27 | a document without the `htmlAttributes` entry fails with a null dereference, and only such a document does |
| AttributesConfigDeserializer.AllSelectsAll | src/main/java/de/retest/web/YamlAttributesConfigDeserializer.java:30-32 | `htmlAttributes: all` selects all HTML attributes |
| AttributesConfigDeserializer.OtherTextRejected | src/main/java/de/retest/web/YamlAttributesConfigDeserializer.java:43-44 | any other text is refused with the message `'<value>' is an invalid value for 'htmlAttributes'.` |
| AttributesConfigDeserializer.NullSelectsNothing | src/main/java/de/retest/web/YamlAttributesConfigDeserializer.java:48-50 | an empty entry selects the empty set, which is not "all" |
| AttributesConfigDeserializer.SequenceSelectsItsTexts | src/main/java/de/retest/web/YamlAttributesConfigDeserializer.java:51-53 | a list selects exactly the texts of its items, duplicates collapsed |
| AttributesConfigDeserializer.ResultKinds | src/main/java/de/retest/web/YamlAttributesConfigDeserializer.java:29-45 | the result is "all" exactly for the text "all", and an error exactly for a missing entry or other text |
| AttributesConfigDeserializer.OtherKeysIgnored | src/main/java/de/retest/web/YamlAttributesConfigDeserializer.java:24-26 | adding or changing any entry other than `htmlAttributes` leaves the result unchanged |

## Left out

- Logging (`logger.warn`) in the healer is left out; it is output only.
- The live driver's `wrapped.findElement(By.xpath(path))` is modelled as a redirect to the
  path, because the driver is outside this model.
- `ByWhisperer` is not part of this model: a locator carries its string directly.
- `de.retest.web.selenium.By.findElement` and `findElementByAttribute` are not part of this
  model. Their behaviour is assumed as `snapshot.dfy` states it.
- The stack lookup of `TestCaseFinder` is a parameter: the call site, or none when the lookup
  throws.
- Snapshot.Locate: matches on the path's string rendering and on string-valued attributes
  only. Recorded values of other types are not modelled.
- In the DOM script, `transform`, `addCoordinates`, `getX`, `getY`,
  `getComputedStyleSafely`, `isShown` and `getText` are left out. They are live-DOM queries
  and floating-point scaling, so an entry is the node with its lower-cased tag name.
- The script's `child.tagName = "textnode"` writes into the live DOM. Here the DOM is an
  immutable value and the rename is the function `TagOf`.
- The root-node argument is given as its chain of ancestors, not as a live node.
  `getElementsByTagName("html")` is approximated as the first element, in document order,
  whose lower-cased name is "html".
- ElementsByPath.RootFirstAndEverythingBelowIt: proves that the root key comes first, that
  every other key extends it and that each key is listed once. Distinct siblings get
  distinct keys by ElementsByPath.SiblingKeysDistinct. Neither lemma proves that no two nodes
  anywhere in the tree get the same key.
- ElementsByPath.IsDisabled: `NaN` is not representable as a `real`, so its falsiness is
  not modelled.
- Strings.Lower: lower-cases the ASCII letters only. Java's and JavaScript's `toLowerCase`
  also map other letters.
- YAML parsing, file and classpath loading, and the system-property lookup are not part of
  this model (`YamlAttributesProvider`). The model starts from a parsed node.
- YamlAttributesConfigDeserializerTest expects errors for `cssAttributes` (lines 39-52). The
  deserializer shown reads only `htmlAttributes` and never raises them. The model follows the
  code.
- TestHealerTest calls `isNotYetSupportedCssSelector` and `isNotYetSupportedXPathExpression`,
  which TestHealer.java does not define. They are modelled as "the healer refuses it", and
  that equivalence is proved.
- TestHealer.XPathExamples: restates the XPath scenario of TestHealerTest (lines 141-159) on
  the shorter path "HTML[1]/DIV[2]", not on "HTML[1]/DIV[3]/DIV[3]/DIV[3]/DIV[2]".
- TestHealer.ClassSelectorExamples: the recorded class is "pure-button", not the class list
  "pure-button my-button menu-button" of TestHealerTest line 96.
- TestHealer.Resolve: dispatches through the intended checks (`IsRejectedClassSelector`,
  `IsNotYetSupportedXPathExpression`) and the intended `FindMatchingElement`. It therefore
  differs from TestHealer.java for selectors and expressions with line terminators and for
  `By.xpath("")` on a non-empty expected state. The code as written is modelled by the
  `AsWritten` members listed under Findings. The same holds for `TestHealer.FindElement` and
  `TestHealer.TestHealer.FindElement`, which call `Resolve`.
- ElementsByPath.SegmentAgreesWithChildKey: holds only for element names other than
  `textnode` that do not start with `#`. The traversal keys a visited text node under
  "textnode", while the walk compares it by its node name "#text". An element named `textnode`
  therefore gets different numbers from the two after a visible text node, as
  ElementsByPath.TextnodeElementNumberingsDisagree shows for `<p>hi<textnode/></p>`.
- Processing instructions are not a node kind of the model. In an XML or XHTML page, the
  node name of a processing instruction is its target. `getElementXPath` would count one as a
  same-named sibling of an element (getAllElementsByPath.js:155), while `mapElement` skips it.
  ElementsByPath.SegmentAgreesWithChildKey therefore says nothing about documents with a
  processing instruction named like a sibling element.
- ElementsByPath.Counter.Increase: JavaScript's `in` on the counter's `{}` object also sees
  the keys inherited from `Object.prototype`. An element named, say, `constructor` would then
  be counted from a function value. This is not modelled: the counter is a map that starts
  empty.

## Findings

| source | as written | input that shows it | evidently intended | confidence | as-written member | corrected member |
|---|---|---|---|---|---|---|
| src/main/java/de/retest/web/selenium/TestHealer.java:187 | the class-selector check uses `String.matches` with `.*` on both sides and no DOTALL flag, so `.` does not cross line terminators | `By.cssSelector(".a\r\n[b")` passes the check and is searched as the class "a\r\n[b" | any space, `[`, or other listed character refuses the selector | low (an unusual input); not executed | TestHealer.ClassSelectorCheckMissesLineBreaks | TestHealer.RetrieveUsableCssSelector |
| src/main/java/de/retest/web/selenium/TestHealer.java:195 | the XPath check has the same form, so a listed character is not seen whenever any other position holds a line terminator (`\n`, `\r`, U+0085, U+2028 or U+2029) | `By.xpath("//a\r\n@b")`, or `By.xpath("//a\u2028@b")`, is searched instead of refused | any listed character refuses the expression | low (an unusual input); not executed | TestHealer.LineBreaksHideRejectedCharacter | TestHealer.NotYetSupportedXPathIsRefused |
| src/main/java/de/retest/web/selenium/TestHealer.java:232-234 | `xpathExpression.substring(1)` runs inside the per-element test, so the empty expression throws once an element is tested | `By.xpath("")` with a non-empty expected state throws StringIndexOutOfBoundsException | the empty selector finds nothing, as TestHealerTest lines 111-124 expect for every empty selector | medium; not executed | TestHealer.EmptyXPathThrowsAsWritten | TestHealer.EmptySelectorsNeverThrow |
