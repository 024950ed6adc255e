/**
 * The self-healing fallback of src/main/java/de/retest/web/selenium/TestHealer.java.
 *
 * When a Selenium `By` lookup fails on the live page, the healer searches the last expected
 * (Golden Master) state for an element the locator would have meant, maps it to the last actual
 * state, reports a warning and redirects to that element's recorded path. The dispatch, the
 * selector classifiers and the match rules are pure and are modelled by `Resolve`; the class
 * `TestHealer` holds the captured state and performs the one side effect, handing the warning
 * to the consumer.
 */
module TestHealer {
  import opened Wrappers
  import opened Strings
  import opened Snapshot
  import opened Warnings

  const PATH := "path"
  const TEXT := "text"
  const NAME := "name"
  const CLASS := "class"
  const ID := "id"
  const TYPE := "type"

  const NoExpectedStateMessage := "No last expected state to find old element in!"
  const UseByIdMessage := "To search for element by ID, use `By.id()` instead of `#id` as CSS selector."
  const UseByTagNameMessage := "To search for element by tag, use `By.tagName()` instead of `tag` as CSS selector."
  const OnlySimpleSelectorMessage := "For now, only simple class selector is implemented."

  function NotYetImplementedMessage(simpleName: string): string {
    "Healing tests with " + simpleName + " not yet implemented"
  }

  /** A Selenium locator: the kind of `By` and the raw string it carries. */
  datatype Locator =
    | ById(id: string)
    | ByClassName(className: string)
    | ByName(name: string)
    | ByLinkText(linkText: string)
    | ByCssSelector(selector: string)
    | ByXPath(xpathExpression: string)
    | ByTagName(tagName: string)
      /** any other `By` subclass (`ByPartialLinkText`, ...), by its simple class name */
    | ByOther(simpleName: string)

  /** The exceptions the healer throws. */
  datatype Failure =
    | IllegalArgument(message: string)
    | UnsupportedOperation(message: string)
    | IllegalState(message: string)
    | StringIndexOutOfBounds

  /** The outcome of the search: the healed element and the label of its attribute kind. */
  datatype Lookup = Healed(element: Element, kindLabel: string) | NotHealed | Failed(failure: Failure)

  /** What `TestHealer.findElement` returns to the driver: a redirect, null, or an exception. */
  datatype FindResult = Redirect(xpath: string) | NotFound | Thrown(failure: Failure)

  // ---------------------------------------------------------------------------------------
  // Selector classification
  // ---------------------------------------------------------------------------------------

  /** `isComplexCssSelector`: a descendant combinator (space) or an attribute selector. */
  predicate IsComplexCssSelector(raw: string) {
    ' ' in raw || '[' in raw
  }

  /** The selector is complex exactly when `contains(" ")` or `contains("[")` holds of it. */
  lemma ComplexSelectorContainsSpaceOrBracket(raw: string)
    ensures IsComplexCssSelector(raw) <==> Contains(raw, " ") || Contains(raw, "[")
  {
    ContainsChar(raw, ' ');
    ContainsChar(raw, '[');
  }

  /** Java's `\s`: space, tab, line feed, vertical tab, form feed, carriage return. */
  predicate IsJavaWhitespace(c: char) {
    c == ' ' || c == '\t' || c == '\n' || c == '\U{B}' || c == '\U{C}' || c == '\r'
  }

  /** The characters Java's `.` does not match unless DOTALL is set. */
  predicate IsLineTerminator(c: char) {
    c == '\n' || c == '\r' || c == '\U{85}' || c == '\U{2028}' || c == '\U{2029}'
  }

  predicate NoLineTerminator(s: string) {
    forall i :: 0 <= i < |s| ==> !IsLineTerminator(s[i])
  }

  /** The two character classes of the source's rejection patterns. */
  datatype CharClass =
    | ClassSelectorChars  // `[<>:+\s"\[\*]`
    | XPathChars          // `[<>:+\s"|'@\*]`

  predicate InClass(cls: CharClass, c: char) {
    match cls
    case ClassSelectorChars => c in "<>:+\"[*" || IsJavaWhitespace(c)
    case XPathChars => c in "<>:+\"|'@*" || IsJavaWhitespace(c)
  }

  /** Some character of `s` is in the class. */
  predicate ContainsAnyOf(s: string, cls: CharClass) {
    exists c :: c in s && InClass(cls, c)
  }

  /**
   * `s.matches(".*[...].*")` as Java evaluates it: the whole string must match, so some
   * character is in the class and the `.*` on either side of it meets no line terminator.
   */
  predicate RegexMatches(s: string, cls: CharClass) {
    exists i :: 0 <= i < |s| && InClass(cls, s[i]) && NoLineTerminator(s[..i]) && NoLineTerminator(s[i + 1..])
  }

  /** On a string without line terminators the pattern means "contains a character of the class". */
  lemma RegexMatchesWithoutLineTerminators(s: string, cls: CharClass)
    requires NoLineTerminator(s)
    ensures RegexMatches(s, cls) <==> ContainsAnyOf(s, cls)
  {
    if ContainsAnyOf(s, cls) {
      var i :| 0 <= i < |s| && InClass(cls, s[i]);
      var before, after := s[..i], s[i + 1..];
      forall j | 0 <= j < |before| ensures !IsLineTerminator(before[j]) {
        assert before[j] == s[j];
      }
      forall j | 0 <= j < |after| ensures !IsLineTerminator(after[j]) {
        assert after[j] == s[i + 1 + j];
      }
    }
  }

  /**
   * Exactly when the pattern matches: some character is in the class and no other position
   * holds a line terminator. So a single `\n`, `\r`, U+0085, U+2028 or U+2029 anywhere else
   * in the string hides every listed character.
   */
  lemma RegexMatchesExactly(s: string, cls: CharClass)
    ensures RegexMatches(s, cls) <==>
      exists i :: 0 <= i < |s| && InClass(cls, s[i]) && forall j :: 0 <= j < |s| && j != i ==> !IsLineTerminator(s[j])
  {
    if RegexMatches(s, cls) {
      var i :| 0 <= i < |s| && InClass(cls, s[i]) && NoLineTerminator(s[..i]) && NoLineTerminator(s[i + 1..]);
      forall j | 0 <= j < |s| && j != i ensures !IsLineTerminator(s[j]) {
        if j < i {
          assert s[j] == s[..i][j];
        } else {
          assert s[j] == s[i + 1..][j - i - 1];
        }
      }
    }
    if exists i :: 0 <= i < |s| && InClass(cls, s[i]) && forall j :: 0 <= j < |s| && j != i ==> !IsLineTerminator(s[j]) {
      var i :| 0 <= i < |s| && InClass(cls, s[i]) && forall j :: 0 <= j < |s| && j != i ==> !IsLineTerminator(s[j]);
      var before, after := s[..i], s[i + 1..];
      forall j | 0 <= j < |before| ensures !IsLineTerminator(before[j]) {
        assert before[j] == s[j];
      }
      forall j | 0 <= j < |after| ensures !IsLineTerminator(after[j]) {
        assert after[j] == s[i + 1 + j];
      }
    }
  }

  /**
   * Two line terminators hide a rejected character from the pattern: the class part
   * "a\r\n[b" of the selector ".a\r\n[b" contains `\r`, `\n` and `[`, yet does not match.
   */
  lemma LineBreaksHideRejectedCharacter()
    ensures ContainsAnyOf("a\r\n[b", ClassSelectorChars)
    ensures !RegexMatches("a\r\n[b", ClassSelectorChars)
    ensures ContainsAnyOf("//a\r\n@b", XPathChars)
    ensures !RegexMatches("//a\r\n@b", XPathChars)
  {
    var s := "a\r\n[b";
    assert InClass(ClassSelectorChars, s[3]);
    forall i | 0 <= i < |s| && InClass(ClassSelectorChars, s[i])
      ensures !(NoLineTerminator(s[..i]) && NoLineTerminator(s[i + 1..]))
    {
      if i == 1 {
        assert IsLineTerminator(s[i + 1..][0]);
      } else {
        assert IsLineTerminator(s[..i][1]);
      }
    }
    var x := "//a\r\n@b";
    assert InClass(XPathChars, x[5]);
    forall i | 0 <= i < |x| && InClass(XPathChars, x[i])
      ensures !(NoLineTerminator(x[..i]) && NoLineTerminator(x[i + 1..]))
    {
      if i == 3 {
        assert IsLineTerminator(x[i + 1..][0]);
      } else {
        assert IsLineTerminator(x[..i][3]);
      }
    }
  }

  /**
   * The class-selector check of TestHealer.java:187 as written (Java regex semantics). It
   * refuses only selectors with a listed character, but not every such selector.
   */
  predicate IsRejectedClassSelectorAsWritten(selector: string): (r: bool)
    ensures r ==> ContainsAnyOf(selector, ClassSelectorChars)
  {
    RegexMatches(selector, ClassSelectorChars)
  }

  /**
   * The class-selector check of TestHealer.java:187 as evidently intended: any listed character rejects.
   * It differs from the check as written only on selectors with line terminators.
   */
  predicate IsRejectedClassSelector(selector: string): (r: bool)
    ensures NoLineTerminator(selector) ==> (r <==> IsRejectedClassSelectorAsWritten(selector))
  {
    assert NoLineTerminator(selector) ==>
      (ContainsAnyOf(selector, ClassSelectorChars) <==> RegexMatches(selector, ClassSelectorChars)) by {
      if NoLineTerminator(selector) {
        RegexMatchesWithoutLineTerminators(selector, ClassSelectorChars);
      }
    }
    ContainsAnyOf(selector, ClassSelectorChars)
  }

  /**
   * The XPath check of TestHealer.java:195 as written (Java regex semantics). It refuses only
   * expressions with a listed character, but not every such expression.
   */
  predicate IsNotYetSupportedXPathExpressionAsWritten(xpathExpression: string): (r: bool)
    ensures r ==> ContainsAnyOf(xpathExpression, XPathChars)
  {
    RegexMatches(xpathExpression, XPathChars)
  }

  /**
   * The XPath check of TestHealer.java:195 as evidently intended: an expression with any of
   * `< > : + " | ' @ *` or whitespace is refused.
   */
  predicate IsNotYetSupportedXPathExpression(xpathExpression: string): (r: bool)
    ensures NoLineTerminator(xpathExpression) ==> (r <==> IsNotYetSupportedXPathExpressionAsWritten(xpathExpression))
  {
    assert NoLineTerminator(xpathExpression) ==>
      (ContainsAnyOf(xpathExpression, XPathChars) <==> RegexMatches(xpathExpression, XPathChars)) by {
      if NoLineTerminator(xpathExpression) {
        RegexMatchesWithoutLineTerminators(xpathExpression, XPathChars);
      }
    }
    ContainsAnyOf(xpathExpression, XPathChars)
  }

  /**
   * A CSS selector the healer refuses with an IllegalArgumentException: a complex one, or a
   * class selector whose class part has a refused character.
   */
  predicate IsNotYetSupportedCssSelector(selector: string): (r: bool)
    ensures r <==> IsComplexCssSelector(selector) || (StartsWith(selector, ".") && RetrieveUsableCssSelector(selector).Failure?)
  {
    IsComplexCssSelector(selector) || (StartsWith(selector, ".") && IsRejectedClassSelector(selector[1..]))
  }

  /** `retrieveUsableCssSelector`, with the class check of TestHealer.java:187 as written. */
  function RetrieveUsableCssSelectorAsWritten(raw: string): (r: Result<string, Failure>)
    ensures r.Success? <==> StartsWith(raw, ".") && !IsRejectedClassSelectorAsWritten(raw[1..])
    ensures r.Success? ==> raw == "." + r.value
  {
    if StartsWith(raw, "#") then Failure(IllegalArgument(UseByIdMessage))
    else if !StartsWith(raw, ".") then Failure(IllegalArgument(UseByTagNameMessage))
    else if IsRejectedClassSelectorAsWritten(raw[1..]) then Failure(IllegalArgument(OnlySimpleSelectorMessage))
    else Success(raw[1..])
  }

  /**
   * `retrieveUsableCssSelector`: the class name of a simple `.class` selector, or the
   * IllegalArgumentException naming what to use instead.
   */
  function RetrieveUsableCssSelector(raw: string): (r: Result<string, Failure>)
    ensures r.Success? <==> StartsWith(raw, ".") && !IsRejectedClassSelector(raw[1..])
    ensures r.Success? ==> raw == "." + r.value && ' ' !in r.value && '[' !in r.value
    ensures r.Failure? ==> r.error.IllegalArgument?
  {
    if StartsWith(raw, "#") then Failure(IllegalArgument(UseByIdMessage))
    else if !StartsWith(raw, ".") then Failure(IllegalArgument(UseByTagNameMessage))
    else if IsRejectedClassSelector(raw[1..]) then Failure(IllegalArgument(OnlySimpleSelectorMessage))
    else
      var selector := raw[1..];
      assert ' ' !in selector && '[' !in selector by {
        forall i | 0 <= i < |selector| ensures selector[i] != ' ' && selector[i] != '[' {
          assert !InClass(ClassSelectorChars, selector[i]);
        }
      }
      Success(selector)
  }

  /** The class selector ".a\r\n[b" passes the check of TestHealer.java:187 as written but not as intended. */
  lemma ClassSelectorCheckMissesLineBreaks()
    ensures IsComplexCssSelector(".a\r\n[b")
    ensures RetrieveUsableCssSelectorAsWritten(".a\r\n[b") == Success("a\r\n[b")
    ensures RetrieveUsableCssSelector(".a\r\n[b") == Failure(IllegalArgument(OnlySimpleSelectorMessage))
  {
    var raw, selector := ".a\r\n[b", "a\r\n[b";
    assert raw[4] == '[';
    assert raw[1..] == selector;
    assert raw[..1] == "." && raw[..1] != "#";
    LineBreaksHideRejectedCharacter();
    assert !IsRejectedClassSelectorAsWritten(selector) && IsRejectedClassSelector(selector);
  }

  // ---------------------------------------------------------------------------------------
  // Search
  // ---------------------------------------------------------------------------------------

  /** Search the expected state for `c`; on success the actual element is reported under `label`. */
  function Heal(c: Criterion, kindLabel: string, expected: seq<Element>, actual: seq<Element>): (r: Lookup)
    ensures !r.Failed?
    ensures r.Healed? <==> Locate(expected, actual, c).Some?
    ensures r.Healed? ==> r.element == Locate(expected, actual, c).value && r.kindLabel == kindLabel
  {
    match Locate(expected, actual, c)
    case None => NotHealed
    case Some(e) => Healed(e, kindLabel)
  }

  /**
   * What `findMatchingElement` looks for: the expression without its first character,
   * lower-cased, contained in the lower-cased recorded path for "//expr", a prefix of it otherwise.
   */
  function XPathCriterion(xpathExpression: string): Criterion
    requires xpathExpression != ""
  {
    if StartsWith(xpathExpression, "//") then PathContains(Lower(xpathExpression[1..]))
    else PathStartsWith(Lower(xpathExpression[1..]))
  }

  /** The XPath rule on one recorded element, in the source's terms. */
  lemma XPathCriterionMeaning(xpathExpression: string, e: Element)
    requires xpathExpression != ""
    ensures Satisfies(e, XPathCriterion(xpathExpression)) <==>
      if StartsWith(xpathExpression, "//") then Contains(Lower(e.path), Lower(xpathExpression[1..]))
      else StartsWith(Lower(e.path), Lower(xpathExpression[1..]))
  {
  }

  /**
   * `findMatchingElement` as written: the expression minus its first character is taken inside
   * the per-element test, so an empty expression throws as soon as one element is tested.
   */
  function FindMatchingElementAsWritten(xpathExpression: string, expected: seq<Element>, actual: seq<Element>): (r: Lookup)
    ensures r.Failed? <==> xpathExpression == "" && |expected| > 0
    ensures xpathExpression != "" ==> (r.Healed? <==> Locate(expected, actual, XPathCriterion(xpathExpression)).Some?)
  {
    if xpathExpression == "" then
      if |expected| == 0 then NotHealed else Failed(StringIndexOutOfBounds)
    else
      Heal(XPathCriterion(xpathExpression), "xpath", expected, actual)
  }

  /**
   * `findMatchingElement`: heals with the first actual counterpart of the first expected element
   * whose path meets the XPath rule; the empty expression matches nothing.
   */
  function FindMatchingElement(xpathExpression: string, expected: seq<Element>, actual: seq<Element>): (r: Lookup)
    ensures !r.Failed?
    ensures xpathExpression != "" ==> r == FindMatchingElementAsWritten(xpathExpression, expected, actual)
    ensures xpathExpression != "" ==> (r.Healed? <==> Locate(expected, actual, XPathCriterion(xpathExpression)).Some?)
    ensures r.Healed? ==> xpathExpression != "" && Some(r.element) == Locate(expected, actual, XPathCriterion(xpathExpression)) && r.kindLabel == "xpath"
  {
    if xpathExpression == "" then NotHealed
    else Heal(XPathCriterion(xpathExpression), "xpath", expected, actual)
  }

  /** An empty XPath throws on a non-empty expected state as written, and is not found as intended. */
  lemma EmptyXPathThrowsAsWritten(e: Element, actual: seq<Element>)
    ensures FindMatchingElementAsWritten("", [e], actual) == Failed(StringIndexOutOfBounds)
    ensures FindMatchingElement("", [e], actual) == NotHealed
  {
  }

  /**
   * `findElement(By)`: dispatch on the locator kind. `#x` and bare tag CSS selectors are
   * re-issued as `By.id` and `By.tagName`; every other CSS selector must be a simple class
   * selector.
   */
  function Resolve(locator: Locator, expected: seq<Element>, actual: seq<Element>): (r: Lookup)
    ensures r.Failed? ==> r.failure.IllegalArgument? || r.failure.UnsupportedOperation?
    ensures r.Healed? ==> r.element in actual
    decreases (if locator.ByCssSelector? then 1 else 0)
  {
    match locator
    case ById(id) => Heal(AttributeEquals(ID, id), "HTML id attribute", expected, actual)
    case ByClassName(className) => Heal(AttributeContains(CLASS, className), "HTML class attribute", expected, actual)
    case ByName(name) => Heal(AttributeEquals(NAME, name), "HTML name attribute", expected, actual)
    case ByLinkText(linkText) => Heal(LinkTextIs(linkText), "link text", expected, actual)
    case ByCssSelector(raw) =>
      if StartsWith(raw, "#") && !IsComplexCssSelector(raw) then
        Resolve(ById(raw[1..]), expected, actual)
      else if !StartsWith(raw, ".") && !IsComplexCssSelector(raw) then
        Resolve(ByTagName(raw), expected, actual)
      else
        (match RetrieveUsableCssSelector(raw)
         case Failure(f) => Failed(f)
         case Success(selector) => Heal(AttributeContains(CLASS, selector), "HTML class attribute", expected, actual))
    case ByXPath(xpathExpression) =>
      if IsNotYetSupportedXPathExpression(xpathExpression) then Failed(IllegalArgument(OnlySimpleSelectorMessage))
      else FindMatchingElement(xpathExpression, expected, actual)
    case ByTagName(tag) => Heal(AttributeEquals(TYPE, tag), "HTML tag attribute", expected, actual)
    case ByOther(simpleName) => Failed(UnsupportedOperation(NotYetImplementedMessage(simpleName)))
  }

  /** What the driver receives: the recorded path of the healed element, null, or the exception. */
  function ResultOf(l: Lookup): (r: FindResult)
    ensures r.Redirect? <==> l.Healed?
    ensures l.Healed? ==> r.xpath == l.element.path
    ensures r.Thrown? <==> l.Failed?
  {
    match l
    case Healed(e, _) => Redirect(e.path)
    case NotHealed => NotFound
    case Failed(f) => Thrown(f)
  }

  // ---------------------------------------------------------------------------------------
  // Properties of the dispatch
  // ---------------------------------------------------------------------------------------

  /** A locator the healer accepts: a known kind and, for CSS and XPath, the supported syntax. */
  predicate IsSupportedLocator(locator: Locator) {
    match locator
    case ByCssSelector(raw) => !IsNotYetSupportedCssSelector(raw)
    case ByXPath(x) => !IsNotYetSupportedXPathExpression(x)
    case ByOther(_) => false
    case _ => true
  }

  /**
   * The healer throws exactly for unsupported locators, whatever the states; an unsupported
   * kind throws UnsupportedOperationException and unsupported syntax IllegalArgumentException.
   */
  lemma FailsExactlyForUnsupportedLocators(locator: Locator, expected: seq<Element>, actual: seq<Element>)
    ensures Resolve(locator, expected, actual).Failed? <==> !IsSupportedLocator(locator)
    ensures Resolve(locator, expected, actual).Failed? ==>
      (if locator.ByOther? then Resolve(locator, expected, actual).failure.UnsupportedOperation?
       else Resolve(locator, expected, actual).failure.IllegalArgument?)
  {
    if locator.ByCssSelector? {
      var raw := locator.selector;
      if !IsComplexCssSelector(raw) && StartsWith(raw, "#") {
        assert raw[0] == '#';
      }
    }
  }

  /** A CSS selector `#x` without a space or `[` gives exactly what `By.id(x)` gives. */
  lemma CssIdSelectorIsById(x: string, expected: seq<Element>, actual: seq<Element>)
    requires !IsComplexCssSelector("#" + x)
    ensures Resolve(ByCssSelector("#" + x), expected, actual) == Resolve(ById(x), expected, actual)
  {
    assert ("#" + x)[1..] == x;
  }

  /**
   * A CSS selector with no leading `#` or `.` and without a space or `[` gives exactly what
   * `By.tagName` gives for it.
   */
  lemma CssTagSelectorIsByTagName(raw: string, expected: seq<Element>, actual: seq<Element>)
    requires !StartsWith(raw, "#") && !StartsWith(raw, ".") && !IsComplexCssSelector(raw)
    ensures Resolve(ByCssSelector(raw), expected, actual) == Resolve(ByTagName(raw), expected, actual)
  {
  }

  /**
   * Every CSS selector with a space or `[` is refused with an IllegalArgumentException, never
   * searched; the message depends on its first character.
   */
  lemma ComplexCssSelectorRejected(raw: string, expected: seq<Element>, actual: seq<Element>)
    requires IsComplexCssSelector(raw)
    ensures Resolve(ByCssSelector(raw), expected, actual) == Failed(IllegalArgument(
      if StartsWith(raw, "#") then UseByIdMessage
      else if !StartsWith(raw, ".") then UseByTagNameMessage
      else OnlySimpleSelectorMessage))
  {
    if StartsWith(raw, ".") {
      var selector := raw[1..];
      if ' ' in raw {
        var i :| 0 <= i < |raw| && raw[i] == ' ';
        assert i > 0 && selector[i - 1] == ' ' && InClass(ClassSelectorChars, selector[i - 1]);
      } else {
        var i :| 0 <= i < |raw| && raw[i] == '[';
        assert i > 0 && selector[i - 1] == '[' && InClass(ClassSelectorChars, selector[i - 1]);
      }
    }
  }

  /** `isNotYetSupportedCssSelector` holds exactly when the healer refuses the selector. */
  lemma NotYetSupportedCssSelectorIsRefused(raw: string, expected: seq<Element>, actual: seq<Element>)
    ensures IsNotYetSupportedCssSelector(raw) <==> Resolve(ByCssSelector(raw), expected, actual).Failed?
  {
    FailsExactlyForUnsupportedLocators(ByCssSelector(raw), expected, actual);
  }

  /** `isNotYetSupportedXPathExpression` holds exactly when the healer refuses the expression. */
  lemma NotYetSupportedXPathIsRefused(x: string, expected: seq<Element>, actual: seq<Element>)
    ensures IsNotYetSupportedXPathExpression(x) <==> Resolve(ByXPath(x), expected, actual).Failed?
  {
  }

  /**
   * A supported, non-empty XPath expression heals by the XPath rule: the first expected element
   * whose lower-cased path contains (for "//expr") or starts with (otherwise) the expression
   * without its first character, lower-cased.
   */
  lemma XPathRule(x: string, expected: seq<Element>, actual: seq<Element>)
    requires x != "" && !IsNotYetSupportedXPathExpression(x)
    ensures Resolve(ByXPath(x), expected, actual) == Heal(XPathCriterion(x), "xpath", expected, actual)
    ensures forall e :: Satisfies(e, XPathCriterion(x)) <==>
      if StartsWith(x, "//") then Contains(Lower(e.path), Lower(x[1..])) else StartsWith(Lower(e.path), Lower(x[1..]))
  {
    forall e ensures Satisfies(e, XPathCriterion(x)) <==>
      if StartsWith(x, "//") then Contains(Lower(e.path), Lower(x[1..])) else StartsWith(Lower(e.path), Lower(x[1..]))
    {
      XPathCriterionMeaning(x, e);
    }
  }

  /** A CSS selector `.x` whose class part is accepted gives exactly what `By.className(x)` gives. */
  lemma CssClassSelectorIsByClassName(x: string, expected: seq<Element>, actual: seq<Element>)
    requires !IsRejectedClassSelector(x)
    ensures Resolve(ByCssSelector("." + x), expected, actual) == Resolve(ByClassName(x), expected, actual)
  {
    var raw := "." + x;
    assert raw[1..] == x && raw[..1] == ".";
    assert !StartsWith(raw, "#");
    assert !IsComplexCssSelector(raw) by {
      forall i | 0 <= i < |raw| ensures raw[i] != ' ' && raw[i] != '[' {
        if i > 0 {
          assert raw[i] == x[i - 1] && !InClass(ClassSelectorChars, x[i - 1]);
        }
      }
    }
  }

  /**
   * Nothing is healed from an empty expected state: every supported locator, empty strings
   * included, gives NotHealed there and throws nothing.
   */
  lemma EmptyExpectedStateHealsNothing(locator: Locator, actual: seq<Element>)
    requires IsSupportedLocator(locator)
    ensures Resolve(locator, [], actual) == NotHealed
  {
    FailsExactlyForUnsupportedLocators(locator, [], actual);
  }

  /** Empty selectors of every supported kind never throw, whatever the states. */
  lemma EmptySelectorsNeverThrow(expected: seq<Element>, actual: seq<Element>)
    ensures !Resolve(ByCssSelector(""), expected, actual).Failed?
    ensures !Resolve(ByClassName(""), expected, actual).Failed?
    ensures !Resolve(ById(""), expected, actual).Failed?
    ensures !Resolve(ByLinkText(""), expected, actual).Failed?
    ensures !Resolve(ByName(""), expected, actual).Failed?
    ensures !Resolve(ByTagName(""), expected, actual).Failed?
    ensures !Resolve(ByXPath(""), expected, actual).Failed?
  {
  }

  /**
   * A heal always redirects to an element of the actual state, one that shares its retestId with
   * an element of the expected state.
   */
  lemma HealedElementIsInActualState(locator: Locator, expected: seq<Element>, actual: seq<Element>)
    requires Resolve(locator, expected, actual).Healed?
    ensures Resolve(locator, expected, actual).element in actual
    ensures exists k :: 0 <= k < |expected| && expected[k].retestId == Resolve(locator, expected, actual).element.retestId
    decreases (if locator.ByCssSelector? then 1 else 0)
  {
    if locator.ByCssSelector? {
      var raw := locator.selector;
      if StartsWith(raw, "#") && !IsComplexCssSelector(raw) {
        HealedElementIsInActualState(ById(raw[1..]), expected, actual);
      } else if !StartsWith(raw, ".") && !IsComplexCssSelector(raw) {
        HealedElementIsInActualState(ByTagName(raw), expected, actual);
      }
    }
  }

  // ---------------------------------------------------------------------------------------
  // The scenarios of TestHealerTest
  // ---------------------------------------------------------------------------------------

  /** `#special-button` heals by id; `div` heals by tag name. */
  lemma CssSelectorRedirectExamples()
    ensures var e := Element(map[], map[ID := "special-button"], "HTML[1]/DIV[1]", "DIV", "id");
      Resolve(ByCssSelector("#special-button"), [e], [e]) == Healed(e, "HTML id attribute")
    ensures var e := Element(map[], map[], "HTML[1]/DIV[1]", "div", "id");
      Resolve(ByCssSelector("div"), [e], [e]) == Healed(e, "HTML tag attribute")
  {
    IdRedirectExample();
    TagRedirectExample();
  }

  lemma IdRedirectExample()
    ensures var e := Element(map[], map[ID := "special-button"], "HTML[1]/DIV[1]", "DIV", "id");
      Resolve(ByCssSelector("#special-button"), [e], [e]) == Healed(e, "HTML id attribute")
  {
    IdSelectorFacts();
  }

  lemma IdSelectorFacts()
    ensures !IsComplexCssSelector("#special-button")
    ensures StartsWith("#special-button", "#") && ("#special-button")[1..] == "special-button"
  {
    forall c | c in "#special-button" ensures c != ' ' && c != '[' {}
    assert ("#special-button")[..1] == "#";
  }

  lemma TagRedirectExample()
    ensures var e := Element(map[], map[], "HTML[1]/DIV[1]", "div", "id");
      Resolve(ByCssSelector("div"), [e], [e]) == Healed(e, "HTML tag attribute")
  {
    TagSelectorFacts();
    var e := Element(map[], map[], "HTML[1]/DIV[1]", "div", "id");
    assert Satisfies(e, AttributeEquals(TYPE, "div"));
  }

  lemma TagSelectorFacts()
    ensures !IsComplexCssSelector("div") && !StartsWith("div", "#") && !StartsWith("div", ".")
  {
    forall c | c in "div" ensures c != ' ' && c != '[' {}
    assert "div"[..1] == "d";
  }

  /**
   * The class rule is raw substring containment, not a token match: "btn" also finds the class
   * list "btnx".
   */
  lemma ClassNameMatchesRawSubstring()
    ensures var e := Element(map[], map[CLASS := "btnx"], "HTML[1]/BUTTON[1]", "BUTTON", "b");
      Resolve(ByClassName("btn"), [e], [e]) == Healed(e, "HTML class attribute")
  {
  }

  /** With one element recorded in both states, it is healed exactly when it meets the criterion. */
  lemma HealSingleElement(c: Criterion, kindLabel: string, e: Element)
    ensures Heal(c, kindLabel, [e], [e]) == if Satisfies(e, c) then Healed(e, kindLabel) else NotHealed
  {
    assert FirstWithRetestId([e], e.retestId) == Some(0);
  }

  /** The element the XPath scenarios record, at "HTML[1]/DIV[2]". */
  function SecondDiv(): Element {
    Element(map[], map[], "HTML[1]/DIV[2]", "div", "d")
  }

  /** The lower-cased path of `SecondDiv`, as "html[1]" followed by "/div[2]". */
  lemma SecondDivLowerPath()
    ensures Lower(SecondDiv().path) == "html[1]" + "/div[2]"
  {
    var p, t := "HTML[1]/DIV[2]", "html[1]/div[2]";
    forall i | 0 <= i < |p| ensures LowerChar(p[i]) == t[i] {}
    LowerIs(p, t);
    SecondDivPathParts();
  }

  lemma SecondDivPathParts()
    ensures "html[1]/div[2]" == "html[1]" + "/div[2]"
  {
  }

  /**
   * XPath healing on an element recorded at "HTML[1]/DIV[2]": "//div[2]" finds it anywhere in
   * the path, "/html[1]/div[2]" as a prefix of the path, and "//div[1]" does not find it.
   */
  lemma XPathExamples()
    ensures Resolve(ByXPath("//div[2]"), [SecondDiv()], [SecondDiv()]) == Healed(SecondDiv(), "xpath")
    ensures Resolve(ByXPath("/html[1]/div[2]"), [SecondDiv()], [SecondDiv()]) == Healed(SecondDiv(), "xpath")
    ensures Resolve(ByXPath("//div[1]"), [SecondDiv()], [SecondDiv()]) == NotHealed
  {
    DescendantExampleFacts();
    XPathStep("//div[2]", SecondDiv());
    PrefixExampleFacts();
    XPathStep("/html[1]/div[2]", SecondDiv());
    MissExampleFacts();
    XPathStep("//div[1]", SecondDiv());
  }

  /** With one element recorded in both states, a supported expression heals it exactly when its path meets the XPath rule. */
  lemma XPathStep(x: string, e: Element)
    requires x != "" && !IsNotYetSupportedXPathExpression(x)
    ensures Resolve(ByXPath(x), [e], [e]) == if Satisfies(e, XPathCriterion(x)) then Healed(e, "xpath") else NotHealed
  {
    XPathRule(x, [e], [e]);
    HealSingleElement(XPathCriterion(x), "xpath", e);
  }

  lemma DescendantExampleFacts()
    ensures !IsNotYetSupportedXPathExpression("//div[2]")
    ensures Satisfies(SecondDiv(), XPathCriterion("//div[2]"))
  {
    ExampleXPathSupported("//div[2]");
    DescendantCriterion("//div[2]", "/div[2]");
    SecondDivLowerPath();
    ContainsSecondPart("html[1]", "/div[2]");
  }

  lemma PrefixExampleFacts()
    ensures !IsNotYetSupportedXPathExpression("/html[1]/div[2]")
    ensures Satisfies(SecondDiv(), XPathCriterion("/html[1]/div[2]"))
  {
    ExampleXPathSupported("/html[1]/div[2]");
    PrefixCriterion();
    SecondDivLowerPath();
    StartsWithSelf("html[1]" + "/div[2]");
  }

  lemma MissExampleFacts()
    ensures !IsNotYetSupportedXPathExpression("//div[1]")
    ensures !Satisfies(SecondDiv(), XPathCriterion("//div[1]"))
  {
    ExampleXPathSupported("//div[1]");
    DescendantCriterion("//div[1]", "/div[1]");
    SecondDivLowerPath();
    FirstDivIsNotSecond();
    HtmlSegmentHasNoSlash();
    NotContainedInConcat("html[1]", "/div[2]", "/div[1]");
  }

  lemma FirstDivIsNotSecond()
    ensures |"/div[1]"| == |"/div[2]"| && "/div[1]" != "/div[2]"
  {
    var first, second := "/div[1]", "/div[2]";
    assert first[5] == '1' && second[5] == '2';
  }

  lemma HtmlSegmentHasNoSlash()
    ensures '/' !in "html[1]"
  {
  }

  /** A "//" expression made of lower-case characters searches for itself without the first "/". */
  lemma DescendantCriterion(x: string, fragment: string)
    requires x == "/" + fragment && |fragment| > 0 && fragment[0] == '/'
    requires forall c | c in fragment :: !('A' <= c <= 'Z')
    ensures XPathCriterion(x) == PathContains(fragment)
  {
    assert x[..2] == "//" && x[1..] == fragment;
    LowerUnchanged(fragment);
  }

  /** "/html[1]/div[2]" searches for paths starting with "html[1]/div[2]". */
  lemma PrefixCriterion()
    ensures XPathCriterion("/html[1]/div[2]") == PathStartsWith("html[1]" + "/div[2]")
  {
    var x, t := "/html[1]/div[2]", "html[1]/div[2]";
    assert x[..2][1] == 'h' && x == "/" + t;
    assert ("/" + t)[1..] == t;
    forall i | 0 <= i < |t| ensures LowerChar(t[i]) == t[i] {}
    LowerIs(t, t);
    SecondDivPathParts();
  }

  /** The expressions of `XPathExamples` contain no refused character. */
  lemma ExampleXPathSupported(x: string)
    requires x in {"//div[2]", "/html[1]/div[2]", "//div[1]"}
    ensures !IsNotYetSupportedXPathExpression(x)
  {
    forall c | c in x ensures !InClass(XPathChars, c) {}
  }

  /** The element the class-selector scenarios record, with class "pure-button". */
  function PureButton(): Element {
    Element(map[], map[CLASS := "pure-button"], "HTML[1]/BUTTON[1]", "BUTTON", "b")
  }

  /**
   * Class-selector healing: ".pure-button" finds an element whose class attribute is
   * "pure-button"; ".special-class" does not find it.
   */
  lemma ClassSelectorExamples()
    ensures Resolve(ByCssSelector(".pure-button"), [PureButton()], [PureButton()]) == Healed(PureButton(), "HTML class attribute")
    ensures Resolve(ByCssSelector(".special-class"), [PureButton()], [PureButton()]) == NotHealed
  {
    ExampleClassNamesAccepted();
    ExampleClassSelectors();
    ExampleClassContainment();
    ClassSelectorStep(".pure-button", "pure-button");
    ClassSelectorStep(".special-class", "special-class");
  }

  /** Neither scenario class name contains a refused character. */
  lemma ExampleClassNamesAccepted()
    ensures !IsRejectedClassSelector("pure-button") && !IsRejectedClassSelector("special-class")
  {
    forall c | c in "pure-button" ensures !InClass(ClassSelectorChars, c) {}
    forall c | c in "special-class" ensures !InClass(ClassSelectorChars, c) {}
  }

  lemma ExampleClassSelectors()
    ensures ".pure-button" == "." + "pure-button" && ".special-class" == "." + "special-class"
  {
  }

  /** The recorded class "pure-button" contains "pure-button" and not "special-class". */
  lemma ExampleClassContainment()
    ensures Contains("pure-button", "pure-button") && !Contains("pure-button", "special-class")
  {
    assert StartsWith("pure-button", "pure-button");
    ContainsIffOccurs("pure-button", "special-class");
  }

  /** `.x` on `PureButton`, for an accepted class name `x`, heals exactly when its class attribute contains `x`. */
  lemma ClassSelectorStep(raw: string, x: string)
    requires raw == "." + x && !IsRejectedClassSelector(x)
    ensures Resolve(ByCssSelector(raw), [PureButton()], [PureButton()])
      == if Contains("pure-button", x) then Healed(PureButton(), "HTML class attribute") else NotHealed
  {
    CssClassSelectorIsByClassName(x, [PureButton()], [PureButton()]);
    HealSingleElement(AttributeContains(CLASS, x), "HTML class attribute", PureButton());
  }

  /** The six selectors and two expressions TestHealerTest expects to be refused. */
  lemma NotYetSupportedExamples()
    ensures IsNotYetSupportedCssSelector(".open > .dropdown-toggle.btn-primary")
    ensures IsNotYetSupportedCssSelector(".btn-primary[disabled]")
    ensures IsNotYetSupportedCssSelector("fieldset[disabled]")
    ensures IsNotYetSupportedCssSelector(".btn-group-vertical > .btn:not(:first-child):not(:last-child)")
    ensures IsNotYetSupportedCssSelector("[data-toggle=\"buttons\"] > .btn-group > .btn input[type=\"radio\"]")
    ensures IsNotYetSupportedCssSelector(".input-group[class*=\"col-\"]")
    ensures IsNotYetSupportedXPathExpression("//div[@id='mw-content-text']/div[2]")
    ensures IsNotYetSupportedXPathExpression("//button[contains(.,'Search')]")
  {
    DropdownToggleRefused();
    DisabledButtonRefused();
    DisabledFieldsetRefused();
    VerticalGroupRefused();
    RadioToggleRefused();
    ColumnInputGroupRefused();
    ContentDivRefused();
    SearchButtonRefused();
  }

  lemma DropdownToggleRefused()
    ensures IsNotYetSupportedCssSelector(".open > .dropdown-toggle.btn-primary")
  {
    assert ".open > .dropdown-toggle.btn-primary"[5] == ' ';
  }

  lemma DisabledButtonRefused()
    ensures IsNotYetSupportedCssSelector(".btn-primary[disabled]")
  {
    assert ".btn-primary[disabled]"[12] == '[';
  }

  lemma DisabledFieldsetRefused()
    ensures IsNotYetSupportedCssSelector("fieldset[disabled]")
  {
    assert "fieldset[disabled]"[8] == '[';
  }

  lemma VerticalGroupRefused()
    ensures IsNotYetSupportedCssSelector(".btn-group-vertical > .btn:not(:first-child):not(:last-child)")
  {
    assert ".btn-group-vertical > .btn:not(:first-child):not(:last-child)"[19] == ' ';
  }

  lemma RadioToggleRefused()
    ensures IsNotYetSupportedCssSelector("[data-toggle=\"buttons\"] > .btn-group > .btn input[type=\"radio\"]")
  {
    assert "[data-toggle=\"buttons\"] > .btn-group > .btn input[type=\"radio\"]"[23] == ' ';
  }

  lemma ColumnInputGroupRefused()
    ensures IsNotYetSupportedCssSelector(".input-group[class*=\"col-\"]")
  {
    assert ".input-group[class*=\"col-\"]"[12] == '[';
  }

  lemma ContentDivRefused()
    ensures IsNotYetSupportedXPathExpression("//div[@id='mw-content-text']/div[2]")
  {
    var x := "//div[@id='mw-content-text']/div[2]";
    assert x[6] in x && InClass(XPathChars, x[6]);
  }

  lemma SearchButtonRefused()
    ensures IsNotYetSupportedXPathExpression("//button[contains(.,'Search')]")
  {
    var x := "//button[contains(.,'Search')]";
    assert x[20] in x && InClass(XPathChars, x[20]);
  }

  /**
   * Link text: the descriptive text alone suffices whatever the tag; the identifying text
   * counts only on an `a` element, in any case.
   */
  lemma LinkTextExamples()
    ensures var e := Element(map[], map[TEXT := "Home"], "HTML[1]/SPAN[1]", "span", "s");
      Resolve(ByLinkText("Home"), [e], [e]) == Healed(e, "link text")
    ensures var e := Element(map[TEXT := "Home"], map[], "HTML[1]/A[1]", "A", "a");
      Resolve(ByLinkText("Home"), [e], [e]) == Healed(e, "link text")
    ensures var e := Element(map[TEXT := "Home"], map[], "HTML[1]/SPAN[1]", "span", "s");
      Resolve(ByLinkText("Home"), [e], [e]) == NotHealed
  {
  }

  // ---------------------------------------------------------------------------------------
  // Warning emission
  // ---------------------------------------------------------------------------------------

  /** The call site `TestCaseFinder` reports; None when looking it up throws. */
  datatype CallSite = CallSite(className: string, fileName: string, lineNumber: int)

  /** The warning part of a heal: the call site, or "" and -1 when it could not be found. */
  function IdentificationWarning(callSite: Option<CallSite>): (w: ElementIdentificationWarning)
    ensures callSite.None? ==> w == ElementIdentificationWarning("", -1)
    ensures callSite.Some? ==> w.testFileName == callSite.value.fileName && w.testLineNumber == callSite.value.lineNumber
  {
    match callSite
    case None => ElementIdentificationWarning("", -1)
    case Some(cs) => ElementIdentificationWarning(cs.fileName, cs.lineNumber)
  }

  /** The warnings one lookup hands to the consumer: one per heal, none otherwise. */
  function WarningsFor(l: Lookup, callSite: Option<CallSite>): (ws: seq<QualifiedElementWarning>)
    ensures |ws| == if l.Healed? then 1 else 0
    ensures l.Healed? ==> ws[0].actual == l.element && ws[0].attributeKey == l.kindLabel
    ensures l.Healed? ==> ws[0].warning == IdentificationWarning(callSite)
  {
    if l.Healed? then [QualifiedElementWarning(l.element, l.kindLabel, IdentificationWarning(callSite))] else []
  }

  /**
   * A healer over the last expected and actual states of a driver and its warning consumer
   * (null when the driver has none). Its constructor is reached only when an expected state
   * exists; see `FindElement` below.
   */
  class TestHealer {
    const lastExpectedState: seq<Element>
    const lastActualState: seq<Element>
    const warningConsumer: WarningConsumer?

    constructor (expected: seq<Element>, actual: seq<Element>, consumer: WarningConsumer?)
      ensures lastExpectedState == expected && lastActualState == actual && warningConsumer == consumer
    {
      lastExpectedState := expected;
      lastActualState := actual;
      warningConsumer := consumer;
    }

    /** The healed element and its label go to the consumer, with the call site when known. */
    method WriteWarnLogForChangedIdentifier(elementIdentifier: string, actualElement: Element, callSite: Option<CallSite>)
      modifies if warningConsumer == null then {} else {warningConsumer}
      ensures warningConsumer != null ==>
        warningConsumer.accepted == old(warningConsumer.accepted)
          + [QualifiedElementWarning(actualElement, elementIdentifier, IdentificationWarning(callSite))]
    {
      var callSiteFileName := "";
      var callSiteLineNumber := -1;
      if callSite.Some? {
        callSiteFileName := callSite.value.fileName;
        callSiteLineNumber := callSite.value.lineNumber;
      }
      if warningConsumer != null {
        warningConsumer.Accept(QualifiedElementWarning(actualElement, elementIdentifier,
          ElementIdentificationWarning(callSiteFileName, callSiteLineNumber)));
      }
    }

    /**
     * `findElement(By)`: resolve the locator against the captured states; on a heal, report
     * exactly one warning and redirect to the healed element's path.
     */
    method FindElement(locator: Locator, callSite: Option<CallSite>) returns (r: FindResult)
      modifies if warningConsumer == null then {} else {warningConsumer}
      ensures r == ResultOf(Resolve(locator, lastExpectedState, lastActualState))
      ensures warningConsumer != null ==>
        warningConsumer.accepted == old(warningConsumer.accepted)
          + WarningsFor(Resolve(locator, lastExpectedState, lastActualState), callSite)
    {
      var found := Resolve(locator, lastExpectedState, lastActualState);
      match found
      case Healed(actualElement, kindLabel) =>
        WriteWarnLogForChangedIdentifier(kindLabel, actualElement, callSite);
        r := Redirect(actualElement.path);
      case NotHealed =>
        r := NotFound;
      case Failed(f) =>
        r := Thrown(f);
    }
  }

  /**
   * The static `TestHealer.findElement(locator, wrapped)`: without a last expected state it throws
   * IllegalStateException before any lookup; otherwise it heals with the driver's states.
   */
  method FindElement(locator: Locator, lastExpectedState: Option<seq<Element>>, lastActualState: seq<Element>,
                     warningConsumer: WarningConsumer?, callSite: Option<CallSite>) returns (r: FindResult)
    modifies if warningConsumer == null then {} else {warningConsumer}
    ensures lastExpectedState.None? ==> r == Thrown(IllegalState(NoExpectedStateMessage))
    ensures lastExpectedState.None? && warningConsumer != null ==> warningConsumer.accepted == old(warningConsumer.accepted)
    ensures lastExpectedState.Some? ==> r == ResultOf(Resolve(locator, lastExpectedState.value, lastActualState))
    ensures lastExpectedState.Some? && warningConsumer != null ==>
      warningConsumer.accepted == old(warningConsumer.accepted)
        + WarningsFor(Resolve(locator, lastExpectedState.value, lastActualState), callSite)
  {
    if lastExpectedState.None? {
      return Thrown(IllegalState(NoExpectedStateMessage));
    }
    var healer := new TestHealer(lastExpectedState.value, lastActualState, warningConsumer);
    r := healer.FindElement(locator, callSite);
  }
}
