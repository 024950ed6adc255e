/**
 * src/main/java/de/retest/web/YamlAttributesConfigDeserializer.java: interpreting the parsed
 * YAML document as an attribute selection. The parsing itself (Jackson's YAML reader) is not
 * part of this model; it starts from the parsed node tree.
 */
module AttributesConfigDeserializer {
  import opened Wrappers
  import opened AttributesConfig

  const HtmlAttributesKey := "htmlAttributes"
  const AllValue := "all"

  /** A parsed YAML node (Jackson's `JsonNode`). */
  datatype YamlNode =
    | Text(text: string)                       // a textual scalar
    | Scalar(rendered: string)                 // a number or boolean, with its `asText()` form
    | Null
    | Sequence(items: seq<YamlNode>)
    | Mapping(fields: map<string, YamlNode>)

  /** What the deserializer throws. */
  datatype ConfigError = IllegalArgument(message: string) | NullPointer

  /** `node.asText()`: the text of a scalar, "null" for null, "" for a container. */
  function AsText(n: YamlNode): string {
    match n
    case Text(s) => s
    case Scalar(s) => s
    case Null => "null"
    case Sequence(_) => ""
    case Mapping(_) => ""
  }

  /** `node.get(key)`: the field of a mapping, null (`None`) otherwise. */
  function Get(n: YamlNode, key: string): Option<YamlNode> {
    if n.Mapping? && key in n.fields then Some(n.fields[key]) else None
  }

  function InvalidValueMessage(value: string, key: string): string {
    "'" + value + "' is an invalid value for '" + key + "'."
  }

  /** `isAll(node, key)`: only the text "all" means all; any other text is an error. */
  function IsAll(n: YamlNode, key: string): (r: Result<bool, ConfigError>)
    ensures r == Success(true) <==> n == Text(AllValue)
    ensures r == Success(false) <==> !n.Text?
    ensures r.Failure? ==> n.Text? && r.error == IllegalArgument(InvalidValueMessage(n.text, key))
  {
    if !n.Text? then Success(false)
    else if n.text == AllValue then Success(true)
    else Failure(IllegalArgument(InvalidValueMessage(n.text, key)))
  }

  /** `toSet(node)`: empty for null, otherwise the `asText()` of each element the node iterates. */
  function ToSet(n: YamlNode): (r: set<string>)
    ensures n.Sequence? ==> forall x :: x in r <==> exists item :: item in n.items && AsText(item) == x
    ensures n.Mapping? ==> forall x :: x in r <==> exists k :: k in n.fields && AsText(n.fields[k]) == x
    ensures !n.Sequence? && !n.Mapping? ==> r == {}
  {
    match n
    case Sequence(items) => set item | item in items :: AsText(item)
    case Mapping(fields) => set k | k in fields :: AsText(fields[k])
    case _ => {}
  }

  /** `toHtmlAttributesSet(node)`: null (all) for "all", else the node as a set. */
  function ToHtmlAttributesSet(n: YamlNode): (r: Result<Option<set<string>>, ConfigError>)
    ensures r == Success(None) <==> n == Text(AllValue)
    ensures r.Success? && r.value.Some? ==> !n.Text? && r.value.value == ToSet(n)
    ensures r.Failure? <==> n.Text? && n.text != AllValue
  {
    match IsAll(n, HtmlAttributesKey)
    case Failure(e) => Failure(e)
    case Success(all) => if all then Success(None) else Success(Some(ToSet(n)))
  }

  /**
   * `deserialize`: the configuration for the document's `htmlAttributes` entry. A document
   * without that entry makes `isAll` dereference null.
   */
  function Deserialize(document: YamlNode): (r: Result<YamlAttributesConfig, ConfigError>)
    ensures Get(document, HtmlAttributesKey).None? <==> r == Failure(NullPointer)
  {
    match Get(document, HtmlAttributesKey)
    case None => Failure(NullPointer)
    case Some(n) =>
      match ToHtmlAttributesSet(n)
      case Failure(e) => Failure(e)
      case Success(attributes) => Success(YamlAttributesConfig(attributes))
  }

  /** `htmlAttributes: all` selects all HTML attributes. */
  lemma AllSelectsAll(fields: map<string, YamlNode>)
    requires HtmlAttributesKey in fields && fields[HtmlAttributesKey] == Text(AllValue)
    ensures Deserialize(Mapping(fields)).Success?
    ensures AllHtmlAttributes(Deserialize(Mapping(fields)).value)
  {
  }

  /** Any other text is rejected, with a message naming the value and the key. */
  lemma OtherTextRejected(fields: map<string, YamlNode>, value: string)
    requires HtmlAttributesKey in fields && fields[HtmlAttributesKey] == Text(value) && value != AllValue
    ensures Deserialize(Mapping(fields)) ==
      Failure(IllegalArgument("'" + value + "' is an invalid value for 'htmlAttributes'."))
  {
    var suffix := "' is an invalid value for '" + HtmlAttributesKey + "'.";
    assert suffix == "' is an invalid value for 'htmlAttributes'.";
    assert InvalidValueMessage(value, HtmlAttributesKey) == "'" + value + suffix;
  }

  /** An empty `htmlAttributes:` entry gives the empty set, which does not mean all. */
  lemma NullSelectsNothing(fields: map<string, YamlNode>)
    requires HtmlAttributesKey in fields && fields[HtmlAttributesKey] == Null
    ensures Deserialize(Mapping(fields)) == Success(YamlAttributesConfig(Some({})))
    ensures !AllHtmlAttributes(Deserialize(Mapping(fields)).value)
  {
  }

  /** A list gives exactly the texts of its items, duplicates collapsed. */
  lemma SequenceSelectsItsTexts(fields: map<string, YamlNode>, items: seq<YamlNode>)
    requires HtmlAttributesKey in fields && fields[HtmlAttributesKey] == Sequence(items)
    ensures Deserialize(Mapping(fields)).Success?
    ensures var attributes := Deserialize(Mapping(fields)).value.htmlAttributes;
      attributes.Some? && forall x :: x in attributes.value <==> exists i :: 0 <= i < |items| && AsText(items[i]) == x
  {
    var attributes := Deserialize(Mapping(fields)).value.htmlAttributes;
    forall x | x in attributes.value ensures exists i :: 0 <= i < |items| && AsText(items[i]) == x {
      var item :| item in items && AsText(item) == x;
      var i :| 0 <= i < |items| && items[i] == item;
    }
    forall x | exists i :: 0 <= i < |items| && AsText(items[i]) == x ensures x in attributes.value {
      var i :| 0 <= i < |items| && AsText(items[i]) == x;
      assert items[i] in items;
    }
  }

  /** The result is all, a set or an error exactly as the `htmlAttributes` entry says. */
  lemma ResultKinds(document: YamlNode)
    ensures var r := Deserialize(document);
      (r.Success? && AllHtmlAttributes(r.value) <==> Get(document, HtmlAttributesKey) == Some(Text(AllValue)))
      && (r.Failure? <==>
            (Get(document, HtmlAttributesKey).None?
             || (Get(document, HtmlAttributesKey).value.Text? && Get(document, HtmlAttributesKey).value.text != AllValue)))
  {
  }

  /** Only the `htmlAttributes` entry is read: changing or adding any other entry has no effect. */
  lemma OtherKeysIgnored(fields: map<string, YamlNode>, key: string, value: YamlNode)
    requires key != HtmlAttributesKey
    ensures Deserialize(Mapping(fields[key := value])) == Deserialize(Mapping(fields))
  {
    assert Get(Mapping(fields[key := value]), HtmlAttributesKey) == Get(Mapping(fields), HtmlAttributesKey);
  }
}
