/**
 * src/main/java/de/retest/web/YamlAttributesConfig.java: the attribute selection read from the
 * YAML configuration. It is immutable: one final field, set once by the constructor.
 */
module AttributesConfig {
  import opened Wrappers

  /** `htmlAttributes`: `None` is Java's null, meaning "all HTML attributes". */
  datatype YamlAttributesConfig = YamlAttributesConfig(htmlAttributes: Option<set<string>>)

  /** `getHtmlAttributes()`: the set the configuration was built with, unchanged. */
  function GetHtmlAttributes(config: YamlAttributesConfig): (r: Option<set<string>>)
    ensures config == YamlAttributesConfig(r)
  {
    config.htmlAttributes
  }

  /** `allHtmlAttributes()`: true exactly when no explicit set is held. */
  predicate AllHtmlAttributes(config: YamlAttributesConfig) {
    config.htmlAttributes.None?
  }

  /** An explicit set, even an empty one, never means "all"; only the absent set does. */
  lemma ExplicitSetIsNotAll(attributes: set<string>)
    ensures !AllHtmlAttributes(YamlAttributesConfig(Some(attributes)))
    ensures AllHtmlAttributes(YamlAttributesConfig(None))
    ensures GetHtmlAttributes(YamlAttributesConfig(Some(attributes))) == Some(attributes)
  {
  }
}
