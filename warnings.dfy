/**
 * The warning a successful heal hands to the driver's warning consumer
 * (src/main/java/de/retest/web/selenium/QualifiedElementWarning.java), and the consumer itself.
 */
module Warnings {
  import opened Snapshot

  /** recheck's `ElementIdentificationWarning`: where the failing lookup was called from. */
  datatype ElementIdentificationWarning = ElementIdentificationWarning(testFileName: string, testLineNumber: int)

  /** An immutable value: the healed element, the label of the attribute kind, and the call site. */
  datatype QualifiedElementWarning = QualifiedElementWarning(
    actual: Element,
    attributeKey: string,
    warning: ElementIdentificationWarning)

  /**
   * The `Consumer<QualifiedElementWarning>` a driver may supply. The model records every
   * warning it accepts, in order.
   */
  class WarningConsumer {
    var accepted: seq<QualifiedElementWarning>

    constructor ()
      ensures accepted == []
    {
      accepted := [];
    }

    method Accept(w: QualifiedElementWarning)
      modifies this
      ensures accepted == old(accepted) + [w]
    {
      accepted := accepted + [w];
    }
  }
}
