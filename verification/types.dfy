/** The records that pass between the extractor, the CSV writer and the e-mail composer. */
module Types {

  /** One item specific: its label (`labelText`, since `label` is a Dafny keyword) and its value. */
  datatype Specific = Specific(labelText: string, value: string)

  /** What the extractor returns for one saved listing page. */
  datatype ParsedListingData = ParsedListingData(
    title: string,
    price: string,
    descriptionHtml: string,
    itemSpecifics: seq<Specific>,
    itemNumber: string)

  /** A suggested change to an existing item specific. */
  datatype Correction = Correction(labelText: string, currentValue: string, recommendedValue: string)

  /**
   * The parts of an audit report that the CSV writer and the e-mail composer read:
   * the recommended title, the rewritten description and the item-specifics advice.
   */
  datatype AuditReport = AuditReport(
    recommendedTitle: string,
    descriptionRewrite: string,
    additions: seq<string>,
    corrections: seq<Correction>)
}
