/** The values a table carries but the table core never inspects: attribute maps,
    rich text and section context. They are produced by the text and context modules,
    which are not part of this model, so only their shape is kept here. */
module Content {
  import opened SimpleTrees

  type Attrs = map<string, string>

  /** A formatting span [start, end) of a rich text, with its tag and attributes. */
  datatype FormattingElement = FormattingElement(tag: string, start: nat, end: nat, attrs: Attrs)

  /** Text with its formatting skeleton, an arena tree of formatting spans. */
  datatype RichText = RichText(text: string, element: TreeValue<FormattingElement>)

  /** `RichText::empty`, used for synthetic padding cells. */
  const EmptyRichText := RichText("", TreeValue(0, [], []))

  datatype ContentHierarchy = ContentHierarchy(
    level: nat,
    heading: RichText,
    contentBefore: seq<RichText>,
    contentAfter: seq<RichText>)
}
