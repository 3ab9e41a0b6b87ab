/** The tokens an XML decoder yields for a declaration fragment of the
    registry. The fragment arrives already tokenized: decoding bytes, and the
    decoder's own errors, are not part of this model. */
module XmlTokens {
  datatype Token =
    | CharData(text: string)
    | StartElement(local: string)
    | EndElement(local: string)
    | Comment
    | ProcInst
    | Directive
}
