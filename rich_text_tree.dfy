/** The tree that the tree-based parser builds (RichTextNode). */
module RichTextTree {
  import opened Wrappers

  /**
   * A RichTextNode is either a text node (only Text set) or an element
   * (Tag, the optional Attribute after '=', and Children). The document
   * root, which has neither Text nor Tag, is represented by its list of
   * children.
   */
  datatype Node =
    | Text(text: string)
    | Element(tag: string, attribute: Option<string>, children: seq<Node>)
}
