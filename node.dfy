/** The tree's node record (`TreeNode`) and the document a host may attach
    to it. A node without a document is a "zombie": the outline names it
    but no content backs it. */
module Nodes {

  datatype Option<+T> = None | Some(value: T)

  /** The fields of a host document that a node reads. */
  datatype Doc = Doc(url: string, docType: string, title: string)

  /** A registered node. `doc` is `None` where the source keeps the empty
      string sentinel. Stored nodes carry no level or line (the source
      leaves both at -1), so those fields are not modelled. */
  datatype Node = Node(text: string, ancestors: seq<string>, children: seq<string>, doc: Option<Doc>)
  {
    /** `missing`: no document is attached. */
    predicate Missing()
    {
      doc.None?
    }

    /** `url`: the document's url, or the node's name for a zombie. */
    function Url(): (u: string)
      ensures Missing() ==> u == text
      ensures !Missing() ==> u == doc.value.url
    {
      if Missing() then text else doc.value.url
    }

    /** `id`: the same value as `url`; a zombie is identified by its name. */
    function Id(): (id: string)
      ensures id == Url()
      ensures Missing() ==> id == text
    {
      if Missing() then text else doc.value.url
    }

    /** `title`: the document's title, or the node's name for a zombie. */
    function Title(): (t: string)
      ensures Missing() ==> t == text
      ensures !Missing() ==> t == doc.value.title
    {
      if Missing() then text else doc.value.title
    }

    /** `type`: the document's type, or "zombie". */
    function Type(): (t: string)
      ensures Missing() ==> t == "zombie"
      ensures !Missing() ==> t == doc.value.docType
    {
      if Missing() then "zombie" else doc.value.docType
    }
  }

  /** `TreeNode.new(text, ancestors)`: no children and no document. */
  function NewNode(text: string, ancestors: seq<string>): (n: Node)
    ensures n.text == text && n.ancestors == ancestors
    ensures n.children == [] && n.Missing()
  {
    Node(text, ancestors, [], None)
  }
}
