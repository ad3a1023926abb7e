/**
 * The open-tag context of one XML element: its qualified name, its namespace
 * declarations and its attributes, together with the textual form the
 * splitter and the merge strategy write for it.
 */
module XmlElement {

  /** One `xmlns[:prefix]="uri"` declaration; the empty prefix is the default namespace. */
  datatype Namespace = Namespace(prefix: string, uri: string)

  /** One `prefix:localName="value"` attribute; the empty prefix means "no prefix". */
  datatype Attribute = Attribute(prefix: string, localName: string, value: string)

  /** An XML start element. A null prefix of the source is the empty string here. */
  datatype StartElement = StartElement(
    prefix: string,
    localName: string,
    namespaces: seq<Namespace>,
    attributes: seq<Attribute>)

  /** The fixed document header written in front of every chunk and every merged document. */
  const Header: string := "<?xml version=\"1.0\" encoding=\"UTF-8\" standalone=\"yes\"?>\n"

  function QualifiedName(prefix: string, localName: string): string {
    if prefix == "" then localName else prefix + ":" + localName
  }

  /** The element's name as it appears in its open and close tags. */
  function Name(e: StartElement): string {
    QualifiedName(e.prefix, e.localName)
  }

  function NamespaceDecl(n: Namespace): string {
    " xmlns" + (if n.prefix == "" then "" else ":" + n.prefix) + "=\"" + n.uri + "\""
  }

  function NamespaceDecls(ns: seq<Namespace>): string {
    if ns == [] then "" else NamespaceDecl(ns[0]) + NamespaceDecls(ns[1..])
  }

  function AttributeDecl(a: Attribute): string {
    " " + QualifiedName(a.prefix, a.localName) + "=\"" + a.value + "\""
  }

  function AttributeDecls(attrs: seq<Attribute>): string {
    if attrs == [] then "" else AttributeDecl(attrs[0]) + AttributeDecls(attrs[1..])
  }

  /** The open tag of `e`: name, then namespace declarations, then attributes, in order. */
  function ToString(e: StartElement): string {
    "<" + Name(e) + NamespaceDecls(e.namespaces) + AttributeDecls(e.attributes) + ">"
  }

  /** The close tag matching `ToString(e)`. */
  function EndTag(e: StartElement): (r: string)
    ensures |r| == |Name(e)| + 3
    ensures r[..2] == "</" && r[2..|r| - 1] == Name(e) && r[|r| - 1] == '>'
  {
    "</" + Name(e) + ">"
  }
}
