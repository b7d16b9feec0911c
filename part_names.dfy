/**
 * The class-level part-name helpers of `Htmltoword::Document`: which archive entry holds a
 * part, the XPath anchor whose children are replaced in it, and its relationships entry.
 */
module PartNames {
  import opened Text

  /**
   * The `type` argument of the helpers: `nil` (the main document), `:header`, `:footer`, or any
   * other symbol a caller put in the header/footer hash.
   */
  datatype PartType = Default | Header | Footer | Other(symbol: string)

  /** `type.to_s` (`nil.to_s` is the empty string). */
  function TypeName(t: PartType): string {
    match t
    case Default => ""
    case Header => "header"
    case Footer => "footer"
    case Other(s) => s
  }

  const Extension: string := ".docx"
  const DocumentXml: string := "word/document.xml"
  const HeaderXml: string := "word/header.xml"
  const FooterXml: string := "word/footer.xml"
  const NumberingXmlFile: string := "word/numbering.xml"
  const ContentTypesXmlFile: string := "[Content_Types].xml"

  /** `doc_xml_file?`: the three parts whose anchor subtree is replaced in place. */
  predicate IsDocXmlFile(name: string) {
    name == HeaderXml || name == FooterXml || name == DocumentXml
  }

  /** `doc_xml_file(type)`: header and footer have their own part; every other type is the body. */
  function DocXmlFile(t: PartType): (r: string)
    ensures IsDocXmlFile(r)
    ensures r == HeaderXml <==> t == Header
    ensures r == FooterXml <==> t == Footer
    ensures r == DocumentXml <==> !(t == Header || t == Footer)
  {
    match t
    case Header => HeaderXml
    case Footer => FooterXml
    case _ => DocumentXml
  }

  /** `doc_xml_path(name)`: the XPath of the element whose children are replaced. */
  function DocXmlPath(name: string): string {
    if name == HeaderXml then "w:hdr"
    else if name == FooterXml then "w:ftr"
    else "/w:document/w:body"
  }

  /** The anchor of each part type's entry: `w:hdr`, `w:ftr`, and the body otherwise. */
  lemma AnchorOfPart(t: PartType)
    ensures DocXmlPath(DocXmlFile(t)) ==
      match t
      case Header => "w:hdr"
      case Footer => "w:ftr"
      case _ => "/w:document/w:body"
  {
  }

  /**
   * `relations_xml_file(type)`: the relationships entry that belongs to `DocXmlFile(type)`,
   * named as the Open Packaging Conventions name it: `_rels/` before the part's file name and
   * `.rels` after it.
   */
  function RelationsXmlFile(t: PartType): (r: string)
    ensures r == "word/_rels/" + DocXmlFile(t)[|"word/"|..] + ".rels"
    ensures !IsDocXmlFile(r) && r != NumberingXmlFile && r != ContentTypesXmlFile
  {
    match t
    case Header =>
      assert HeaderXml[|"word/"|..] == "header.xml";
      assert "word/_rels/" + "header.xml" + ".rels" == "word/_rels/header.xml.rels";
      "word/_rels/header.xml.rels"
    case Footer =>
      assert FooterXml[|"word/"|..] == "footer.xml";
      assert "word/_rels/" + "footer.xml" + ".rels" == "word/_rels/footer.xml.rels";
      "word/_rels/footer.xml.rels"
    case _ =>
      assert DocumentXml[|"word/"|..] == "document.xml";
      assert "word/_rels/" + "document.xml" + ".rels" == "word/_rels/document.xml.rels";
      "word/_rels/document.xml.rels"
  }

  /** The three relationships entries and the three replaced parts are seven distinct names. */
  lemma {:induction false} PartNamesDistinct(s: PartType, t: PartType)
    ensures RelationsXmlFile(s) == RelationsXmlFile(t) <==> DocXmlFile(s) == DocXmlFile(t)
    ensures RelationsXmlFile(s) != DocXmlFile(t)
    ensures !IsDocXmlFile(NumberingXmlFile) && !IsDocXmlFile(ContentTypesXmlFile)
  {
  }

  /**
   * `create`: the template name gets `.docx` appended unless it already ends with it (an exact
   * suffix test, `end_with?`); a missing name stays missing and selects the default template.
   */
  function WithExtension(name: string): (r: string)
    ensures HasSuffix(r, Extension)
    ensures HasSuffix(name, Extension) ==> r == name
    ensures !HasSuffix(name, Extension) ==> r == name + Extension
  {
    if HasSuffix(name, Extension) then name else name + Extension
  }

  /** Adding the extension a second time changes nothing. */
  lemma WithExtensionIdempotent(name: string)
    ensures WithExtension(WithExtension(name)) == WithExtension(name)
  {
  }
}
