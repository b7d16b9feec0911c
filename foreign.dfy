/**
 * What the document builder receives from code outside it: the entries of the template archive,
 * the stylesheets and parsed trees it hands to the XSLT processor, and the collaborators
 * (template lookup, zip reader, XSLT, Nokogiri, `Rails.root`, open-uri) as plain functions.
 * Nothing is assumed of a collaborator beyond being a function of its arguments.
 */
module Foreign {
  import opened Wrappers
  import opened Images
  import opened ContentTypes

  /** One entry of the template archive; the stream of a directory is empty. */
  datatype Entry = Entry(name: string, data: string, isDirectory: bool)

  /** One entry of the output archive: `put_next_entry name` followed by what was written. */
  datatype Written = Written(name: string, data: string)

  /**
   * A stylesheet: `xslt(stylesheet_path: xslt_path(name))`, `xslt(stylesheet_name: name)`, or
   * `xslt(stylesheet_path: document_xslt(extras))`.
   */
  datatype Stylesheet = ByPath(name: string) | ByName(name: string) | DocumentSheet(extras: bool)

  /**
   * A parsed HTML document: `Nokogiri::HTML(text)`, or the result of `stylesheet.transform`
   * applied to another tree.
   */
  datatype Tree = Html(text: string) | Transformed(sheet: Stylesheet, input: Tree)

  datatype Collaborators = Collaborators(
    /** `template_file(name)`: the path of the named template, the default one for nil. */
    templateFile: Option<string> -> string,
    /** `Zip::File.open(path)`: the template's entries, in archive order. */
    archive: string -> seq<Entry>,
    /** `stylesheet.apply_to(source, params)`. */
    applyTo: (Stylesheet, Tree, seq<string>) -> string,
    /** `gsub!(/\s*xmlns:(\w+)="(.*?)\s*"/, '')`. */
    removeNamespaces: string -> string,
    /** `source.css('img')`, in document order. */
    imagesOf: Tree -> seq<ImgElement>,
    /** `Rails.root.join('public', path).to_s`. */
    publicPath: string -> string,
    /** The XML text has an element at the given XPath. */
    hasAnchor: (string, string) -> bool,
    /**
     * Parse the XML text, drop the children of the first element at the XPath, add the new
     * content as its child, serialise.
     */
    replaceChildren: (string, string, string) -> string,
    /** The children of the `Types` root of a content-types stream. */
    parseTypes: string -> seq<TypeNode>,
    /** A `Types` document with the given children, serialised. */
    serializeTypes: seq<TypeNode> -> string,
    /** `open(url, 'rb').read`, or None when opening fails. */
    fetch: string -> Option<string>)
}
