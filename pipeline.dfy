/**
 * The state a `Document` accumulates before `generate` — `@replaceable_files`, `@image_files`
 * and the `@header_footer` marker list — and how each step of the builder changes it. These
 * functions specify the methods of `Documents.Document`; the lemmas below state what the
 * steps promise.
 */
module Pipeline {
  import opened Wrappers
  import opened Text
  import opened PartNames
  import opened Whitespace
  import opened Images
  import opened Foreign
  import opened Assembly

  /** The instance variables of a document other than its template path. */
  datatype DocState = DocState(files: map<string, string>, images: seq<ImageFile>, markers: seq<string>)

  /** One `type => content` pair of the header/footer hash, in insertion order. */
  datatype HfPart = HfPart(kind: PartType, content: Option<string>)

  /** A freshly constructed document. */
  const Initial: DocState := DocState(map[], [], [])

  /** `content.nil? || content.empty?`. */
  predicate Absent(content: Option<string>) {
    content.None? || content.value == []
  }

  /** `Nokogiri::HTML(html.gsub(/>\s+</, '><'))`. */
  function Parsed(html: string): Tree {
    Html(Squeeze(html))
  }

  /** `transform_and_replace`: the stylesheet's output, namespaces removed on request, stored under `file`. */
  function Replaced(st: DocState, c: Collaborators, source: Tree, sheet: Stylesheet, file: string,
                    removeNs: bool, params: seq<string>): DocState
  {
    var content := c.applyTo(sheet, source, params);
    st.(files := st.files[file := if removeNs then c.removeNamespaces(content) else content])
  }

  /** The tree the document stylesheet is applied to: `cleanup`, then `inline_elements`. */
  function CleanedUp(source: Tree): Tree {
    Transformed(ByName("inline_elements"), Transformed(ByName("cleanup"), source))
  }

  /**
   * `transform_doc_xml`: the part of type `t` is the document stylesheet's output; `extras`
   * also removes namespaces; the body part gets the marker list as parameters, a header or
   * footer part the fixed `extra-section` pair.
   */
  function DocXmlReplaced(st: DocState, c: Collaborators, source: Tree, extras: bool, t: PartType): DocState {
    Replaced(st, c, CleanedUp(source), DocumentSheet(extras), DocXmlFile(t), extras,
             if t == Default then st.markers else ["extra-section", "1"])
  }

  /** `local_images`: the scan of the source's images is appended to the image list. */
  function WithImages(st: DocState, c: Collaborators, source: Tree, prefix: string): (r: DocState)
    requires AllResolvable(c.imagesOf(source), c.publicPath)
    ensures r.files == st.files && r.markers == st.markers
    ensures |st.images| <= |r.images|
    ensures r.images[..|st.images|] == st.images
    ensures r.images[|st.images|..] == Scan(c.imagesOf(source), prefix, c.publicPath)
  {
    var r := st.(images := st.images + Scan(c.imagesOf(source), prefix, c.publicPath));
    assert r.images[..|st.images|] == st.images;
    r
  }

  /** What a header/footer content needs so that preparing it does not raise. */
  predicate PartResolvable(c: Collaborators, content: Option<string>) {
    !Absent(content) ==> AllResolvable(c.imagesOf(Parsed(content.value)), c.publicPath)
  }

  /** `prepare_header_footer(content, type)`. */
  function HeaderFooterPrepared(st: DocState, c: Collaborators, content: Option<string>, t: PartType): DocState
    requires PartResolvable(c, content)
  {
    if Absent(content) then st
    else
      var source := Parsed(content.value);
      var s1 := Replaced(st, c, source, ByPath("relations"), RelationsXmlFile(t), false,
                         ["document-image", "'" + TypeName(t) + "'"]);
      var s2 := DocXmlReplaced(s1, c, source, false, t);
      var s3 := WithImages(s2, c, source, TypeName(t));
      s3.(markers := s3.markers + ["document-" + TypeName(t), "1"])
  }

  /** The body HTML actually converted: nil or empty becomes `<body></body>`. */
  function BodyHtml(html: Option<string>): (r: string)
    ensures r != []
    ensures Absent(html) ==> r == "<body></body>"
    ensures !Absent(html) ==> r == html.value
  {
    if Absent(html) then "<body></body>" else html.value
  }

  predicate BodyResolvable(c: Collaborators, html: Option<string>) {
    AllResolvable(c.imagesOf(Parsed(BodyHtml(html))), c.publicPath)
  }

  /** `replace_files(html, extras)`. */
  function FilesReplaced(st: DocState, c: Collaborators, html: Option<string>, extras: bool): DocState
    requires BodyResolvable(c, html)
  {
    var source := Parsed(BodyHtml(html));
    var s1 := Replaced(st, c, source, ByPath("numbering"), NumberingXmlFile, false, []);
    var s2 := Replaced(s1, c, source, ByPath("relations"), RelationsXmlFile(Default), false, s1.markers);
    var s3 := DocXmlReplaced(s2, c, source, extras, Default);
    WithImages(s3, c, source, "image")
  }

  predicate PartsResolvable(c: Collaborators, hf: seq<HfPart>) {
    forall k :: 0 <= k < |hf| ==> PartResolvable(c, hf[k].content)
  }

  /** `header_footer.each { |type, content| prepare_header_footer content, type }`. */
  function AllPrepared(st: DocState, c: Collaborators, hf: seq<HfPart>): DocState
    requires PartsResolvable(c, hf)
    decreases |hf|
  {
    if hf == [] then st
    else
      var last := hf[|hf| - 1];
      HeaderFooterPrepared(AllPrepared(st, c, hf[..|hf| - 1]), c, last.content, last.kind)
  }

  /** The marker tokens of the header/footer parts that are not absent, in hash order. */
  function Markers(hf: seq<HfPart>): seq<string>
    decreases |hf|
  {
    if hf == [] then []
    else
      var last := hf[|hf| - 1];
      Markers(hf[..|hf| - 1]) + (if Absent(last.content) then [] else ["document-" + TypeName(last.kind), "1"])
  }

  /** `template_name += extension if template_name && !template_name.end_with?(extension)`. */
  function TemplateName(name: Option<string>): (r: Option<string>)
    ensures r.None? <==> name.None?
    ensures r.Some? ==> HasSuffix(r.value, Extension)
  {
    if name.Some? then Some(WithExtension(name.value)) else None
  }

  /** The template archive `create` opens. */
  function TemplateEntries(c: Collaborators, name: Option<string>): seq<Entry> {
    c.archive(c.templateFile(TemplateName(name)))
  }

  /** The state `create` hands to `generate`. */
  function FinalState(c: Collaborators, html: Option<string>, extras: bool, hf: seq<HfPart>): DocState
    requires PartsResolvable(c, hf) && BodyResolvable(c, html)
  {
    FilesReplaced(AllPrepared(Initial, c, hf), c, html, extras)
  }

  /** What `create` needs so that it does not raise before `generate` reads the images. */
  predicate CanCreate(c: Collaborators, html: Option<string>, name: Option<string>, extras: bool, hf: seq<HfPart>) {
    && PartsResolvable(c, hf)
    && BodyResolvable(c, html)
    && AnchorsPresent(TemplateEntries(c, name), FinalState(c, html, extras, hf).files, c)
  }

  /** `Document.create(content, template_name, extras, header_footer)`. */
  function Created(c: Collaborators, html: Option<string>, name: Option<string>, extras: bool, hf: seq<HfPart>): Result<seq<Written>, string>
    requires CanCreate(c, html, name, extras, hf)
  {
    var st := FinalState(c, html, extras, hf);
    Assemble(TemplateEntries(c, name), st.files, st.images, c)
  }

  // ---------------------------------------------------------------------------
  // Properties

  /**
   * Preparing an absent header/footer changes nothing. Otherwise exactly the relations entry
   * and the part of that type are set, every other entry is kept, the part's images are
   * appended, and the two marker tokens `document-<type>`, `1` are appended.
   */
  lemma HeaderFooterGating(st: DocState, c: Collaborators, content: Option<string>, t: PartType)
    requires PartResolvable(c, content)
    ensures Absent(content) ==> HeaderFooterPrepared(st, c, content, t) == st
    ensures !Absent(content) ==>
      var r := HeaderFooterPrepared(st, c, content, t);
      && r.files.Keys == st.files.Keys + {RelationsXmlFile(t), DocXmlFile(t)}
      && (forall key :: key in st.files && key != RelationsXmlFile(t) && key != DocXmlFile(t) ==>
            r.files[key] == st.files[key])
      && r.files[RelationsXmlFile(t)] == c.applyTo(ByPath("relations"), Parsed(content.value),
                                                   ["document-image", "'" + TypeName(t) + "'"])
      && r.images == st.images + Scan(c.imagesOf(Parsed(content.value)), TypeName(t), c.publicPath)
      && r.markers == st.markers + ["document-" + TypeName(t), "1"]
  {
    if !Absent(content) {
      PartNamesDistinct(t, t);
    }
  }

  /**
   * `replace_files` always sets the numbering entry, the body's relations entry and the body
   * part, and nothing else; the relations and body stylesheets receive the marker list as it
   * stands, and the marker list is not changed.
   */
  lemma ReplaceFilesParts(st: DocState, c: Collaborators, html: Option<string>, extras: bool)
    requires BodyResolvable(c, html)
    ensures var r := FilesReplaced(st, c, html, extras);
      var source := Parsed(BodyHtml(html));
      var body := c.applyTo(DocumentSheet(extras), CleanedUp(source), st.markers);
      && r.files.Keys == st.files.Keys + {NumberingXmlFile, RelationsXmlFile(Default), DocumentXml}
      && (forall key :: key in st.files && key !in {NumberingXmlFile, RelationsXmlFile(Default), DocumentXml} ==>
            r.files[key] == st.files[key])
      && r.files[NumberingXmlFile] == c.applyTo(ByPath("numbering"), source, [])
      && r.files[RelationsXmlFile(Default)] == c.applyTo(ByPath("relations"), source, st.markers)
      && r.files[DocumentXml] == (if extras then c.removeNamespaces(body) else body)
      && r.markers == st.markers
      && r.images == st.images + Scan(c.imagesOf(source), "image", c.publicPath)
  {
    PartNamesDistinct(Default, Default);
  }

  /** A nil or empty body is converted exactly as `<body></body>` is. */
  lemma EmptyBodyIsEmptyElement(st: DocState, c: Collaborators, extras: bool)
    requires BodyResolvable(c, Some("<body></body>"))
    ensures BodyResolvable(c, None) && BodyResolvable(c, Some(""))
    ensures FilesReplaced(st, c, None, extras) == FilesReplaced(st, c, Some("<body></body>"), extras)
    ensures FilesReplaced(st, c, Some(""), extras) == FilesReplaced(st, c, Some("<body></body>"), extras)
  {
  }

  /**
   * Preparing the header/footer parts appends exactly their marker tokens, in hash order,
   * skipping the absent ones.
   */
  lemma {:induction false} MarkersThreaded(st: DocState, c: Collaborators, hf: seq<HfPart>)
    requires PartsResolvable(c, hf)
    ensures AllPrepared(st, c, hf).markers == st.markers + Markers(hf)
    decreases |hf|
  {
    if hf != [] {
      var init := hf[..|hf| - 1];
      MarkersThreaded(st, c, init);
      var last := hf[|hf| - 1];
      HeaderFooterGating(AllPrepared(st, c, init), c, last.content, last.kind);
    }
  }

  /**
   * In a created document the body's relations and the body stylesheet receive as parameters
   * exactly the markers of the header/footer parts that were prepared, so the body refers to a
   * header or footer exactly when one was given.
   */
  lemma CreatedBodyParams(c: Collaborators, html: Option<string>, extras: bool, hf: seq<HfPart>)
    requires PartsResolvable(c, hf) && BodyResolvable(c, html)
    ensures var r := FinalState(c, html, extras, hf);
      var source := Parsed(BodyHtml(html));
      var body := c.applyTo(DocumentSheet(extras), CleanedUp(source), Markers(hf));
      && r.files[RelationsXmlFile(Default)] == c.applyTo(ByPath("relations"), source, Markers(hf))
      && r.files[DocumentXml] == (if extras then c.removeNamespaces(body) else body)
      && r.markers == Markers(hf)
  {
    MarkersThreaded(Initial, c, hf);
    assert AllPrepared(Initial, c, hf).markers == Markers(hf);
    ReplaceFilesParts(AllPrepared(Initial, c, hf), c, html, extras);
  }

  /** The `to_s` names of the header/footer kinds. */
  function KindNames(hf: seq<HfPart>): set<string> {
    set k | 0 <= k < |hf| :: TypeName(hf[k].kind)
  }

  /**
   * The header/footer kinds have pairwise distinct names made of letters only, none of them
   * `image`; `Rendering.RenderedKindsSeparate` proves this of the hash the renderer builds.
   */
  predicate SeparateKinds(hf: seq<HfPart>) {
    && (forall i, j :: 0 <= i < j < |hf| ==> TypeName(hf[i].kind) != TypeName(hf[j].kind))
    && (forall k :: 0 <= k < |hf| ==> AllLetters(TypeName(hf[k].kind)) && TypeName(hf[k].kind) != "image")
  }

  lemma {:induction false} PreparedImagesDistinct(c: Collaborators, hf: seq<HfPart>)
    requires PartsResolvable(c, hf) && SeparateKinds(hf)
    ensures var images := AllPrepared(Initial, c, hf).images;
      && DistinctFilenames(images)
      && forall k :: 0 <= k < |images| ==> NumberedUnder(images[k].filename, KindNames(hf))
    decreases |hf|
  {
    if hf != [] {
      var init := hf[..|hf| - 1];
      var last := hf[|hf| - 1];
      assert forall k :: 0 <= k < |init| ==> init[k] == hf[k];
      PreparedImagesDistinct(c, init);
      var st := AllPrepared(Initial, c, init);
      var q := TypeName(last.kind);
      assert KindNames(hf) == KindNames(init) + {q} by {
        forall n | n in KindNames(hf) ensures n in KindNames(init) + {q} {
          var k :| 0 <= k < |hf| && TypeName(hf[k].kind) == n;
          if k < |init| {
            assert TypeName(init[k].kind) == n;
          }
        }
      }
      if !Absent(last.content) {
        forall n | n in KindNames(init) ensures n != q && AllLetters(n) {
          var k :| 0 <= k < |init| && TypeName(init[k].kind) == n;
        }
        ScanExtendsDistinct(st.images, KindNames(init), c.imagesOf(Parsed(last.content.value)), q, c.publicPath);
      } else {
        forall k | 0 <= k < |st.images| ensures NumberedUnder(st.images[k].filename, KindNames(hf)) {
          NumberedUnderMore(st.images[k].filename, KindNames(init), {q});
        }
      }
    }
  }

  /**
   * In a created document no two images get the same media file name: each part numbers its
   * images under its own prefix, and the body's prefix is `image`.
   */
  lemma CreatedImagesDistinct(c: Collaborators, html: Option<string>, extras: bool, hf: seq<HfPart>)
    requires PartsResolvable(c, hf) && BodyResolvable(c, html) && SeparateKinds(hf)
    ensures DistinctFilenames(FinalState(c, html, extras, hf).images)
  {
    PreparedImagesDistinct(c, hf);
    forall n | n in KindNames(hf) ensures n != "image" && AllLetters(n) {
      var k :| 0 <= k < |hf| && TypeName(hf[k].kind) == n;
    }
    assert AllLetters("image");
    var st := AllPrepared(Initial, c, hf);
    ScanExtendsDistinct(st.images, KindNames(hf), c.imagesOf(Parsed(BodyHtml(html))), "image", c.publicPath);
  }
}
