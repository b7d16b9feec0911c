/**
 * `Htmltoword::Document`: an object that collects replacement entries, image descriptors and
 * header/footer markers, then rewrites its template archive. Each method is proved to change
 * the state as the matching function of `Pipeline` says, and `generate` to produce what
 * `Assembly.Assemble` describes.
 */
module Documents {
  import opened Wrappers
  import opened Text
  import opened PartNames
  import opened Whitespace
  import opened Images
  import opened ContentTypes
  import opened Foreign
  import opened Assembly
  import opened Pipeline

  /** Extending a prefix of `s` by its next element. */
  lemma AppendNext<T>(a: seq<T>, s: seq<T>, i: nat)
    requires i < |s|
    ensures a + s[..i + 1] == (a + s[..i]) + [s[i]]
  {
    assert s[..i + 1] == s[..i] + [s[i]];
  }

  class Document {
    var replaceableFiles: map<string, string>
    const templatePath: string
    var imageFiles: seq<ImageFile>
    var headerFooter: seq<string>
    /** The code outside the document builder that its methods call. */
    const collab: Collaborators

    function State(): DocState
      reads this
    {
      DocState(replaceableFiles, imageFiles, headerFooter)
    }

    constructor (templatePath: string, collab: Collaborators)
      ensures State() == Initial
      ensures this.templatePath == templatePath && this.collab == collab
    {
      replaceableFiles := map[];
      this.templatePath := templatePath;
      imageFiles := [];
      headerFooter := [];
      this.collab := collab;
    }

    /** `transform_and_replace`. */
    method TransformAndReplace(source: Tree, sheet: Stylesheet, file: string, removeNs: bool, params: seq<string>)
      modifies this
      ensures State() == Replaced(old(State()), collab, source, sheet, file, removeNs, params)
    {
      var content := collab.applyTo(sheet, source, params);
      if removeNs {
        content := collab.removeNamespaces(content);
      }
      replaceableFiles := replaceableFiles[file := content];
    }

    /** `transform_doc_xml`. */
    method TransformDocXml(source: Tree, extras: bool, t: PartType)
      modifies this
      ensures State() == DocXmlReplaced(old(State()), collab, source, extras, t)
    {
      var cleaned := Transformed(ByName("cleanup"), source);
      cleaned := Transformed(ByName("inline_elements"), cleaned);
      var params := if t == PartType.Default then headerFooter else ["extra-section", "1"];
      TransformAndReplace(cleaned, DocumentSheet(extras), DocXmlFile(t), extras, params);
    }

    /** `local_images`: one descriptor per `img` element, in document order. */
    method LocalImages(source: Tree, prefix: string)
      requires AllResolvable(collab.imagesOf(source), collab.publicPath)
      modifies this
      ensures State() == WithImages(old(State()), collab, source, prefix)
    {
      var imgs := collab.imagesOf(source);
      ghost var scan := Scan(imgs, prefix, collab.publicPath);
      ghost var before := imageFiles;
      var i := 0;
      while i < |imgs|
        invariant 0 <= i <= |imgs|
        invariant replaceableFiles == old(replaceableFiles) && headerFooter == old(headerFooter)
        invariant imageFiles == before + scan[..i]
      {
        var image := imgs[i];
        var src := image.src;
        if image.dataSrc.Some? {
          var p := StripLocalSlash(image.dataSrc.value);
          src := Some(collab.publicPath(p));
        }
        assert src == SourceOf(image, collab.publicPath);
        assert Resolvable(image, collab.publicPath);
        var filename := if image.dataFilename.Some? then image.dataFilename.value else LastSegment(src.value).value;
        assert filename == NameOf(image, src.value).value;
        var ext := ExtOf(filename);
        var described := ImageFile(prefix + NatToString(i + 1) + "." + ext, src.value, ext);
        assert described == Describe(image, i, prefix, collab.publicPath) == scan[i];
        AppendNext(before, scan, i);
        imageFiles := imageFiles + [described];
        i := i + 1;
      }
      assert scan[..|imgs|] == scan;
    }

    /** `prepare_header_footer(content, type)`. */
    method PrepareHeaderFooter(content: Option<string>, t: PartType)
      requires PartResolvable(collab, content)
      modifies this
      ensures State() == HeaderFooterPrepared(old(State()), collab, content, t)
    {
      if content.None? || content.value == [] {
        return;
      }
      var source := Html(Squeeze(content.value));
      TransformAndReplace(source, ByPath("relations"), RelationsXmlFile(t), false, ["document-image", "'" + TypeName(t) + "'"]);
      TransformDocXml(source, false, t);
      LocalImages(source, TypeName(t));
      headerFooter := headerFooter + ["document-" + TypeName(t)] + ["1"];
    }

    /** `replace_files(html, extras)`. */
    method ReplaceFiles(html: Option<string>, extras: bool)
      requires BodyResolvable(collab, html)
      modifies this
      ensures State() == FilesReplaced(old(State()), collab, html, extras)
    {
      var text := if html.None? || html.value == [] then "<body></body>" else html.value;
      var source := Html(Squeeze(text));
      TransformAndReplace(source, ByPath("numbering"), NumberingXmlFile, false, []);
      TransformAndReplace(source, ByPath("relations"), RelationsXmlFile(PartType.Default), false, headerFooter);
      TransformDocXml(source, extras, PartType.Default);
      LocalImages(source, "image");
    }

    /**
     * `inject_image_content_types(source)`: the content-types stream with one new `Default`
     * per image extension it does not declare yet.
     */
    method InjectImageContentTypes(source: string) returns (r: string)
      ensures r == PatchedTypes(source, imageFiles, collab)
    {
      var nodes := collab.parseTypes(source);
      ghost var parsed := nodes;
      var existing := Extensions(nodes);
      var required := ImageExtensions(imageFiles);
      var missing := Uniq(Difference(required, existing));
      var i := 0;
      while i < |missing|
        invariant 0 <= i <= |missing|
        invariant nodes == parsed + DefaultsFor(missing[..i])
      {
        var ext := missing[i];
        nodes := nodes + [TypeNode.Default(ext, "image/" + ContentTypeFromExtension(ext))];
        assert DefaultsFor(missing[..i + 1]) == DefaultsFor(missing[..i]) + [DefaultFor(ext)];
        i := i + 1;
      }
      assert missing[..|missing|] == missing;
      r := collab.serializeTypes(nodes);
    }

    /** `generate`: the output archive, or the location of the first image that cannot be read. */
    method Generate() returns (r: Result<seq<Written>, string>)
      requires AnchorsPresent(collab.archive(templatePath), replaceableFiles, collab)
      ensures r == Assemble(collab.archive(templatePath), replaceableFiles, imageFiles, collab)
    {
      var entries := collab.archive(templatePath);
      var out: seq<Written> := [];
      var i := 0;
      while i < |entries|
        invariant 0 <= i <= |entries|
        invariant out == Rewritten(entries, replaceableFiles, imageFiles, collab)[..i]
      {
        var entry := entries[i];
        var w: Written;
        if entry.name in replaceableFiles && IsDocXmlFile(entry.name) {
          assert AnchorPresent(entry, replaceableFiles, collab);
          var xml := Squeeze(entry.data);
          w := Written(entry.name, collab.replaceChildren(xml, DocXmlPath(entry.name), replaceableFiles[entry.name]));
        } else if entry.name in replaceableFiles {
          w := Written(entry.name, replaceableFiles[entry.name]);
        } else if entry.name == ContentTypesXmlFile {
          var contentTypes := entry.data;
          if imageFiles != [] {
            contentTypes := InjectImageContentTypes(entry.data);
          }
          w := Written(entry.name, contentTypes);
        } else {
          w := Written(entry.name, if entry.isDirectory then [] else entry.data);
        }
        out := out + [w];
        i := i + 1;
      }
      assert out == Rewritten(entries, replaceableFiles, imageFiles, collab);
      MediaEntriesFetched(imageFiles, collab.fetch);
      var j := 0;
      while j < |imageFiles|
        invariant 0 <= j <= |imageFiles|
        invariant Fetched(imageFiles, collab.fetch, j)
        invariant out == Rewritten(entries, replaceableFiles, imageFiles, collab) + FetchedMedia(imageFiles, collab.fetch, j)
      {
        var image := imageFiles[j];
        var bytes := collab.fetch(image.url);
        if bytes.None? {
          return Failure(image.url);
        }
        assert Fetched(imageFiles, collab.fetch, j + 1);
        FetchedMediaNext(imageFiles, collab.fetch, j);
        out := out + [Written("word/media/" + image.filename, bytes.value)];
        j := j + 1;
      }
      r := Success(out);
    }

    /** `Document.create(content, template_name, extras, header_footer)`. */
    static method Create(collab: Collaborators, content: Option<string>, templateName: Option<string>, extras: bool, headerFooter: seq<HfPart>)
      returns (r: Result<seq<Written>, string>)
      requires CanCreate(collab, content, templateName, extras, headerFooter)
      ensures r == Created(collab, content, templateName, extras, headerFooter)
    {
      var name := templateName;
      if name.Some? && !HasSuffix(name.value, Extension) {
        name := Some(name.value + Extension);
      }
      var document := new Document(collab.templateFile(name), collab);
      var i := 0;
      while i < |headerFooter|
        invariant 0 <= i <= |headerFooter|
        invariant document.collab == collab && document.templatePath == collab.templateFile(name)
        invariant document.State() == AllPrepared(Initial, collab, headerFooter[..i])
        modifies document
      {
        assert headerFooter[..i + 1][..i] == headerFooter[..i];
        document.PrepareHeaderFooter(headerFooter[i].content, headerFooter[i].kind);
        i := i + 1;
      }
      assert headerFooter[..|headerFooter|] == headerFooter;
      document.ReplaceFiles(content, extras);
      r := document.Generate();
    }

    /**
     * `Document.create_and_save(content, file_path, template_name, extras, header_footer)`:
     * the bytes written to `file_path`. The header/footer hash is not passed on to `create`.
     */
    static method CreateAndSave(collab: Collaborators, content: Option<string>, filePath: string,
                                templateName: Option<string>, extras: bool, headerFooter: seq<HfPart>)
      returns (r: Result<seq<Written>, string>)
      requires CanCreate(collab, content, templateName, extras, [])
      ensures r == Created(collab, content, templateName, extras, [])
    {
      r := Create(collab, content, templateName, extras, []);
    }

    /**
     * `Document.create_with_content(template, content, extras, header_footer)`: like `create`
     * with a template name that must be given; its header/footer hash is never used.
     */
    static method CreateWithContent(collab: Collaborators, template: string, content: Option<string>,
                                    extras: bool, headerFooter: seq<HfPart>)
      returns (r: Result<seq<Written>, string>)
      requires CanCreate(collab, content, Some(template), extras, [])
      ensures r == Created(collab, content, Some(template), extras, [])
    {
      var name := if HasSuffix(template, Extension) then template else template + Extension;
      var document := new Document(collab.templateFile(Some(name)), collab);
      document.ReplaceFiles(content, extras);
      r := document.Generate();
    }
  }
}
