# htmltoword: a verified model of the document builder

htmltoword turns an HTML string into a Word (`.docx`) file. It transforms the HTML with XSLT
stylesheets into WordprocessingML parts, then copies a template `.docx` archive entry by entry,
replacing the body, header, footer, numbering and relationships parts, patching the
content-types stream and appending the referenced images under `word/media/`. A Rails-side
`Renderer` picks the download name, points the view lookup at the right template and renders
the header and footer views.

This project models the bookkeeping around those transformations:

- the part-name tables of `Htmltoword::Document` and the `.docx` suffix rule (`PartNames`);
- the whitespace normaliser `gsub(/>\s+</, '><')` (`Whitespace`);
- the image registrar `local_images` (`Images`);
- the content-types patcher `inject_image_content_types` (`ContentTypes`);
- the output archive `generate` writes (`Assembly`);
- the state a document accumulates, step by step (`Pipeline`);
- the `Document` object itself, whose methods are proved to change that state as `Pipeline`
  says and to produce what `Assembly` says (`Documents`);
- the renderer's `file_name`, `define_template`, `prerender_header_footer` and option defaults
  (`Rendering`).

The XSLT processor, Nokogiri, the zip reader, `open-uri`, `Rails.root` and the template lookup
are code outside the model. They appear as function-valued fields of `Foreign.Collaborators`
(or of `Rendering.Context`), of which nothing is assumed beyond being functions of their
arguments. A parsed HTML document is the term `Html(text)`, and a stylesheet applied to a tree
is the term `Transformed(sheet, tree)`. Where the Ruby code would raise (a missing XPath anchor,
an `img` without any source), the model states the absence of that case as a precondition. A
failed image download is a `Failure` carrying the image location.

Files: `wrappers.dfy`, `text.dfy` (string helpers standing in for Ruby's `String` methods),
`part_names.dfy`, `whitespace.dfy`, `images.dfy`, `content_types.dfy`, `foreign.dfy`,
`assembly.dfy`, `pipeline.dfy`, `documents.dfy`, `rendering.dfy`.

## Model

| member | source | states |
|---|---|---|
| PartNames.DocXmlFile | lib/htmltoword/document.rb:32-41 | `:header` and `:footer` have their own part; every other type, nil included, is `word/document.xml`; the result always satisfies `doc_xml_file?` |
| PartNames.AnchorOfPart | lib/htmltoword/document.rb:47-56 | the XPath anchor of a type's part is `w:hdr`, `w:ftr`, or `/w:document/w:body` for every other type |
| PartNames.RelationsXmlFile | lib/htmltoword/document.rb:62-71 | the relationships entry of a type is `word/_rels/<part file>.rels` for that type's part; it is never a replaced part, the numbering part or the content-types stream |
| PartNames.PartNamesDistinct | lib/htmltoword/document.rb:32-75 | two types share a relationships entry exactly when they share a part; no relationships entry is a part; numbering and content-types entries are not parts |
| PartNames.WithExtension | lib/htmltoword/document.rb:8 | the template name ends in `.docx`; a name already ending so is unchanged, any other gets `.docx` appended |
| PartNames.WithExtensionIdempotent | lib/htmltoword/document.rb:8 | appending the extension twice is appending it once |
| Text.DecimalRoundTrip | lib/htmltoword/document.rb:172 | `(i+1).to_s` is read back as the same number |
| Text.NatToStringInjective | lib/htmltoword/document.rb:172 | different ordinals have different decimal spellings |
| Text.LastSegment | lib/htmltoword/document.rb:169 | `split("/").last`: nil exactly when the string is only slashes; otherwise a non-empty slash-free segment that ends the string once trailing slashes are removed |
| Text.Lower | lib/htmltoword/document.rb:170 | `downcase`: same length, each character lower-cased, no upper-case letter left |
| Text.Delete | lib/htmltoword/document.rb:170 | `delete(".")`: exactly the characters other than the deleted one remain |
| Text.DeleteAppend | lib/htmltoword/document.rb:170 | deleting from a concatenation deletes from each part and keeps their order, so the remaining characters keep their order and number |
| Text.DeleteOne | lib/htmltoword/document.rb:170 | a single character is removed exactly when it is the deleted one |
| Text.DeleteAbsent | lib/htmltoword/document.rb:170 | deleting a character that does not occur changes nothing |
| Whitespace.SqueezeGapFree | lib/htmltoword/document.rb:96 | after the substitution no `>`, whitespace run, `<` remains |
| Whitespace.SqueezeFixpoint | lib/htmltoword/document.rb:96 | the substitution changes a string exactly when it holds a `>`, whitespace run, `<` |
| Whitespace.SqueezeIdempotent | lib/htmltoword/document.rb:96 | applying the substitution twice equals applying it once |
| Whitespace.SqueezeDeletesOnlySpaces | lib/htmltoword/document.rb:96 | the non-whitespace characters are kept in order and nothing is added |
| Whitespace.SqueezeDeletesExactlyGaps | lib/htmltoword/document.rb:96 | the result is the input with exactly the whitespace characters that lie strictly between a `>` and the next `<` removed, and no other character |
| Images.StripLocalSlash | lib/htmltoword/document.rb:166 | one leading `/` is dropped exactly when the second character is not `/`; the result never starts with a lone `/` |
| Images.SourceOf | lib/htmltoword/document.rb:163-168 | `data-src`, when present, overrides `src` and is resolved under `public` after the slash rule; otherwise `src` is used as is |
| Images.ExtName | lib/htmltoword/document.rb:170 | `File.extname` is empty or a dot followed by a dot-free rest |
| Images.ExtOf | lib/htmltoword/document.rb:170 | the extension holds no dot and no upper-case letter |
| Images.ExtOfDotted | lib/htmltoword/document.rb:170 | the extension of a name `stem.e`, stem not starting with a dot, is `e` lower-cased |
| Images.ExtOfUndotted | lib/htmltoword/document.rb:170 | a name whose last segment, leading dots aside, has no dot has an empty extension |
| Images.ExtOfDotfile | lib/htmltoword/document.rb:170 | a dot file such as `.bashrc` has an empty extension |
| Images.Scan | lib/htmltoword/document.rb:161-173 | one descriptor per `img`, in document order; the i-th has the resolved url, the extension of its name and filename `prefix` + `(i+1)` + `.` + ext |
| Images.ExtensionSource | lib/htmltoword/document.rb:169-170 | the extension comes from `data-filename` when present, otherwise from the last `/`-segment of the location |
| Images.NumberedNameInjective | lib/htmltoword/document.rb:172 | two numbered names with the same prefix are equal only with the same ordinal |
| Images.LetterPrefixesSeparate | lib/htmltoword/document.rb:172 | numbered names under two letter-only prefixes are equal only with the same prefix and ordinal |
| Images.ScanFilenamesDistinct | lib/htmltoword/document.rb:161-172 | the filenames of one scan are pairwise distinct |
| Images.ScansWithDistinctPrefixesDisjoint | lib/htmltoword/document.rb:161-172 | scans under different letter-only prefixes share no filename |
| Images.ScanExtendsDistinct | lib/htmltoword/document.rb:172 | appending a scan under a new letter-only prefix to a list of distinct numbered names keeps the names distinct |
| ContentTypes.ContentTypeFromExtension | lib/htmltoword/document.rb:177-179 | `jpg` is the only extension renamed, to `jpeg`; exactly `jpg` and `jpeg` give `jpeg` |
| ContentTypes.Extensions | lib/htmltoword/document.rb:186 | the extensions are exactly those of the `Default` declarations |
| ContentTypes.Difference | lib/htmltoword/document.rb:192 | `Array#-`: exactly the elements of the first list that are not in the second |
| ContentTypes.DifferenceAppend | lib/htmltoword/document.rb:192 | `Array#-` on a concatenation is the concatenation of the parts' differences: the receiver's order and duplicates are kept |
| ContentTypes.DifferenceOne | lib/htmltoword/document.rb:192 | a single element is kept exactly when the other list does not hold it |
| ContentTypes.UniqIsFirstOccurrences | lib/htmltoword/document.rb:192 | `uniq` keeps the first occurrence of each element, in order |
| ContentTypes.MissingExtensions | lib/htmltoword/document.rb:192 | the missing extensions are distinct and are exactly the required ones not yet declared |
| ContentTypes.PatchAppendsMissingDefaults | lib/htmltoword/document.rb:182-200 | existing declarations are kept in front; each added node is a `Default` for a required, undeclared extension, with content type `image/jpeg` for `jpg` and `image/<ext>` otherwise |
| ContentTypes.PatchedExtensions | lib/htmltoword/document.rb:182-200 | the patched extensions are the old ones followed by the missing ones in first-occurrence order |
| ContentTypes.PatchDeclaresRequired | lib/htmltoword/document.rb:182-200 | after patching every required extension is declared |
| ContentTypes.PatchIdempotent | lib/htmltoword/document.rb:182-200 | patching again adds nothing |
| ContentTypes.PatchKeepsDeclarationsDistinct | lib/htmltoword/document.rb:182-200 | patching a stream whose declarations are distinct keeps them distinct: each missing extension is added exactly once |
| Assembly.MediaEntriesFetched | lib/htmltoword/document.rb:112-119 | the media entries exist exactly when every image can be fetched; they are one per image in list order; otherwise the failure names the first image that cannot be fetched |
| Assembly.AssembleNames | lib/htmltoword/document.rb:88-123 | the output entry names are the template's names in archive order followed by `word/media/<filename>` per image; a replacement key that is no template entry and no media name produces no entry |
| Assembly.PassThroughEntries | lib/htmltoword/document.rb:101-109 | an entry neither replaced nor the content-types stream is copied (directories empty); a replaced non-part entry is written verbatim; content types are unchanged without images |
| Assembly.RewrittenParts | lib/htmltoword/document.rb:93-107 | a replaced part is its squeezed template text with the anchor's children replaced; with images the content-types stream is the patched stream |
| Pipeline.WithImages | lib/htmltoword/document.rb:161-174 | registering images keeps the replaced entries and markers, keeps the old images in front and appends the scan |
| Pipeline.BodyHtml | lib/htmltoword/document.rb:127 | nil or empty body HTML becomes `<body></body>`, any other is kept; the result is never empty |
| Pipeline.TemplateName | lib/htmltoword/document.rb:8 | a given template name ends in `.docx` afterwards; a missing one stays missing |
| Pipeline.HeaderFooterGating | lib/htmltoword/document.rb:141-148 | nil or empty content changes nothing; otherwise exactly that type's relations entry and part are set, other entries kept, its images appended and `document-<type>`, `1` appended to the markers |
| Pipeline.ReplaceFilesParts | lib/htmltoword/document.rb:126-133 | the numbering entry, the body's relations entry and the body part are set and nothing else; the markers reach the relations and body stylesheets unchanged; `extras` removes namespaces from the body |
| Pipeline.EmptyBodyIsEmptyElement | lib/htmltoword/document.rb:127 | a nil or empty body is converted exactly as `<body></body>` is |
| Pipeline.MarkersThreaded | lib/htmltoword/document.rb:10 | preparing the header/footer hash appends exactly the markers of its non-empty parts, in hash order |
| Pipeline.CreatedBodyParams | lib/htmltoword/document.rb:7-13 | in a created document the body's relations and body stylesheets receive exactly the markers of the prepared header/footer parts |
| Pipeline.CreatedImagesDistinct | lib/htmltoword/document.rb:7-13 | with distinct letter-only header/footer kinds other than `image`, all media filenames of a created document are distinct |
| Documents.Document.constructor | lib/htmltoword/document.rb:78-83 | a new document has no replaced entries, no images and no markers |
| Documents.Document.TransformAndReplace | lib/htmltoword/document.rb:152-157 | the entry `file` becomes the stylesheet's output, namespaces removed on request; nothing else changes |
| Documents.Document.TransformDocXml | lib/htmltoword/document.rb:135-139 | the part of the type becomes the document stylesheet's output over the cleaned-up tree, with the markers (body) or `extra-section`, `1` (header/footer) as parameters and `extras` as `remove_ns` |
| Documents.Document.LocalImages | lib/htmltoword/document.rb:161-174 | the loop appends the scan of the source's images to the image list |
| Documents.Document.PrepareHeaderFooter | lib/htmltoword/document.rb:141-148 | the state becomes `HeaderFooterPrepared` of the old state |
| Documents.Document.ReplaceFiles | lib/htmltoword/document.rb:126-133 | the state becomes `FilesReplaced` of the old state |
| Documents.Document.InjectImageContentTypes | lib/htmltoword/document.rb:182-201 | the loop's output is the serialised patched content-types stream |
| Documents.Document.Generate | lib/htmltoword/document.rb:88-123 | the two loops produce exactly `Assemble` of the template entries, the replaced entries and the images |
| Documents.Document.Create | lib/htmltoword/document.rb:7-13 | the archive is `Created`: header/footer parts prepared in hash order, then the body, then generate |
| Documents.Document.CreateAndSave | lib/htmltoword/document.rb:15-19 | the bytes written are those of `create` with an empty header/footer hash: the hash given is dropped |
| Documents.Document.CreateWithContent | lib/htmltoword/document.rb:21-26 | like `create` with the given template and no header/footer parts: its own hash is never used |
| Rendering.Presence | lib/htmltoword/renderer.rb:10 | a value is present exactly when it is given and not blank, and is then itself |
| Rendering.ChosenName | lib/htmltoword/renderer.rb:58 | a present `:filename` option wins; otherwise the `filename` argument |
| Rendering.FileNameAsWritten | lib/htmltoword/renderer.rb:57-60 | the chosen name is returned as is exactly when `.docx` ends one of its lines; otherwise `.docx` is appended |
| Rendering.FileName | lib/htmltoword/renderer.rb:57-60 | the download name ends in `.docx`; a chosen name ending so is unchanged, any other gets `.docx` appended |
| Rendering.FileNameSource | lib/htmltoword/renderer.rb:58-59 | a non-blank `:filename` option decides the download name regardless of the `filename` argument |
| Rendering.FileNameAsWrittenOnOneLine | lib/htmltoword/renderer.rb:59 | on a name without a line feed the line-anchored test agrees with the end-of-string test |
| Rendering.FileNameAsWrittenMissesSuffix | lib/htmltoword/renderer.rb:59 | the line-anchored test returns `a.docx\nb` without the extension |
| Rendering.TemplateSplitShape | lib/htmltoword/renderer.rb:47 | on a one-line name a match yields a non-empty slash-free segment and a non-empty rest that make up the name around the first slash |
| Rendering.TemplateSplitOfSegments | lib/htmltoword/renderer.rb:47 | every such name matches, with those two parts |
| Rendering.TemplateSplitApplied | lib/htmltoword/renderer.rb:46-50 | for the action's own template a `prefix/rest` name pushes `prefix` in front of the prefixes (created when absent) and makes `rest` the template; nothing else changes |
| Rendering.TemplateFallback | lib/htmltoword/renderer.rb:46-54 | without a split the name becomes the template and the prefixes stay; another template leaves the options unchanged |
| Rendering.DefaultLayout | lib/htmltoword/renderer.rb:33 | a missing layout becomes `false`, a given one is kept |
| Rendering.RenderOptsFor | lib/htmltoword/renderer.rb:34-40 | a view is rendered with its template, defaulted layout, formats and handlers, and its locals only when given |
| Rendering.HeaderFooterParts | lib/htmltoword/renderer.rb:27-43 | the hash holds `:header` then `:footer`, each exactly when its options name an HTML template, no other key, each rendered with its own options |
| Rendering.LayoutsDefaultToFalse | lib/htmltoword/renderer.rb:33 | the caller's options are left with the layout of each rendered view defaulted; every other key, and the options of a view that does not render, are unchanged |
| Rendering.RenderedKindsSeparate | lib/htmltoword/renderer.rb:29-41 | the header/footer hash holds at most `:header` and `:footer`, whose distinct letter-only names are not `image` |
| Rendering.Renderer.constructor | lib/htmltoword/renderer.rb:9-18 | word template is the present option; disposition defaults to `attachment`, extras to false; the download name by the line-anchored test, equal to the corrected name on one-line names; the content given or rendered with the redefined options; the header/footer hash |
| Rendering.Renderer.DefineTemplate | lib/htmltoword/renderer.rb:45-55 | the options become `TemplateDefined` of the old options; no other field changes |
| Rendering.Renderer.PrerenderHeaderFooter | lib/htmltoword/renderer.rb:27-43 | the loop builds the header/footer hash of `RenderedParts` and leaves the options with the layouts defaulted |

## Left out

- The XSLT stylesheets, `xslt`, `xslt_path`, `document_xslt`, `apply_to` and `transform` are not part of this model: their outputs are values of `Collaborators.applyTo` and the term `Transformed`.
- The namespace-removing substitution of `transform_and_replace` is the opaque function `Collaborators.removeNamespaces`.
- Nokogiri parsing, CSS/XPath lookup and serialisation are opaque (`Html`, `imagesOf`, `hasAnchor`, `replaceChildren`, `parseTypes`, `serializeTypes`). A content-types stream without a `Types` root, on which `at_css("Types")` is nil, is not modelled: `parseTypes` returns the root's children.
- Zip reading and writing, `open-uri` and the file written by `create_and_save` are I/O. The archive is a list of entries and the output a list of written entries. Bytes are modelled as `string`. When a download fails the model returns the failing location; it does not model the partial buffer left behind.
- `Rails.root.join`, `template_file` and `render_to_string` are opaque functions. `send_file`, `send_data` and `Mime[:docx]` are controller glue and are not modelled. `lib/htmltoword/configuration.rb` holds only default paths and is not part of this model.
- Cases in which the Ruby code raises are preconditions: a replaced part whose template lacks the anchor (`Assembly.AnchorsPresent`), and an `img` with no source or only slashes in it (`Images.AllResolvable`).
- Whitespace (`\s`, `blank?`) and `downcase` are ASCII-only: `\s` is space, tab, line feed, vertical tab, form feed and carriage return. Unicode whitespace and case mapping are not modelled.
- Option hashes are records whose fields are `None` when the key is absent. A key present with value nil is not distinguished from an absent one, which matters only for `fetch(:disposition)`, `fetch(:extras)` and `fetch(hf_key)`, where Ruby returns the nil.
- The header/footer hash is a sequence of `(kind, content)` pairs in insertion order; repeated keys, which a Ruby hash cannot hold, are not excluded.
- `Rendering.Renderer.DefineTemplate`: `options[:prefixes].unshift` mutates the caller's prefixes array in place; the model gives the options a new sequence and does not model that aliasing.
- `Rendering.Presence`: `presence` of values other than strings is not modelled.

## Findings

| source | as written | input that shows it | evidently intended | confidence | as-written member | corrected member |
|---|---|---|---|---|---|---|
| lib/htmltoword/renderer.rb:59 | `name =~ /\.docx$/` tests for `.docx` before any line end, because `$` in a Ruby regexp matches before every line feed | a `:filename` option `"a.docx\nb"` is returned as is, without the `.docx` suffix | the name ends in `.docx` (a `\z`-anchored test, as `end_with?` does in `create`) | low, not executed; file names with line feeds are rare | Rendering.FileNameAsWrittenMissesSuffix | Rendering.FileName |
