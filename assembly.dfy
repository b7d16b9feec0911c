/**
 * What `generate` writes: the template's entries in archive order, each rewritten by the first
 * rule that applies (replaced body/header/footer part, other replaced entry, content-types
 * stream, anything else), then one `word/media/<filename>` entry per registered image.
 */
module Assembly {
  import opened Wrappers
  import opened Text
  import opened PartNames
  import opened Whitespace
  import opened Images
  import opened ContentTypes
  import opened Foreign

  /** `@image_files.map { |i| i[:ext] }`. */
  function ImageExtensions(images: seq<ImageFile>): (r: seq<string>)
    ensures |r| == |images|
    ensures forall k :: 0 <= k < |images| ==> r[k] == images[k].ext
  {
    seq(|images|, k requires 0 <= k < |images| => images[k].ext)
  }

  /** `inject_image_content_types(raw)`. */
  function PatchedTypes(raw: string, images: seq<ImageFile>, c: Collaborators): string {
    c.serializeTypes(PatchTypes(c.parseTypes(raw), ImageExtensions(images)))
  }

  /** A replaced part's anchor can be found in it (otherwise `body` is nil and `generate` raises). */
  predicate AnchorPresent(e: Entry, files: map<string, string>, c: Collaborators) {
    e.name in files && IsDocXmlFile(e.name) ==> c.hasAnchor(Squeeze(e.data), DocXmlPath(e.name))
  }

  predicate AnchorsPresent(entries: seq<Entry>, files: map<string, string>, c: Collaborators) {
    forall k :: 0 <= k < |entries| ==> AnchorPresent(entries[k], files, c)
  }

  /** The output entry for one template entry, by the first rule that applies. */
  function RewriteEntry(e: Entry, files: map<string, string>, images: seq<ImageFile>, c: Collaborators): Written
    requires AnchorPresent(e, files, c)
  {
    if e.name in files && IsDocXmlFile(e.name) then
      Written(e.name, c.replaceChildren(Squeeze(e.data), DocXmlPath(e.name), files[e.name]))
    else if e.name in files then
      Written(e.name, files[e.name])
    else if e.name == ContentTypesXmlFile then
      Written(e.name, if images == [] then e.data else PatchedTypes(e.data, images, c))
    else
      Written(e.name, if e.isDirectory then [] else e.data)
  }

  function Rewritten(entries: seq<Entry>, files: map<string, string>, images: seq<ImageFile>, c: Collaborators): (r: seq<Written>)
    requires AnchorsPresent(entries, files, c)
    ensures |r| == |entries|
    ensures forall k :: 0 <= k < |entries| ==> r[k] == RewriteEntry(entries[k], files, images, c)
  {
    seq(|entries|, k requires 0 <= k < |entries| => RewriteEntry(entries[k], files, images, c))
  }

  function MediaName(img: ImageFile): string {
    "word/media/" + img.filename
  }

  /** The media entries, fetched in list order; the first location that cannot be opened fails. */
  function MediaEntries(images: seq<ImageFile>, fetch: string -> Option<string>): Result<seq<Written>, string> {
    if images == [] then Success([])
    else
      match fetch(images[0].url)
      case None => Failure(images[0].url)
      case Some(bytes) =>
        match MediaEntries(images[1..], fetch)
        case Failure(url) => Failure(url)
        case Success(rest) => Success([Written(MediaName(images[0]), bytes)] + rest)
  }

  /** `generate`: the whole output archive, or the location whose image could not be read. */
  function Assemble(entries: seq<Entry>, files: map<string, string>, images: seq<ImageFile>, c: Collaborators): Result<seq<Written>, string>
    requires AnchorsPresent(entries, files, c)
  {
    match MediaEntries(images, c.fetch)
    case Failure(url) => Failure(url)
    case Success(media) => Success(Rewritten(entries, files, images, c) + media)
  }

  // ---------------------------------------------------------------------------
  // Media entries, read as a loop would produce them

  /** The first `n` images can be fetched. */
  predicate Fetched(images: seq<ImageFile>, fetch: string -> Option<string>, n: nat)
    requires n <= |images|
  {
    forall k :: 0 <= k < n ==> fetch(images[k].url).Some?
  }

  /** The media entries of the first `n` images, when they can be fetched. */
  function FetchedMedia(images: seq<ImageFile>, fetch: string -> Option<string>, n: nat): (r: seq<Written>)
    requires n <= |images| && Fetched(images, fetch, n)
    ensures |r| == n
  {
    seq(n, k requires 0 <= k < n => Written(MediaName(images[k]), fetch(images[k].url).value))
  }

  /** One more fetched image adds its media entry at the end. */
  lemma FetchedMediaNext(images: seq<ImageFile>, fetch: string -> Option<string>, n: nat)
    requires n < |images| && Fetched(images, fetch, n + 1)
    ensures Fetched(images, fetch, n)
    ensures FetchedMedia(images, fetch, n + 1)
         == FetchedMedia(images, fetch, n) + [Written(MediaName(images[n]), fetch(images[n].url).value)]
  {
  }

  /**
   * The media entries exist exactly when every image can be fetched, and are then one entry
   * per image in list order; otherwise the failure names the first image that cannot.
   */
  lemma {:induction false} MediaEntriesFetched(images: seq<ImageFile>, fetch: string -> Option<string>)
    ensures MediaEntries(images, fetch).Success? <==> Fetched(images, fetch, |images|)
    ensures MediaEntries(images, fetch).Success? ==>
      MediaEntries(images, fetch).value == FetchedMedia(images, fetch, |images|)
    ensures forall i :: 0 <= i < |images| && Fetched(images, fetch, i) && fetch(images[i].url).None? ==>
      MediaEntries(images, fetch) == Failure(images[i].url)
    decreases |images|
  {
    if images != [] {
      var tail := images[1..];
      MediaEntriesFetched(tail, fetch);
      assert forall k :: 1 <= k < |images| ==> images[k] == tail[k - 1];
      if fetch(images[0].url).Some? {
        assert Fetched(images, fetch, |images|) <==> Fetched(tail, fetch, |tail|);
        if MediaEntries(images, fetch).Success? {
          assert MediaEntries(images, fetch).value == FetchedMedia(images, fetch, |images|);
        }
        forall i | 0 <= i < |images| && Fetched(images, fetch, i) && fetch(images[i].url).None?
          ensures MediaEntries(images, fetch) == Failure(images[i].url)
        {
          assert i != 0;
          assert Fetched(tail, fetch, i - 1);
        }
      }
    }
  }

  // ---------------------------------------------------------------------------
  // Properties of the output archive

  function EntryNames(entries: seq<Entry>): (r: seq<string>)
    ensures |r| == |entries| && forall k :: 0 <= k < |entries| ==> r[k] == entries[k].name
  {
    seq(|entries|, k requires 0 <= k < |entries| => entries[k].name)
  }

  function Names(ws: seq<Written>): (r: seq<string>)
    ensures |r| == |ws| && forall k :: 0 <= k < |ws| ==> r[k] == ws[k].name
  {
    seq(|ws|, k requires 0 <= k < |ws| => ws[k].name)
  }

  function MediaNames(images: seq<ImageFile>): (r: seq<string>)
    ensures |r| == |images| && forall k :: 0 <= k < |images| ==> r[k] == MediaName(images[k])
  {
    seq(|images|, k requires 0 <= k < |images| => MediaName(images[k]))
  }

  /**
   * The output has exactly the template's entry names, in archive order, then one media name
   * per image, in list order; in particular a replacement key that is no template entry
   * produces no entry. It exists exactly when every image can be fetched.
   */
  lemma AssembleNames(entries: seq<Entry>, files: map<string, string>, images: seq<ImageFile>, c: Collaborators)
    requires AnchorsPresent(entries, files, c)
    ensures Assemble(entries, files, images, c).Success? <==> Fetched(images, c.fetch, |images|)
    ensures Assemble(entries, files, images, c).Success? ==>
      Names(Assemble(entries, files, images, c).value) == EntryNames(entries) + MediaNames(images)
    ensures Assemble(entries, files, images, c).Success? ==> forall key :: key in files ==>
      (key in Names(Assemble(entries, files, images, c).value) <==> key in EntryNames(entries) || key in MediaNames(images))
  {
    MediaEntriesFetched(images, c.fetch);
    var r := Assemble(entries, files, images, c);
    if r.Success? {
      var media := FetchedMedia(images, c.fetch, |images|);
      assert r.value == Rewritten(entries, files, images, c) + media;
      assert Names(r.value) == EntryNames(entries) + MediaNames(images);
    }
  }

  /** The output entry at position `k` of the template part of a successful assembly. */
  lemma AssembledEntry(entries: seq<Entry>, files: map<string, string>, images: seq<ImageFile>, c: Collaborators, k: nat)
    requires AnchorsPresent(entries, files, c)
    requires Assemble(entries, files, images, c).Success? && k < |entries|
    ensures k < |Assemble(entries, files, images, c).value|
    ensures Assemble(entries, files, images, c).value[k] == RewriteEntry(entries[k], files, images, c)
  {
  }

  /**
   * An entry that is neither replaced nor the content-types stream is copied byte for byte (a
   * directory gets an empty entry); a replaced entry that is no body/header/footer part is
   * written verbatim; the content-types stream is unchanged when there are no images.
   */
  lemma PassThroughEntries(entries: seq<Entry>, files: map<string, string>, images: seq<ImageFile>, c: Collaborators, k: nat)
    requires AnchorsPresent(entries, files, c)
    requires Assemble(entries, files, images, c).Success? && k < |entries|
    ensures var w := Assemble(entries, files, images, c).value[k];
      var e := entries[k];
      && w.name == e.name
      && (e.name !in files && e.name != ContentTypesXmlFile ==> w.data == (if e.isDirectory then [] else e.data))
      && (e.name in files && !IsDocXmlFile(e.name) ==> w.data == files[e.name])
      && (e.name !in files && e.name == ContentTypesXmlFile && images == [] ==> w.data == e.data)
  {
    AssembledEntry(entries, files, images, c, k);
  }

  /**
   * A replaced body/header/footer part keeps its template text, whitespace between tags
   * squeezed, with the children of its anchor replaced by the new content; the content-types
   * stream, when there are images, is the patched stream.
   */
  lemma RewrittenParts(entries: seq<Entry>, files: map<string, string>, images: seq<ImageFile>, c: Collaborators, k: nat)
    requires AnchorsPresent(entries, files, c)
    requires Assemble(entries, files, images, c).Success? && k < |entries|
    ensures var w := Assemble(entries, files, images, c).value[k];
      var e := entries[k];
      && (e.name in files && IsDocXmlFile(e.name) ==>
            w.data == c.replaceChildren(Squeeze(e.data), DocXmlPath(e.name), files[e.name]))
      && (e.name !in files && e.name == ContentTypesXmlFile && images != [] ==>
            w.data == c.serializeTypes(PatchTypes(c.parseTypes(e.data), ImageExtensions(images))))
  {
    AssembledEntry(entries, files, images, c, k);
  }
}
