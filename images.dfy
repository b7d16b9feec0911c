/**
 * The image registrar (`local_images`): every `img` element of an HTML source, in document
 * order, becomes one entry of the image list, with a numbered media file name, the location its
 * bytes are read from and the lower-cased extension.
 */
module Images {
  import opened Wrappers
  import opened Text

  /** The attributes of one `img` element that the registrar reads (nil when absent). */
  datatype ImgElement = ImgElement(src: Option<string>, dataSrc: Option<string>, dataFilename: Option<string>)

  /** One element of `@image_files`: `{ filename:, url:, ext: }`. */
  datatype ImageFile = ImageFile(filename: string, url: string, ext: string)

  /** `p` begins with one `/` that is not followed by a second one. */
  predicate LoneLeadingSlash(p: string) {
    |p| >= 1 && p[0] == '/' && (|p| == 1 || p[1] != '/')
  }

  /**
   * `src = src[1..-1] if src[0] == '/' and src[1] != '/'`: one leading slash is dropped, except
   * from a protocol-relative `//host/...` location.
   */
  function StripLocalSlash(p: string): (r: string)
    ensures p == r || p == "/" + r
    ensures !LoneLeadingSlash(r)
    ensures r != p <==> LoneLeadingSlash(p)
  {
    if LoneLeadingSlash(p) then p[1..] else p
  }

  /**
   * The location recorded for an element: `data-src`, when present, overrides `src`; it is
   * stripped of a lone leading slash and resolved under the application's `public` directory
   * (`Rails.root.join('public', src)`, the parameter `publicPath`).
   */
  function SourceOf(img: ImgElement, publicPath: string -> string): (r: Option<string>)
    ensures img.dataSrc.None? ==> r == img.src
    ensures img.dataSrc.Some? ==> r.Some? && exists p :: r.value == publicPath(p) && StripLocalSlash(img.dataSrc.value) == p
  {
    if img.dataSrc.Some? then Some(publicPath(StripLocalSlash(img.dataSrc.value))) else img.src
  }

  /** The name the extension is taken from: `data-filename`, else `src.split("/").last`. */
  function NameOf(img: ImgElement, src: string): Option<string> {
    if img.dataFilename.Some? then img.dataFilename else LastSegment(src)
  }

  /**
   * The element can be registered and its image read. Without any source, `src.split` is
   * called on nil when there is no `data-filename`; with one, the url is recorded as nil and
   * `open(nil)` raises in `generate`. Without a name to take the extension from,
   * `File.extname(nil)` raises.
   */
  predicate Resolvable(img: ImgElement, publicPath: string -> string) {
    SourceOf(img, publicPath).Some? && NameOf(img, SourceOf(img, publicPath).value).Some?
  }

  predicate AllResolvable(imgs: seq<ImgElement>, publicPath: string -> string) {
    forall i :: 0 <= i < |imgs| ==> Resolvable(imgs[i], publicPath)
  }

  function DropLeadingDots(s: string): string {
    if s != [] && s[0] == '.' then DropLeadingDots(s[1..]) else s
  }

  /** The characters after the last `.` of `s` (all of `s` when it has none). */
  function AfterLastDot(s: string): (r: string)
    ensures HasSuffix(s, r) && '.' !in r
    ensures |r| < |s| ==> s[|s| - |r| - 1] == '.'
  {
    if s == [] then []
    else if s[|s| - 1] == '.' then []
    else
      var r := AfterLastDot(s[..|s| - 1]) + [s[|s| - 1]];
      assert s[..|s| - 1][|s| - 1 - (|r| - 1)..] + [s[|s| - 1]] == s[|s| - |r|..];
      r
  }

  /**
   * `File.extname`: the last dot of the base name and what follows it; empty when the base name,
   * leading dots aside, has no dot.
   */
  function ExtName(name: string): (r: string)
    ensures r == [] || (r[0] == '.' && '.' !in r[1..])
  {
    match LastSegment(name)
    case None => ""
    case Some(base) =>
      var stem := DropLeadingDots(base);
      if '.' in stem then "." + AfterLastDot(stem) else ""
  }

  /** `File.extname(filename).delete(".").downcase`. */
  function ExtOf(name: string): (ext: string)
    ensures '.' !in ext
    ensures forall k :: 0 <= k < |ext| ==> !('A' <= ext[k] <= 'Z')
  {
    var e := Lower(Delete(ExtName(name), '.'));
    assert forall k :: 0 <= k < |e| ==> e[k] != '.' by {
      forall k | 0 <= k < |e| ensures e[k] != '.' {
        assert Delete(ExtName(name), '.')[k] in Delete(ExtName(name), '.');
      }
    }
    e
  }

  /** The characters after the last dot of `s.e`, when `e` has no dot, are `e`. */
  lemma {:induction false} AfterLastDotOf(s: string, e: string)
    requires '.' !in e
    ensures AfterLastDot(s + "." + e) == e
    decreases |e|
  {
    var n := s + "." + e;
    if e == [] {
      assert n[|n| - 1] == '.';
    } else {
      var init := e[..|e| - 1];
      assert e[|e| - 1] in e;
      assert forall x :: x in init ==> x in e;
      AfterLastDotOf(s, init);
      assert n[..|n| - 1] == s + "." + init;
      assert n[|n| - 1] == e[|e| - 1];
      assert init + [e[|e| - 1]] == e;
    }
  }

  /**
   * The extension of a slash-free name `stem.e` whose stem is not empty and does not start with
   * a dot is `e` lower-cased: `File.extname` gives `.e`, and the dot is deleted.
   */
  lemma ExtOfDotted(stem: string, e: string)
    requires stem != [] && stem[0] != '.' && '/' !in stem
    requires '.' !in e && '/' !in e
    ensures ExtOf(stem + "." + e) == Lower(e)
  {
    var name := stem + "." + e;
    assert '/' !in name;
    LastSegmentOfPlain(name);
    assert name[0] == stem[0];
    assert DropLeadingDots(name) == name;
    assert name[|stem|] == '.';
    AfterLastDotOf(stem, e);
    assert ExtName(name) == "." + e;
    DeleteAppend(".", e, '.');
    DeleteOne('.', '.');
    DeleteAbsent(e, '.');
    assert Delete(ExtName(name), '.') == e;
  }

  /** A name whose last segment, leading dots aside, holds no dot has no extension. */
  lemma ExtOfUndotted(name: string)
    requires LastSegment(name).None? || '.' !in DropLeadingDots(LastSegment(name).value)
    ensures ExtOf(name) == ""
  {
    assert ExtName(name) == "";
  }

  /** A dot file such as `.bashrc` has no extension. */
  lemma ExtOfDotfile(b: string)
    requires '.' !in b && '/' !in b
    ensures ExtOf("." + b) == ""
  {
    var name := "." + b;
    assert '/' !in name;
    LastSegmentOfPlain(name);
    assert name[1..] == b;
    assert DropLeadingDots(name) == b;
    ExtOfUndotted(name);
  }

  /** `"#{file_prefix}#{i+1}.#{ext}"`. */
  function NumberedName(prefix: string, ordinal: nat, ext: string): string {
    prefix + NatToString(ordinal) + "." + ext
  }

  /** The descriptor of the `i`-th (0-based) element of a scan. */
  function Describe(img: ImgElement, i: nat, prefix: string, publicPath: string -> string): ImageFile
    requires Resolvable(img, publicPath)
  {
    var src := SourceOf(img, publicPath).value;
    var ext := ExtOf(NameOf(img, src).value);
    ImageFile(NumberedName(prefix, i + 1, ext), src, ext)
  }

  /** The descriptors one scan of `imgs` appends to the image list, in document order. */
  function Scan(imgs: seq<ImgElement>, prefix: string, publicPath: string -> string): (r: seq<ImageFile>)
    requires AllResolvable(imgs, publicPath)
    ensures |r| == |imgs|
    ensures forall i :: 0 <= i < |r| ==>
      && r[i].url == SourceOf(imgs[i], publicPath).value
      && r[i].ext == ExtOf(NameOf(imgs[i], r[i].url).value)
      && r[i].filename == prefix + NatToString(i + 1) + "." + r[i].ext
  {
    seq(|imgs|, i requires 0 <= i < |imgs| => Describe(imgs[i], i, prefix, publicPath))
  }

  // ---------------------------------------------------------------------------
  // Properties

  /** The number of leading digits of `s`. */
  function LeadingDigits(s: string): nat {
    if s != [] && IsDigit(s[0]) then 1 + LeadingDigits(s[1..]) else 0
  }

  /** The number of leading letters of `s`. */
  function LeadingLetters(s: string): nat {
    if s != [] && IsLetter(s[0]) then 1 + LeadingLetters(s[1..]) else 0
  }

  lemma {:induction false} DigitRunThenDot(d: string, x: string)
    requires AllDigits(d)
    ensures LeadingDigits(d + "." + x) == |d|
    decreases |d|
  {
    if d != [] {
      assert (d + "." + x)[1..] == d[1..] + "." + x;
      DigitRunThenDot(d[1..], x);
    } else {
      assert d + "." + x == "." + x;
    }
  }

  lemma {:induction false} LetterRunThenDigit(p: string, rest: string)
    requires AllLetters(p) && rest != [] && IsDigit(rest[0])
    ensures LeadingLetters(p + rest) == |p|
    decreases |p|
  {
    if p != [] {
      assert (p + rest)[1..] == p[1..] + rest;
      LetterRunThenDigit(p[1..], rest);
    } else {
      assert p + rest == rest;
    }
  }

  /** Two numbered names with the same prefix are equal only if their ordinals are. */
  lemma NumberedNameInjective(prefix: string, m: nat, x: string, n: nat, y: string)
    requires NumberedName(prefix, m, x) == NumberedName(prefix, n, y)
    ensures m == n
  {
    var dm, dn := NatToString(m), NatToString(n);
    var a, b := dm + "." + x, dn + "." + y;
    assert NumberedName(prefix, m, x) == prefix + a;
    assert NumberedName(prefix, n, y) == prefix + b;
    assert a == (prefix + a)[|prefix|..] == (prefix + b)[|prefix|..] == b;
    DigitRunThenDot(dm, x);
    DigitRunThenDot(dn, y);
    assert dm == a[..|dm|] == b[..|dn|] == dn;
    if m != n {
      NatToStringInjective(m, n);
    }
  }

  /**
   * Two numbered names whose prefixes are made of letters only are equal only if the prefixes
   * and the ordinals are: the prefix is the name's leading run of letters.
   */
  lemma LetterPrefixesSeparate(p: string, m: nat, x: string, q: string, n: nat, y: string)
    requires AllLetters(p) && AllLetters(q)
    requires NumberedName(p, m, x) == NumberedName(q, n, y)
    ensures p == q && m == n
  {
    var u, v := NumberedName(p, m, x), NumberedName(q, n, y);
    assert u == p + (NatToString(m) + "." + x);
    assert v == q + (NatToString(n) + "." + y);
    LetterRunThenDigit(p, NatToString(m) + "." + x);
    LetterRunThenDigit(q, NatToString(n) + "." + y);
    assert p == u[..|p|] == v[..|q|] == q;
    NumberedNameInjective(p, m, x, n, y);
  }

  /** The file names produced by one scan are pairwise distinct. */
  lemma ScanFilenamesDistinct(imgs: seq<ImgElement>, prefix: string, publicPath: string -> string, i: nat, j: nat)
    requires AllResolvable(imgs, publicPath)
    requires i < j < |imgs|
    ensures Scan(imgs, prefix, publicPath)[i].filename != Scan(imgs, prefix, publicPath)[j].filename
  {
    var r := Scan(imgs, prefix, publicPath);
    if r[i].filename == r[j].filename {
      assert r[i].filename == NumberedName(prefix, i + 1, r[i].ext);
      assert r[j].filename == NumberedName(prefix, j + 1, r[j].ext);
      NumberedNameInjective(prefix, i + 1, r[i].ext, j + 1, r[j].ext);
    }
  }

  /** Scans with different letter-only prefixes never produce the same file name. */
  lemma ScansWithDistinctPrefixesDisjoint(
    a: seq<ImgElement>, p: string, b: seq<ImgElement>, q: string, publicPath: string -> string, i: nat, j: nat)
    requires AllResolvable(a, publicPath) && AllResolvable(b, publicPath)
    requires AllLetters(p) && AllLetters(q) && p != q
    requires i < |a| && j < |b|
    ensures Scan(a, p, publicPath)[i].filename != Scan(b, q, publicPath)[j].filename
  {
    var r, s := Scan(a, p, publicPath), Scan(b, q, publicPath);
    if r[i].filename == s[j].filename {
      assert r[i].filename == NumberedName(p, i + 1, r[i].ext);
      assert s[j].filename == NumberedName(q, j + 1, s[j].ext);
      LetterPrefixesSeparate(p, i + 1, r[i].ext, q, j + 1, s[j].ext);
    }
  }

  /**
   * Where the extension comes from: `data-filename` when present, otherwise the last segment of
   * the resolved source; either way it has no dot and no upper-case letter.
   */
  lemma ExtensionSource(img: ImgElement, publicPath: string -> string)
    requires Resolvable(img, publicPath)
    ensures var d := Describe(img, 0, "image", publicPath);
      && (img.dataFilename.Some? ==> d.ext == ExtOf(img.dataFilename.value))
      && (img.dataFilename.None? ==> d.ext == ExtOf(LastSegment(d.url).value))
      && '.' !in d.ext
  {
  }

  /** No two descriptors of the list share a file name. */
  predicate DistinctFilenames(images: seq<ImageFile>) {
    forall i, j :: 0 <= i < j < |images| ==> images[i].filename != images[j].filename
  }

  /** `name` is a numbered name under one of the prefixes in `prefixes`. */
  ghost predicate NumberedUnder(name: string, prefixes: set<string>) {
    exists p, m: nat, x :: p in prefixes && name == NumberedName(p, m, x)
  }

  /** A name numbered under letter-only prefixes is no numbered name under another one. */
  lemma NumberedUnderOther(name: string, prefixes: set<string>, q: string, n: nat, y: string)
    requires NumberedUnder(name, prefixes)
    requires AllLetters(q) && q !in prefixes && forall p :: p in prefixes ==> AllLetters(p)
    ensures name != NumberedName(q, n, y)
  {
    var p, m: nat, x :| p in prefixes && name == NumberedName(p, m, x);
    if name == NumberedName(q, n, y) {
      LetterPrefixesSeparate(p, m, x, q, n, y);
    }
  }

  /** Each name of the extended list is numbered under the old prefixes or the new one. */
  lemma ScanExtendsNumbered(prev: seq<ImageFile>, prefixes: set<string>, imgs: seq<ImgElement>, q: string,
                            publicPath: string -> string)
    requires AllResolvable(imgs, publicPath)
    requires forall k :: 0 <= k < |prev| ==> NumberedUnder(prev[k].filename, prefixes)
    ensures var all := prev + Scan(imgs, q, publicPath);
      forall k :: 0 <= k < |all| ==> NumberedUnder(all[k].filename, prefixes + {q})
  {
    var scan := Scan(imgs, q, publicPath);
    var all := prev + scan;
    forall k | 0 <= k < |all| ensures NumberedUnder(all[k].filename, prefixes + {q}) {
      if k < |prev| {
        assert all[k] == prev[k];
        NumberedUnderMore(prev[k].filename, prefixes, {q});
      } else {
        var k' := k - |prev|;
        assert all[k] == scan[k'];
        assert scan[k'].filename == NumberedName(q, k' + 1, scan[k'].ext);
      }
    }
  }

  /**
   * Appending a scan under a new letter-only prefix to a list numbered under other letter-only
   * prefixes keeps every file name distinct.
   */
  lemma ScanExtendsDistinct(prev: seq<ImageFile>, prefixes: set<string>, imgs: seq<ImgElement>, q: string,
                            publicPath: string -> string)
    requires AllResolvable(imgs, publicPath)
    requires AllLetters(q) && q !in prefixes && forall p :: p in prefixes ==> AllLetters(p)
    requires DistinctFilenames(prev)
    requires forall k :: 0 <= k < |prev| ==> NumberedUnder(prev[k].filename, prefixes)
    ensures var all := prev + Scan(imgs, q, publicPath);
      && DistinctFilenames(all)
      && forall k :: 0 <= k < |all| ==> NumberedUnder(all[k].filename, prefixes + {q})
  {
    var scan := Scan(imgs, q, publicPath);
    assert NumberedByPosition(scan, q);
    var all := prev + scan;
    forall i, j | 0 <= i < j < |all| ensures all[i].filename != all[j].filename {
      ExtendedPairDistinct(prev, prefixes, scan, q, i, j);
    }
    ScanExtendsNumbered(prev, prefixes, imgs, q, publicPath);
  }

  /** The names of a scan under `q` are `q`-numbered by position. */
  predicate NumberedByPosition(scan: seq<ImageFile>, q: string) {
    forall k :: 0 <= k < |scan| ==> scan[k].filename == NumberedName(q, k + 1, scan[k].ext)
  }

  lemma ExtendedPairDistinct(prev: seq<ImageFile>, prefixes: set<string>, scan: seq<ImageFile>, q: string, i: nat, j: nat)
    requires AllLetters(q) && q !in prefixes && forall p :: p in prefixes ==> AllLetters(p)
    requires DistinctFilenames(prev)
    requires forall k :: 0 <= k < |prev| ==> NumberedUnder(prev[k].filename, prefixes)
    requires NumberedByPosition(scan, q)
    requires i < j < |prev| + |scan|
    ensures (prev + scan)[i].filename != (prev + scan)[j].filename
  {
    var all := prev + scan;
    if j < |prev| {
      assert all[i] == prev[i] && all[j] == prev[j];
    } else if i >= |prev| {
      var i', j' := i - |prev|, j - |prev|;
      assert all[i] == scan[i'] && all[j] == scan[j'];
      if scan[i'].filename == scan[j'].filename {
        NumberedNameInjective(q, i' + 1, scan[i'].ext, j' + 1, scan[j'].ext);
      }
    } else {
      var j' := j - |prev|;
      assert all[i] == prev[i] && all[j] == scan[j'];
      NumberedUnderOther(prev[i].filename, prefixes, q, j' + 1, scan[j'].ext);
    }
  }

  lemma NumberedUnderMore(name: string, prefixes: set<string>, more: set<string>)
    requires NumberedUnder(name, prefixes)
    ensures NumberedUnder(name, prefixes + more)
  {
    var p, m: nat, x :| p in prefixes && name == NumberedName(p, m, x);
    assert p in prefixes + more;
  }
}
