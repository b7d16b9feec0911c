/**
 * `Htmltoword::Renderer`: the controller-side helper that picks the download name, points the
 * view lookup at the right template, renders the header and footer views and remembers the
 * options `Document.create` is called with.
 */
module Rendering {
  import opened Wrappers
  import opened Text
  import opened PartNames
  import opened Pipeline

  /** The `:layout` of a header/footer view: nil, `false`, or a layout name. */
  datatype Layout = Unset | Disabled | Named(name: string)

  /** `options[:header][:html]` / `options[:footer][:html]`. */
  datatype HtmlOptions = HtmlOptions(
    template: Option<string>,
    layout: Layout,
    formats: Option<seq<string>>,
    handlers: Option<seq<string>>,
    locals: Option<map<string, string>>)

  /** `options[:header]` / `options[:footer]`. */
  datatype HfOptions = HfOptions(html: Option<HtmlOptions>)

  /** The keys of the options hash the renderer reads or changes (None: key absent). */
  datatype Options = Options(
    filename: Option<string>,
    template: Option<string>,
    prefixes: Option<seq<string>>,
    wordTemplate: Option<string>,
    disposition: Option<string>,
    extras: Option<bool>,
    content: Option<string>,
    header: Option<HfOptions>,
    footer: Option<HfOptions>)

  /** The hash passed to `render_to_string` for a header or footer view. */
  datatype RenderOpts = RenderOpts(
    template: string,
    layout: Layout,
    formats: Option<seq<string>>,
    handlers: Option<seq<string>>,
    locals: Option<map<string, string>>)

  /** The controller the renderer works for. */
  datatype Context = Context(
    actionName: string,
    /** `render_to_string(options)` for the document body. */
    renderToString: Options -> string,
    /** `render_to_string(render_opts)` for a header or footer view. */
    renderPartial: RenderOpts -> string)

  // ---------------------------------------------------------------------------
  // `presence`

  /** `blank?` of a string: only whitespace. */
  predicate Blank(s: string) {
    AllSpaces(s)
  }

  /** `presence`: the value unless it is nil or blank. */
  function Presence(v: Option<string>): (r: Option<string>)
    ensures r.Some? <==> v.Some? && !Blank(v.value)
    ensures r.Some? ==> r == v
  {
    if v.Some? && !Blank(v.value) then v else None
  }

  // ---------------------------------------------------------------------------
  // `file_name`

  /** `options[:filename].presence || filename`. */
  function ChosenName(filename: string, options: Options): (name: string)
    ensures Presence(options.filename).Some? ==> name == options.filename.value
    ensures Presence(options.filename).None? ==> name == filename
  {
    match Presence(options.filename)
    case Some(n) => n
    case None => filename
  }

  /**
   * `name =~ /\.docx$/` as Ruby reads it: `$` matches at the end of the string and before
   * every line feed, so `.docx` at the end of any line matches.
   */
  predicate DocxAtLineEnd(name: string) {
    exists i: nat | i <= |name| :: DocxEndsLineAt(name, i)
  }

  /** `.docx` starts at `i` and is followed by the end of the string or a line feed. */
  predicate DocxEndsLineAt(name: string, i: nat) {
    i + 5 <= |name| && name[i..i + 5] == ".docx" && (i + 5 == |name| || name[i + 5] == '\n')
  }

  /** `file_name(filename, options)` as written, with the line-anchored test. */
  function FileNameAsWritten(filename: string, options: Options): (r: string)
    ensures var name := ChosenName(filename, options);
      && (r == name <==> DocxAtLineEnd(name))
      && (r != name ==> r == name + ".docx")
  {
    var name := ChosenName(filename, options);
    if DocxAtLineEnd(name) then name else name + ".docx"
  }

  /** `file_name(filename, options)` with the test anchored at the end of the string. */
  function FileName(filename: string, options: Options): (r: string)
    ensures HasSuffix(r, ".docx")
    ensures HasSuffix(ChosenName(filename, options), ".docx") ==> r == ChosenName(filename, options)
    ensures r == ChosenName(filename, options) || r == ChosenName(filename, options) + ".docx"
  {
    WithExtension(ChosenName(filename, options))
  }

  /** A non-blank `:filename` option wins over the `filename` argument. */
  lemma FileNameSource(filename: string, options: Options)
    requires options.filename.Some? && !Blank(options.filename.value)
    ensures var given := options.filename.value;
      FileName(filename, options) == (if HasSuffix(given, ".docx") then given else given + ".docx")
  {
  }

  /** On names without a line feed the written test and the intended one agree. */
  lemma FileNameAsWrittenOnOneLine(filename: string, options: Options)
    requires '\n' !in ChosenName(filename, options)
    ensures FileNameAsWritten(filename, options) == FileName(filename, options)
  {
    var name := ChosenName(filename, options);
    forall k | 0 <= k < |name| ensures name[k] != '\n' {
      assert name[k] in name;
    }
    if DocxAtLineEnd(name) {
      var i: nat :| DocxEndsLineAt(name, i);
      assert HasSuffix(name, ".docx");
    }
    if HasSuffix(name, ".docx") {
      assert DocxEndsLineAt(name, |name| - 5);
    }
  }

  /** A name with `.docx` at the end of its first line is returned without the extension. */
  lemma FileNameAsWrittenMissesSuffix(options: Options)
    requires options.filename.None?
    ensures FileNameAsWritten("a.docx\nb", options) == "a.docx\nb"
    ensures !HasSuffix(FileNameAsWritten("a.docx\nb", options), ".docx")
  {
    var name := "a.docx\nb";
    assert name[1..6] == ".docx" && name[6] == '\n';
    assert DocxEndsLineAt(name, 1);
    assert name[|name| - 5..] == "docx\nb"[1..];
  }

  // ---------------------------------------------------------------------------
  // `define_template`: `filename =~ %r{^([^\/]+)/(.+)$}`

  /** `^` holds at `p`: the start of the string or just after a line feed. */
  predicate LineStart(s: string, p: nat)
    requires p <= |s|
  {
    p == 0 || s[p - 1] == '\n'
  }

  /** The index of the first `/` at or after `p`. */
  function SlashFrom(s: string, p: nat): (r: Option<nat>)
    requires p <= |s|
    ensures r.Some? ==> p <= r.value < |s| && s[r.value] == '/'
    ensures r.Some? ==> forall k :: p <= k < r.value ==> s[k] != '/'
    ensures r.None? ==> forall k :: p <= k < |s| ==> s[k] != '/'
    decreases |s| - p
  {
    if p == |s| then None else if s[p] == '/' then Some(p) else SlashFrom(s, p + 1)
  }

  /** The end of the line that contains `q`: the first line feed at or after `q`, or the end. */
  function LineEndFrom(s: string, q: nat): (e: nat)
    requires q <= |s|
    ensures q <= e <= |s|
    ensures e < |s| ==> s[e] == '\n'
    ensures forall k :: q <= k < e ==> s[k] != '\n'
    decreases |s| - q
  {
    if q == |s| || s[q] == '\n' then q else LineEndFrom(s, q + 1)
  }

  /**
   * The match starting at `p`: `[^\/]+` takes everything up to the first slash (line feeds
   * included), then `/`, then `(.+)$` the rest of that line, which must not be empty.
   */
  function MatchAt(s: string, p: nat): Option<(string, string)>
    requires p <= |s|
  {
    match SlashFrom(s, p)
    case None => None
    case Some(k) =>
      if k == p then None
      else
        var e := LineEndFrom(s, k + 1);
        if e == k + 1 then None else Some((s[p..k], s[k + 1..e]))
  }

  /** The leftmost match at a line start at or after `p`. */
  function SplitFrom(s: string, p: nat): Option<(string, string)>
    requires p <= |s|
    decreases |s| - p
  {
    var here := if LineStart(s, p) then MatchAt(s, p) else None;
    if here.Some? || p == |s| then here else SplitFrom(s, p + 1)
  }

  /** `$1` and `$2` of the template pattern, or None when it does not match. */
  function TemplateSplit(filename: string): Option<(string, string)> {
    SplitFrom(filename, 0)
  }

  lemma {:induction false} NoMatchAfterFirstLine(s: string, p: nat)
    requires 0 < p <= |s| && '\n' !in s
    ensures SplitFrom(s, p) == None
    decreases |s| - p
  {
    assert s[p - 1] in s;
    if p < |s| {
      NoMatchAfterFirstLine(s, p + 1);
    }
  }

  /**
   * On a one-line name the pattern matches exactly when the name is a non-empty slash-free
   * segment, a slash and a non-empty rest, and then yields those two parts.
   */
  lemma TemplateSplitShape(s: string)
    requires '\n' !in s
    ensures TemplateSplit(s).Some? ==>
      var (a, b) := TemplateSplit(s).value;
      s == a + "/" + b && a != [] && '/' !in a && b != []
  {
    if |s| > 0 {
      NoMatchAfterFirstLine(s, 1);
    }
    var m := TemplateSplit(s);
    if m.Some? {
      var k := SlashFrom(s, 0).value;
      var e := LineEndFrom(s, k + 1);
      forall k | 0 <= k < |s| ensures s[k] != '\n' {
        assert s[k] in s;
      }
      assert e == |s|;
      assert s == s[..k] + "/" + s[k + 1..];
    }
  }

  lemma TemplateSplitOfSegments(a: string, b: string)
    requires a != [] && '/' !in a && b != [] && '\n' !in b
    ensures TemplateSplit(a + "/" + b) == Some((a, b))
  {
    var s := a + "/" + b;
    assert forall k :: 0 <= k < |a| ==> s[k] == a[k];
    assert forall k :: 0 <= k < |a| ==> s[k] != '/' by {
      forall k | 0 <= k < |a| ensures s[k] != '/' {
        assert a[k] in a;
      }
    }
    assert s[|a|] == '/';
    assert SlashFrom(s, 0) == Some(|a|);
    assert forall k :: |a| + 1 <= k < |s| ==> s[k] == b[k - |a| - 1];
    assert forall k :: |a| + 1 <= k < |s| ==> s[k] != '\n' by {
      forall k | |a| + 1 <= k < |s| ensures s[k] != '\n' {
        assert b[k - |a| - 1] in b;
      }
    }
    assert LineEndFrom(s, |a| + 1) == |s|;
    assert s[0..|a|] == a && s[|a| + 1..|s|] == b;
    assert MatchAt(s, 0) == Some((a, b));
  }

  /**
   * `define_template(filename, options)`: when the template is the action's own, a
   * `prefix/rest` name moves `prefix` to the front of the lookup prefixes and makes `rest` the
   * template; any other name becomes the template.
   */
  function TemplateDefined(options: Options, filename: string, actionName: string): Options {
    if options.template == Some(actionName) then
      match TemplateSplit(filename)
      case Some((prefix, rest)) =>
        var prefixes := if options.prefixes.Some? then options.prefixes.value else [];
        options.(prefixes := Some([prefix] + prefixes), template := Some(rest))
      case None =>
        options.(template := Some(filename))
    else options
  }

  /**
   * When the template is the action's own and the one-line name splits at its first slash, the
   * segment before it is pushed in front of the prefixes and the rest becomes the template;
   * nothing else changes.
   */
  lemma TemplateSplitApplied(options: Options, prefix: string, rest: string, actionName: string)
    requires options.template == Some(actionName)
    requires prefix != [] && '/' !in prefix && rest != [] && '\n' !in prefix + rest
    ensures var o := TemplateDefined(options, prefix + "/" + rest, actionName);
      && o.template == Some(rest)
      && o.prefixes.Some?
      && o.prefixes.value == [prefix] + (if options.prefixes.Some? then options.prefixes.value else [])
      && o == options.(prefixes := o.prefixes, template := o.template)
  {
    assert forall c :: c in rest ==> c in prefix + rest;
    TemplateSplitOfSegments(prefix, rest);
  }

  /**
   * Without such a split the name itself becomes the template and the prefixes stay; when the
   * template is not the action's own, the options are unchanged.
   */
  lemma TemplateFallback(options: Options, filename: string, actionName: string)
    ensures options.template != Some(actionName) ==> TemplateDefined(options, filename, actionName) == options
    ensures options.template == Some(actionName) && TemplateSplit(filename).None? ==>
      TemplateDefined(options, filename, actionName) == options.(template := Some(filename))
  {
  }

  // ---------------------------------------------------------------------------
  // `prerender_header_footer`

  predicate IsHfKey(key: PartType) {
    key == Header || key == Footer
  }

  /** `options.fetch(key, {})` for `:header` and `:footer` (an absent key gives no options). */
  function OptionsFor(options: Options, key: PartType): Option<HfOptions>
    requires IsHfKey(key)
  {
    if key == Header then options.header else options.footer
  }

  /** `hf_options && hf_options[:html] && hf_options[:html][:template]`. */
  predicate Renders(options: Options, key: PartType)
    requires IsHfKey(key)
  {
    var hf := OptionsFor(options, key);
    hf.Some? && hf.value.html.Some? && hf.value.html.value.template.Some?
  }

  /** `layout ||= false`. */
  function DefaultLayout(layout: Layout): (r: Layout)
    ensures r != Unset
    ensures layout.Named? ==> r == layout
    ensures !layout.Named? ==> r == Disabled
  {
    if layout.Named? then layout else Disabled
  }

  /** The options after `hf_options[:html][:layout] ||= false` for a key that renders. */
  function LayoutDefaulted(options: Options, key: PartType): Options
    requires IsHfKey(key)
  {
    if !Renders(options, key) then options
    else
      var html := OptionsFor(options, key).value.html.value;
      var hf := HfOptions(Some(html.(layout := DefaultLayout(html.layout))));
      if key == Header then options.(header := Some(hf)) else options.(footer := Some(hf))
  }

  /** The `render_opts` built for a key that renders. */
  function RenderOptsFor(options: Options, key: PartType): (r: RenderOpts)
    requires IsHfKey(key) && Renders(options, key)
    ensures var html := OptionsFor(options, key).value.html.value;
      && r.template == html.template.value
      && r.layout == DefaultLayout(html.layout)
      && r.formats == html.formats && r.handlers == html.handlers
      && r.locals == html.locals
  {
    var html := OptionsFor(options, key).value.html.value;
    RenderOpts(html.template.value, DefaultLayout(html.layout), html.formats, html.handlers, html.locals)
  }

  /** The entry one key adds to the header/footer hash. */
  function RenderedPart(options: Options, context: Context, key: PartType): seq<HfPart>
    requires IsHfKey(key)
  {
    if Renders(options, key) then [HfPart(key, Some(context.renderPartial(RenderOptsFor(options, key))))] else []
  }

  predicate AllHfKeys(keys: seq<PartType>) {
    forall k :: 0 <= k < |keys| ==> IsHfKey(keys[k])
  }

  /** The options after the loop has visited `keys`. */
  function LayoutsDefaulted(options: Options, keys: seq<PartType>): Options
    requires AllHfKeys(keys)
    decreases |keys|
  {
    if keys == [] then options
    else LayoutDefaulted(LayoutsDefaulted(options, keys[..|keys| - 1]), keys[|keys| - 1])
  }

  /** The header/footer hash after the loop has visited `keys`, each read from the options as they then are. */
  function RenderedParts(options: Options, context: Context, keys: seq<PartType>): seq<HfPart>
    requires AllHfKeys(keys)
    decreases |keys|
  {
    if keys == [] then []
    else
      var init := keys[..|keys| - 1];
      RenderedParts(options, context, init) + RenderedPart(LayoutsDefaulted(options, init), context, keys[|keys| - 1])
  }

  const HfKeys: seq<PartType> := [Header, Footer]

  /** Defaulting one key's layout does not change what the other key renders. */
  lemma LayoutDefaultedKeepsOther(options: Options, key: PartType, other: PartType)
    requires IsHfKey(key) && IsHfKey(other) && key != other
    ensures OptionsFor(LayoutDefaulted(options, key), other) == OptionsFor(options, other)
  {
  }

  /**
   * The header/footer hash holds `:header` and then `:footer`, each exactly when its options
   * name a template, and no other key; each view is rendered with its template, a layout that
   * defaults to `false`, its formats and handlers, and its locals only when they were given.
   */
  lemma HeaderFooterParts(options: Options, context: Context)
    ensures AllHfKeys(HfKeys)
    ensures RenderedParts(options, context, HfKeys)
         == RenderedPart(options, context, Header) + RenderedPart(options, context, Footer)
    ensures var parts := RenderedParts(options, context, HfKeys);
      && (forall k :: 0 <= k < |parts| ==> IsHfKey(parts[k].kind))
      && (exists k :: 0 <= k < |parts| && parts[k].kind == Header) == Renders(options, Header)
      && (exists k :: 0 <= k < |parts| && parts[k].kind == Footer) == Renders(options, Footer)
      && (forall k :: 0 <= k < |parts| ==> parts[k] == HfPart(parts[k].kind,
            Some(context.renderPartial(RenderOptsFor(options, parts[k].kind)))))
  {
    var keys := HfKeys;
    assert keys[..1] == [Header] && keys[..1][..0] == [];
    LayoutDefaultedKeepsOther(options, Header, Footer);
    var parts := RenderedParts(options, context, keys);
    if Renders(options, Header) {
      assert parts[0].kind == Header;
    }
    if Renders(options, Footer) {
      assert parts[|parts| - 1].kind == Footer;
    }
  }

  /** The `:layout` a rendered view's options are left with is never nil. */
  lemma LayoutsDefaultToFalse(options: Options)
    ensures AllHfKeys(HfKeys)
    ensures var o := LayoutsDefaulted(options, HfKeys);
      && o == options.(header := o.header, footer := o.footer)
      && (Renders(options, Header) ==> var html := options.header.value.html.value;
            o.header == Some(HfOptions(Some(html.(layout := DefaultLayout(html.layout))))))
      && (Renders(options, Footer) ==> var html := options.footer.value.html.value;
            o.footer == Some(HfOptions(Some(html.(layout := DefaultLayout(html.layout))))))
      && (!Renders(options, Header) ==> o.header == options.header)
      && (!Renders(options, Footer) ==> o.footer == options.footer)
  {
    assert HfKeys[..1] == [Header] && HfKeys[..1][..0] == [];
  }

  /**
   * The header/footer hash the renderer builds has kinds with distinct letter-only names, none
   * of them `image`, so the media names of its parts never collide.
   */
  lemma RenderedKindsSeparate(options: Options, context: Context)
    ensures AllHfKeys(HfKeys)
    ensures SeparateKinds(RenderedParts(options, context, HfKeys))
  {
    HeaderFooterParts(options, context);
    var parts := RenderedParts(options, context, HfKeys);
    assert AllLetters("header") && AllLetters("footer");
    forall i, j | 0 <= i < j < |parts| ensures TypeName(parts[i].kind) != TypeName(parts[j].kind) {
      assert parts[i].kind == Header && parts[j].kind == Footer;
    }
  }

  // ---------------------------------------------------------------------------
  // The renderer object

  class Renderer {
    var wordTemplate: Option<string>
    var disposition: string
    var useExtras: bool
    var fileName: string
    const context: Context
    var content: string
    var headerFooter: seq<HfPart>
    /** The caller's options hash, which `define_template` and `prerender_header_footer` change. */
    var options: Options

    /** `initialize(context, filename, options)`. */
    constructor (context: Context, filename: string, options: Options)
      ensures this.context == context
      ensures wordTemplate == Presence(options.wordTemplate)
      ensures disposition == (if options.disposition.Some? then options.disposition.value else "attachment")
      ensures useExtras == (options.extras.Some? && options.extras.value)
      ensures fileName == FileNameAsWritten(filename, options)
      ensures '\n' !in ChosenName(filename, options) ==> fileName == FileName(filename, options)
      ensures var defined := TemplateDefined(options, filename, context.actionName);
        && content == (if options.content.Some? then options.content.value else context.renderToString(defined))
        && headerFooter == RenderedParts(defined, context, HfKeys)
        && this.options == LayoutsDefaulted(defined, HfKeys)
    {
      wordTemplate := Presence(options.wordTemplate);
      disposition := if options.disposition.Some? then options.disposition.value else "attachment";
      useExtras := if options.extras.Some? then options.extras.value else false;
      fileName := FileNameAsWritten(filename, options);
      if '\n' !in ChosenName(filename, options) {
        FileNameAsWrittenOnOneLine(filename, options);
      }
      this.context := context;
      this.options := options;
      content := "";
      headerFooter := [];
      new;
      DefineTemplate(filename);
      content := if this.options.content.Some? then this.options.content.value else context.renderToString(this.options);
      PrerenderHeaderFooter();
    }

    /** `define_template(filename, options)`. */
    method DefineTemplate(filename: string)
      modifies this
      ensures options == TemplateDefined(old(options), filename, context.actionName)
      ensures wordTemplate == old(wordTemplate) && disposition == old(disposition) && useExtras == old(useExtras)
      ensures fileName == old(fileName) && content == old(content) && headerFooter == old(headerFooter)
    {
      if options.template == Some(context.actionName) {
        var split := TemplateSplit(filename);
        if split.Some? {
          var prefixes := if options.prefixes.Some? then options.prefixes.value else [];
          options := options.(prefixes := Some(prefixes));
          prefixes := [split.value.0] + prefixes;
          options := options.(prefixes := Some(prefixes), template := Some(split.value.1));
        } else {
          options := options.(template := Some(filename));
        }
      }
    }

    /** `prerender_header_footer(options)`: one loop over `[:header, :footer]`. */
    method PrerenderHeaderFooter()
      modifies this
      ensures AllHfKeys(HfKeys)
      ensures headerFooter == RenderedParts(old(options), context, HfKeys)
      ensures options == LayoutsDefaulted(old(options), HfKeys)
      ensures wordTemplate == old(wordTemplate) && disposition == old(disposition) && useExtras == old(useExtras)
      ensures fileName == old(fileName) && content == old(content)
    {
      headerFooter := [];
      var keys := HfKeys;
      var i := 0;
      while i < |keys|
        invariant 0 <= i <= |keys|
        invariant headerFooter == RenderedParts(old(options), context, keys[..i])
        invariant options == LayoutsDefaulted(old(options), keys[..i])
        invariant wordTemplate == old(wordTemplate) && disposition == old(disposition) && useExtras == old(useExtras)
        invariant fileName == old(fileName) && content == old(content)
      {
        var key := keys[i];
        assert keys[..i + 1][..i] == keys[..i];
        var hf := if key == Header then options.header else options.footer;
        if hf.Some? && hf.value.html.Some? && hf.value.html.value.template.Some? {
          var html := hf.value.html.value;
          html := html.(layout := if html.layout.Named? then html.layout else Disabled);
          if key == Header {
            options := options.(header := Some(HfOptions(Some(html))));
          } else {
            options := options.(footer := Some(HfOptions(Some(html))));
          }
          var renderOpts := RenderOpts(html.template.value, html.layout, html.formats, html.handlers, None);
          if html.locals.Some? {
            renderOpts := renderOpts.(locals := html.locals);
          }
          headerFooter := headerFooter + [HfPart(key, Some(context.renderPartial(renderOpts)))];
        }
        i := i + 1;
      }
      assert keys[..|keys|] == keys;
    }
  }
}
