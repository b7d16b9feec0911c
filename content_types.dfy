/**
 * The content-types patcher (`inject_image_content_types`, `content_type_from_extension`): the
 * `[Content_Types].xml` stream of an Open Packaging Conventions package (ECMA-376 Part 2,
 * section 10.1.2) declares a `Default` content type per file extension and an `Override` per
 * part. Every image extension the document needs and the stream does not yet declare gets one
 * new `Default` element, appended after the existing children of `Types`.
 */
module ContentTypes {

  /** A child of the `Types` root element. */
  datatype TypeNode =
    | Default(extension: string, contentType: string)
    | Override(partName: string, contentType: string)

  predicate Distinct(s: seq<string>) {
    forall i, j :: 0 <= i < j < |s| ==> s[i] != s[j]
  }

  /**
   * `content_type_from_extension`: the MIME subtype of an image extension; `jpg` files are
   * `image/jpeg`, every other extension names its own subtype.
   */
  function ContentTypeFromExtension(ext: string): (r: string)
    ensures r != ext <==> ext == "jpg"
    ensures ext == "jpg" ==> r == "jpeg"
    ensures r == "jpeg" <==> ext == "jpg" || ext == "jpeg"
  {
    if ext == "jpg" then "jpeg" else ext
  }

  /** The `Default` element declared for a missing extension. */
  function DefaultFor(ext: string): TypeNode {
    Default(ext, "image/" + ContentTypeFromExtension(ext))
  }

  function DefaultsFor(exts: seq<string>): (r: seq<TypeNode>)
    ensures |r| == |exts|
    ensures forall k :: 0 <= k < |exts| ==> r[k] == DefaultFor(exts[k])
  {
    seq(|exts|, k requires 0 <= k < |exts| => DefaultFor(exts[k]))
  }

  /** `doc.css("Default").map { |node| node.attribute("Extension").value }`, in document order. */
  function Extensions(nodes: seq<TypeNode>): (r: seq<string>)
    ensures |r| <= |nodes|
    ensures forall e :: e in r <==> exists k :: 0 <= k < |nodes| && nodes[k] == Default(e, nodes[k].contentType)
  {
    if nodes == [] then []
    else
      var rest := Extensions(nodes[1..]);
      assert forall k :: 1 <= k < |nodes| ==> nodes[k] == nodes[1..][k - 1];
      if nodes[0].Default? then [nodes[0].extension] + rest else rest
  }

  /** Ruby's `Array#-`: the elements of `a` that do not occur in `b`, in the order of `a`. */
  function Difference(a: seq<string>, b: seq<string>): (r: seq<string>)
    ensures |r| <= |a|
    ensures forall x :: x in r <==> x in a && x !in b
  {
    if a == [] then []
    else if a[0] in b then Difference(a[1..], b)
    else [a[0]] + Difference(a[1..], b)
  }

  /** Ruby's `Array#uniq` after the elements of `seen`: the first occurrence of each, in order. */
  function UniqAfter(s: seq<string>, seen: set<string>): (r: seq<string>)
    ensures Distinct(r)
    ensures forall x :: x in r <==> x in s && x !in seen
  {
    if s == [] then []
    else if s[0] in seen then UniqAfter(s[1..], seen)
    else
      var rest := UniqAfter(s[1..], seen + {s[0]});
      assert s[0] !in rest;
      [s[0]] + rest
  }

  function Uniq(s: seq<string>): seq<string> {
    UniqAfter(s, {})
  }

  /**
   * A reference definition of `uniq`, read from the end: the last element is kept exactly when
   * it does not occur earlier (or in `seen`).
   */
  function FirstOccurrencesAfter(s: seq<string>, seen: set<string>): seq<string> {
    if s == [] then []
    else
      var init := s[..|s| - 1];
      FirstOccurrencesAfter(init, seen) + (if s[|s| - 1] in init || s[|s| - 1] in seen then [] else [s[|s| - 1]])
  }

  lemma {:induction false} UniqAfterSnoc(s: seq<string>, x: string, seen: set<string>)
    ensures UniqAfter(s + [x], seen) == UniqAfter(s, seen) + (if x in s || x in seen then [] else [x])
    decreases |s|
  {
    if s == [] {
      assert s + [x] == [x];
      assert [x][1..] == [];
    } else {
      var h, t := s[0], s[1..];
      assert s == [h] + t;
      assert (s + [x])[0] == h;
      assert (s + [x])[1..] == t + [x];
      assert x in s <==> x == h || x in t;
      if h in seen {
        UniqAfterSnoc(t, x, seen);
      } else {
        UniqAfterSnoc(t, x, seen + {h});
        calc {
          UniqAfter(s + [x], seen);
          [h] + UniqAfter(t + [x], seen + {h});
          [h] + (UniqAfter(t, seen + {h}) + (if x in t || x in seen + {h} then [] else [x]));
          ([h] + UniqAfter(t, seen + {h})) + (if x in s || x in seen then [] else [x]);
        }
      }
    }
  }

  /** `uniq` keeps exactly the first occurrence of every element, in the order of the input. */
  lemma {:induction false} UniqIsFirstOccurrences(s: seq<string>, seen: set<string>)
    ensures UniqAfter(s, seen) == FirstOccurrencesAfter(s, seen)
    decreases |s|
  {
    if s != [] {
      var init := s[..|s| - 1];
      assert s == init + [s[|s| - 1]];
      UniqIsFirstOccurrences(init, seen);
      UniqAfterSnoc(init, s[|s| - 1], seen);
    }
  }

  /** `missing_exts = (required_exts - existing_exts).uniq`. */
  function MissingExtensions(existing: seq<string>, required: seq<string>): (r: seq<string>)
    ensures Distinct(r)
    ensures forall x :: x in r <==> x in required && x !in existing
  {
    Uniq(Difference(required, existing))
  }

  /** The children of `Types` after one `add_child` per missing extension. */
  function PatchTypes(nodes: seq<TypeNode>, required: seq<string>): seq<TypeNode> {
    nodes + DefaultsFor(MissingExtensions(Extensions(nodes), required))
  }

  // ---------------------------------------------------------------------------
  // Properties

  lemma {:induction false} ExtensionsAppend(a: seq<TypeNode>, b: seq<TypeNode>)
    ensures Extensions(a + b) == Extensions(a) + Extensions(b)
    decreases |a|
  {
    if a == [] {
      assert a + b == b;
    } else {
      assert (a + b)[0] == a[0];
      assert (a + b)[1..] == a[1..] + b;
      ExtensionsAppend(a[1..], b);
    }
  }

  lemma {:induction false} ExtensionsOfDefaults(exts: seq<string>)
    ensures Extensions(DefaultsFor(exts)) == exts
    decreases |exts|
  {
    if exts != [] {
      assert DefaultsFor(exts)[1..] == DefaultsFor(exts[1..]);
      ExtensionsOfDefaults(exts[1..]);
    }
  }

  /** `Array#-` on a concatenation: each part loses its elements in `c`, the order is kept. */
  lemma {:induction false} DifferenceAppend(a: seq<string>, b: seq<string>, c: seq<string>)
    ensures Difference(a + b, c) == Difference(a, c) + Difference(b, c)
    decreases |a|
  {
    if a == [] {
      assert a + b == b;
    } else {
      assert (a + b)[0] == a[0];
      assert (a + b)[1..] == a[1..] + b;
      DifferenceAppend(a[1..], b, c);
    }
  }

  /** A single element is kept exactly when it does not occur in `c`. */
  lemma DifferenceOne(x: string, c: seq<string>)
    ensures Difference([x], c) == if x in c then [] else [x]
  {
    assert [x][1..] == [];
  }

  /** Taking away a list that covers `a` leaves nothing. */
  lemma {:induction false} DifferenceOfCovered(a: seq<string>, b: seq<string>)
    requires forall x :: x in a ==> x in b
    ensures Difference(a, b) == []
    decreases |a|
  {
    if a != [] {
      assert a[0] in a;
      DifferenceOfCovered(a[1..], b);
    }
  }

  /** The extensions the patched stream declares: the old ones, then the missing ones. */
  lemma PatchedExtensions(nodes: seq<TypeNode>, required: seq<string>)
    ensures Extensions(PatchTypes(nodes, required))
         == Extensions(nodes) + MissingExtensions(Extensions(nodes), required)
  {
    var missing := MissingExtensions(Extensions(nodes), required);
    ExtensionsAppend(nodes, DefaultsFor(missing));
    ExtensionsOfDefaults(missing);
  }

  /**
   * The patch keeps every existing child and appends, after them, exactly one `Default` per
   * required extension the stream did not declare: no extension twice, no extension that was
   * declared or not required, and the content type `image/jpeg` for `jpg`, `image/<ext>`
   * otherwise.
   */
  lemma PatchAppendsMissingDefaults(nodes: seq<TypeNode>, required: seq<string>)
    ensures var r := PatchTypes(nodes, required);
      && |nodes| <= |r|
      && r[..|nodes|] == nodes
      && (forall k :: |nodes| <= k < |r| ==>
            && r[k].Default?
            && r[k].extension in required
            && r[k].extension !in Extensions(nodes)
            && r[k].contentType == (if r[k].extension == "jpg" then "image/jpeg" else "image/" + r[k].extension))
      && (forall i, j :: |nodes| <= i < j < |r| ==> r[i].extension != r[j].extension)
      && (forall e :: e in required && e !in Extensions(nodes) ==>
            exists k :: |nodes| <= k < |r| && r[k] == DefaultFor(e))
  {
    var missing := MissingExtensions(Extensions(nodes), required);
    var added := DefaultsFor(missing);
    var r := PatchTypes(nodes, required);
    assert r == nodes + added;
    assert r[..|nodes|] == nodes;
    forall k | |nodes| <= k < |r|
      ensures && r[k].Default?
              && r[k].extension in required
              && r[k].extension !in Extensions(nodes)
              && r[k].contentType == (if r[k].extension == "jpg" then "image/jpeg" else "image/" + r[k].extension)
    {
      AddedNode(nodes, required, k);
    }
    AddedDistinct(nodes, required);
    AddedCoverMissing(nodes, required);
  }

  /** No two appended children declare the same extension. */
  lemma AddedDistinct(nodes: seq<TypeNode>, required: seq<string>)
    ensures var r := PatchTypes(nodes, required);
      forall i, j :: |nodes| <= i < j < |r| ==> r[i].extension != r[j].extension
  {
    var missing := MissingExtensions(Extensions(nodes), required);
    var added := DefaultsFor(missing);
    var r := PatchTypes(nodes, required);
    forall i, j | |nodes| <= i < j < |r| ensures r[i].extension != r[j].extension {
      assert r[i] == added[i - |nodes|] && r[j] == added[j - |nodes|];
      assert missing[i - |nodes|] != missing[j - |nodes|];
    }
  }

  /** Every required extension that was not declared gets an appended `Default`. */
  lemma AddedCoverMissing(nodes: seq<TypeNode>, required: seq<string>)
    ensures var r := PatchTypes(nodes, required);
      forall e :: e in required && e !in Extensions(nodes) ==>
        exists k :: |nodes| <= k < |r| && r[k] == DefaultFor(e)
  {
    var missing := MissingExtensions(Extensions(nodes), required);
    var added := DefaultsFor(missing);
    var r := PatchTypes(nodes, required);
    forall e | e in required && e !in Extensions(nodes)
      ensures exists k :: |nodes| <= k < |r| && r[k] == DefaultFor(e)
    {
      var m :| 0 <= m < |missing| && missing[m] == e;
      assert r[|nodes| + m] == added[m] == DefaultFor(e);
    }
  }

  /** The `k`-th child of the patched stream, past the existing ones. */
  lemma AddedNode(nodes: seq<TypeNode>, required: seq<string>, k: nat)
    requires |nodes| <= k < |PatchTypes(nodes, required)|
    ensures var n := PatchTypes(nodes, required)[k];
      && n.Default?
      && n.extension in required
      && n.extension !in Extensions(nodes)
      && n.contentType == (if n.extension == "jpg" then "image/jpeg" else "image/" + n.extension)
  {
    var missing := MissingExtensions(Extensions(nodes), required);
    var e := missing[k - |nodes|];
    assert PatchTypes(nodes, required)[k] == DefaultFor(e);
    assert e in missing;
    assert "image/" + "jpeg" == "image/jpeg";
  }

  /** After the patch every required extension is declared. */
  lemma PatchDeclaresRequired(nodes: seq<TypeNode>, required: seq<string>)
    ensures forall e :: e in required ==> e in Extensions(PatchTypes(nodes, required))
  {
    PatchedExtensions(nodes, required);
  }

  /** Patching a patched stream again adds nothing. */
  lemma PatchIdempotent(nodes: seq<TypeNode>, required: seq<string>)
    ensures PatchTypes(PatchTypes(nodes, required), required) == PatchTypes(nodes, required)
  {
    var r := PatchTypes(nodes, required);
    PatchDeclaresRequired(nodes, required);
    DifferenceOfCovered(required, Extensions(r));
    assert MissingExtensions(Extensions(r), required) == [];
    assert r + [] == r;
  }

  /** A stream that declares each extension once still does so after the patch. */
  lemma PatchKeepsDeclarationsDistinct(nodes: seq<TypeNode>, required: seq<string>)
    requires Distinct(Extensions(nodes))
    ensures Distinct(Extensions(PatchTypes(nodes, required)))
  {
    var old_ := Extensions(nodes);
    var missing := MissingExtensions(old_, required);
    PatchedExtensions(nodes, required);
    var all := old_ + missing;
    forall i, j | 0 <= i < j < |all| ensures all[i] != all[j] {
      if j >= |old_| && i < |old_| {
        assert all[j] == missing[j - |old_|];
        assert all[i] in old_;
      } else if i >= |old_| {
        assert all[i] == missing[i - |old_|] && all[j] == missing[j - |old_|];
      }
    }
  }
}
