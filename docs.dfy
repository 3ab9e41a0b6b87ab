/** Documentation as a map from function name to its one-line purpose,
    filled from the reference pages and copied onto a package's functions
    (docs.go). */
module Docs {
  import opened Text
  import opened Packages

  /** The part of a reference page that is read: its purpose and the names
      of the functions it documents. */
  datatype XmlDoc = XmlDoc(purpose: string, names: seq<string>)

  /** The purpose text with every line break turned into a space, leaving
      line wrapping to the templates. */
  function OneLine(doc: string): (r: string)
    ensures |r| == |doc| && '\n' !in r
    ensures forall i :: 0 <= i < |doc| ==> r[i] == if doc[i] == '\n' then ' ' else doc[i]
  {
    ReplaceChar(doc, '\n', " ")
  }

  /** The functions after AddDocs: a function whose name has an entry gets
      that entry as its documentation; nothing else changes. */
  function Documented(d: map<string, string>, fns: map<string, PackageFunction>): (r: map<string, PackageFunction>)
    ensures r.Keys == fns.Keys
    ensures forall k :: k in r ==> r[k].fn == fns[k].fn && r[k].required == fns[k].required
    ensures forall k :: k in r && fns[k].fn.name !in d ==> r[k] == fns[k]
  {
    map k | k in fns :: if fns[k].fn.name in d then fns[k].(doc := OneLine(d[fns[k].fn.name])) else fns[k]
  }

  /** AddDocs: sets the documentation of every function of `pkg` that has
      an entry. */
  method AddDocs(d: map<string, string>, pkg: Package)
    modifies pkg
    ensures pkg.functions == Documented(d, old(pkg.functions))
    ensures pkg.name == old(pkg.name) && pkg.api == old(pkg.api) && pkg.version == old(pkg.version)
    ensures pkg.profile == old(pkg.profile) && pkg.tmplDir == old(pkg.tmplDir)
    ensures pkg.typedefs == old(pkg.typedefs) && pkg.enums == old(pkg.enums)
  {
    var fns := DocumentAll(d, pkg.functions);
    pkg.functions := fns;
  }

  /** The functions with the keys in `todo` not yet documented. */
  ghost function PartlyDocumented(d: map<string, string>, fns: map<string, PackageFunction>, todo: set<string>): map<string, PackageFunction> {
    map k | k in fns :: if k in todo then fns[k] else Documented(d, fns)[k]
  }

  /** A key still to do is there with its old entry. */
  lemma PartlyDocumentedTodo(d: map<string, string>, fns: map<string, PackageFunction>, todo: set<string>, k: string)
    requires todo <= fns.Keys && k in todo
    ensures k in PartlyDocumented(d, fns, todo) && PartlyDocumented(d, fns, todo)[k] == fns[k]
  {
  }

  /** Documenting one key still to do moves it out of `todo`. */
  lemma PartlyDocumentedStep(d: map<string, string>, fns: map<string, PackageFunction>, todo: set<string>, k: string)
    requires todo <= fns.Keys && k in todo
    ensures PartlyDocumented(d, fns, todo)[k := Documented(d, fns)[k]] == PartlyDocumented(d, fns, todo - {k})
  {
  }

  /** Nothing to do is everything documented; everything to do is nothing
      changed. */
  lemma PartlyDocumentedEnds(d: map<string, string>, fns: map<string, PackageFunction>)
    ensures PartlyDocumented(d, fns, {}) == Documented(d, fns)
    ensures PartlyDocumented(d, fns, fns.Keys) == fns
  {
  }

  /** The loop of AddDocs, one function at a time in no fixed order. */
  method DocumentAll(d: map<string, string>, fns: map<string, PackageFunction>) returns (r: map<string, PackageFunction>)
    ensures r == Documented(d, fns)
  {
    r := fns;
    PartlyDocumentedEnds(d, fns);
    var names := fns.Keys;
    while names != {}
      invariant names <= fns.Keys
      invariant r == PartlyDocumented(d, fns, names)
      decreases names
    {
      var k :| k in names;
      PartlyDocumentedTodo(d, fns, names, k);
      var f := r[k];
      if f.fn.name in d {
        r := r[k := f.(doc := OneLine(d[f.fn.name]))];
      }
      PartlyDocumentedStep(d, fns, names, k);
      names := names - {k};
    }
  }

  /** A documented function's text has no line break and is as long as its
      entry, character for character except for the breaks. */
  lemma DocumentedText(d: map<string, string>, fns: map<string, PackageFunction>, k: string)
    requires k in fns && fns[k].fn.name in d
    ensures '\n' !in Documented(d, fns)[k].doc
    ensures |Documented(d, fns)[k].doc| == |d[fns[k].fn.name]|
  {
  }

  /** Adding the same documentation twice is adding it once. */
  lemma DocumentedIdempotent(d: map<string, string>, fns: map<string, PackageFunction>)
    ensures Documented(d, Documented(d, fns)) == Documented(d, fns)
  {
  }

  // ---------------------------------------------------------------------
  // Filling the map

  /** The entries one page contributes. */
  function PageEntries(x: XmlDoc): map<string, string> {
    Entries(x.names, x.purpose)
  }

  /** Every name mapped to the same text. */
  function Entries(names: seq<string>, text: string): map<string, string> {
    map n | n in names :: text
  }

  /** The documentation after reading `docs` in order: later pages override
      earlier ones. */
  function FillSpec(docs: seq<XmlDoc>): map<string, string> {
    if |docs| == 0 then map[] else FillSpec(docs[..|docs| - 1]) + PageEntries(docs[|docs| - 1])
  }

  /** The name-to-purpose fill loop of NewDocumentation, over pages already
      read. */
  method Fill(docs: seq<XmlDoc>) returns (documentation: map<string, string>)
    ensures documentation == FillSpec(docs)
  {
    documentation := map[];
    var i := 0;
    while i < |docs|
      invariant 0 <= i <= |docs|
      invariant documentation == FillSpec(docs[..i])
    {
      FillSpecSnoc(docs, i);
      documentation := AddPage(documentation, docs[i]);
      i := i + 1;
    }
    TakeAll(docs);
  }

  /** One more page read: the documentation of the longer prefix is the
      shorter one's with that page's entries on top. */
  lemma FillSpecSnoc(docs: seq<XmlDoc>, i: nat)
    requires i < |docs|
    ensures FillSpec(docs[..i + 1]) == FillSpec(docs[..i]) + PageEntries(docs[i])
  {
    assert docs[..i + 1][..i] == docs[..i];
  }

  /** The entries of a page whose first names are stored, one more name
      stored. */
  lemma PageEntriesSnoc(m: map<string, string>, x: XmlDoc, j: nat)
    requires j < |x.names|
    ensures m + Entries(x.names[..j + 1], x.purpose) == (m + Entries(x.names[..j], x.purpose))[x.names[j] := x.purpose]
  {
    TakeSnoc(x.names, j);
  }

  /** The inner loop of the fill: every name of one page gets its purpose. */
  method AddPage(m: map<string, string>, x: XmlDoc) returns (r: map<string, string>)
    ensures r == m + PageEntries(x)
  {
    r := m;
    var j := 0;
    while j < |x.names|
      invariant 0 <= j <= |x.names|
      invariant r == m + Entries(x.names[..j], x.purpose)
    {
      PageEntriesSnoc(m, x, j);
      r := r[x.names[j] := x.purpose];
      j := j + 1;
    }
    TakeAll(x.names);
  }

  /** A name has documentation exactly when some page lists it. */
  lemma {:induction false} FillSpecKeys(docs: seq<XmlDoc>, name: string)
    ensures name in FillSpec(docs) <==> exists i :: 0 <= i < |docs| && name in docs[i].names
    decreases |docs|
  {
    if |docs| > 0 {
      var init := docs[..|docs| - 1];
      FillSpecKeys(init, name);
      if name in FillSpec(init) {
        var i :| 0 <= i < |init| && name in init[i].names;
        assert docs[i] == init[i];
      }
      if i :| 0 <= i < |docs| - 1 && name in docs[i].names {
        assert init[i] == docs[i];
      }
    }
  }

  /** The documentation of a name is the purpose of the last page that
      lists it. */
  lemma {:induction false} FillSpecLastWins(docs: seq<XmlDoc>, name: string, i: nat)
    requires i < |docs| && name in docs[i].names
    requires forall k :: i < k < |docs| ==> name !in docs[k].names
    ensures name in FillSpec(docs) && FillSpec(docs)[name] == docs[i].purpose
    decreases |docs|
  {
    if i < |docs| - 1 {
      var init := docs[..|docs| - 1];
      assert init[i] == docs[i];
      FillSpecLastWins(init, name, i);
    }
  }
}
