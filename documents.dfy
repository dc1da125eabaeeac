/** The practice-document helpers of js/utils.js: the constant catalogue, the lookup by id that
    `openDocument` runs over it, the download name `viewPdfInPage` gives a title, and the
    missing-feature list of `checkBrowserSupport`. */
module DocumentUtils {
  import opened Options
  import opened Seqs
  import opened JsText
  import PdfView

  /** One catalogue entry. */
  datatype Doc = Doc(id: string, title: string, path: string)

  /** A category of the catalogue object, by its key, with its entries in order. */
  datatype Category = Category(name: string, items: seq<Doc>)

  /** `getAvailableDocuments()`, its categories in key order. */
  const Catalogue: seq<Category> := [
    Category("word", [
      Doc("word-1", "Word Document 1", "docs/word-1.pdf"),
      Doc("word-2", "Word Document 2", "docs/word-2.pdf"),
      Doc("word-3", "Word Document 3", "docs/word-3.pdf"),
      Doc("word-4", "Word Document 4", "docs/word-4.pdf"),
      Doc("word-5", "Word Document 5", "docs/word-5.pdf"),
      Doc("word-6", "Word Document 6", "docs/word-6.pdf"),
      Doc("word-7", "Word Document 7", "docs/word-7.pdf")]),
    Category("excel", [
      Doc("excel-1", "Excel Document 1", "docs/Excel-1.pdf"),
      Doc("excel-2", "Excel Document 2", "docs/Excel-2.pdf"),
      Doc("excel-3", "Excel Document 3", "docs/Excel-3.pdf"),
      Doc("excel-4", "Excel Document 4", "docs/Excel-4.pdf")]),
    Category("powerpoint", [
      Doc("powerpoint-1", "PowerPoint Document 1", "docs/powerpoint-1.pdf"),
      Doc("powerpoint-2", "PowerPoint Document 2", "docs/powerpoint-2.pdf"),
      Doc("powerpoint-3", "PowerPoint Document 3", "docs/powerpoint-3.pdf"),
      Doc("powerpoint-4", "PowerPoint Document 4", "docs/powerpoint-4.pdf")])
  ]

  /** Every entry of every category, in scanning order. */
  function AllDocs(cats: seq<Category>): (r: seq<Doc>)
    ensures forall d :: d in r <==> exists k :: 0 <= k < |cats| && d in cats[k].items
  {
    if cats == [] then []
    else
      var r := cats[0].items + AllDocs(cats[1..]);
      assert forall k :: 1 <= k < |cats| ==> cats[k] == cats[1..][k - 1];
      r
  }

  predicate StartsWith(s: string, prefix: string)
  {
    |prefix| <= |s| && s[..|prefix|] == prefix
  }

  predicate EndsWith(s: string, suffix: string)
  {
    |suffix| <= |s| && s[|s| - |suffix|..] == suffix
  }

  /** A PDF under `docs/`. */
  predicate PathOk(d: Doc)
  {
    StartsWith(d.path, "docs/") && EndsWith(d.path, ".pdf")
  }

  /** No two entries of the catalogue share an id, and every path is a PDF under `docs/`. */
  lemma CatalogueWellFormed()
    ensures var docs := AllDocs(Catalogue);
      && |docs| == 15
      && (forall i, j :: 0 <= i < j < |docs| ==> docs[i].id != docs[j].id)
      && (forall d :: d in docs ==> PathOk(d))
  {
    var docs := AllDocs(Catalogue);
    CatalogueFlat();
    CatalogueTagsIncrease();
    TagsIncreasing(docs);
    PathsOk(0);
    PathsOk(1);
    PathsOk(2);
    forall d | d in docs ensures PathOk(d) {
      var c :| 0 <= c < 3 && d in Catalogue[c].items;
      var k :| 0 <= k < |Catalogue[c].items| && Catalogue[c].items[k] == d;
    }
  }

  lemma CatalogueFlat()
    ensures AllDocs(Catalogue) == Catalogue[0].items + Catalogue[1].items + Catalogue[2].items
  {
    assert Catalogue[1..][1..][1..] == [];
  }

  /** A number that tells the catalogue's ids apart: the id's length and its last character. */
  function Tag(d: Doc): int
  {
    if d.id == [] then 0 else |d.id| * 1000 + d.id[|d.id| - 1] as int
  }

  lemma CatalogueTagsIncrease()
    ensures var docs := AllDocs(Catalogue);
      |docs| == 15 && forall k :: 0 <= k < |docs| - 1 ==> Tag(docs[k]) < Tag(docs[k + 1])
  {
    CatalogueFlat();
  }

  lemma {:induction false} TagsIncreasing(s: seq<Doc>)
    requires forall k :: 0 <= k < |s| - 1 ==> Tag(s[k]) < Tag(s[k + 1])
    ensures forall i, j :: 0 <= i < j < |s| ==> Tag(s[i]) < Tag(s[j])
  {
    if |s| > 1 {
      var init := s[..|s| - 1];
      assert forall i :: 0 <= i < |init| ==> init[i] == s[i];
      TagsIncreasing(init);
      forall i | 0 <= i < |s| - 2 ensures Tag(s[i]) < Tag(s[|s| - 1]) {
        assert Tag(s[i]) < Tag(s[|s| - 2]);
      }
    }
  }

  lemma PathsOk(c: nat)
    requires c < |Catalogue|
    ensures forall k :: 0 <= k < |Catalogue[c].items| ==> PathOk(Catalogue[c].items[k])
  {
  }

  /** `category.find(item => item.id === docId)`: the first entry with that id. */
  function FindFirst(items: seq<Doc>, id: string): (r: Option<Doc>)
    ensures r.None? <==> forall k :: 0 <= k < |items| ==> items[k].id != id
    ensures r.Some? ==> r.value.id == id
    ensures r.Some? ==> exists k :: 0 <= k < |items| && items[k] == r.value && (forall j :: 0 <= j < k ==> items[j].id != id)
  {
    if items == [] then None
    else if items[0].id == id then Some(items[0])
    else
      var r := FindFirst(items[1..], id);
      assert forall k :: 1 <= k < |items| ==> items[k] == items[1..][k - 1];
      r
  }

  /** What the `forEach` over the categories leaves in `foundDoc`: each category with a match
      overwrites it, so the match of the last such category wins. */
  function LastMatch(cats: seq<Category>, id: string): Option<Doc>
  {
    if cats == [] then None
    else
      var here := FindFirst(cats[|cats| - 1].items, id);
      if here.Some? then here else LastMatch(cats[..|cats| - 1], id)
  }

  /** A document is found iff some category has an entry with the id. */
  lemma {:induction false} LastMatchSome(cats: seq<Category>, id: string)
    ensures LastMatch(cats, id).Some? <==> exists k :: 0 <= k < |cats| && FindFirst(cats[k].items, id).Some?
  {
    if cats != [] {
      var init := cats[..|cats| - 1];
      LastMatchSome(init, id);
      assert forall k :: 0 <= k < |init| ==> init[k] == cats[k];
    }
  }

  /** The document found has the id, and is the first match of the last category that has one. */
  lemma {:induction false} LastMatchWhich(cats: seq<Category>, id: string) returns (k: nat)
    requires LastMatch(cats, id).Some?
    ensures LastMatch(cats, id).value.id == id
    ensures k < |cats| && FindFirst(cats[k].items, id) == LastMatch(cats, id)
    ensures forall k' :: k < k' < |cats| ==> FindFirst(cats[k'].items, id).None?
  {
    var init := cats[..|cats| - 1];
    if FindFirst(cats[|cats| - 1].items, id).Some? {
      k := |cats| - 1;
    } else {
      k := LastMatchWhich(init, id);
      assert forall k' :: 0 <= k' < |init| ==> init[k'] == cats[k'];
    }
  }

  /** The search loop of `openDocument`. */
  method FindDocument(cats: seq<Category>, id: string) returns (found: Option<Doc>)
    ensures found == LastMatch(cats, id)
  {
    found := None;
    for k := 0 to |cats|
      invariant found == LastMatch(cats[..k], id)
    {
      var doc := FindFirst(cats[k].items, id);
      assert cats[..k + 1][..k] == cats[..k];
      if doc.Some? {
        found := doc;
      }
    }
    assert cats[..|cats|] == cats;
  }

  /** The title `window.loadPdf(path)` gives the viewer when called without one. */
  const DefaultTitle: string := "Document"

  /** `replace(/[^\w\s]/gi, '')`: only word characters and whitespace are kept. */
  predicate KeptInName(c: char)
  {
    IsWordChar(c) || IsSpace(c)
  }

  /** The download name `viewPdfInPage` installs for a title. */
  function ViewDownloadName(title: string): (name: string)
    ensures 4 <= |name| <= |title| + 4 && name[|name| - 4..] == ".pdf"
    ensures forall k :: 0 <= k < |name| - 4 ==> KeptInName(name[k])
    ensures name[..|name| - 4] == Filter(title, KeptInName)
  {
    Filter(title, KeptInName) + ".pdf"
  }

  /** The kept part is the title itself exactly when the title has nothing to drop, and building
      the name from its own kept part gives the same name. */
  lemma ViewDownloadNameFacts(title: string)
    ensures ViewDownloadName(title) == title + ".pdf" <==> forall k :: 0 <= k < |title| ==> KeptInName(title[k])
    ensures ViewDownloadName(Filter(title, KeptInName)) == ViewDownloadName(title)
  {
    FilterIdentity(title, KeptInName);
    FilterIdempotent(title, KeptInName);
    var stem := Filter(title, KeptInName);
    assert ViewDownloadName(title) == title + ".pdf" ==> stem == title by {
      if ViewDownloadName(title) == title + ".pdf" {
        assert stem == (stem + ".pdf")[..|stem|];
      }
    }
  }

  /** What `viewPdfInPage(path, title)` hands on: the viewer loads `path` under the default
      title, and the download button fetches `path` under the title's name. */
  datatype View = View(loadUrl: string, loadTitle: string, downloadHref: string, downloadName: string)

  function ViewPdfInPage(path: string, title: string): View
  {
    View(path, DefaultTitle, path, ViewDownloadName(title))
  }

  /** A click on the download button after `viewPdfInPage(path, title)` runs two handlers on the
      same path: the `onclick` installed here saves it under the title's kept characters, and the
      viewer's own listener saves it as `Document.pdf`, the viewer having been given no title. The
      two names agree exactly when the title's kept characters spell `Document`. */
  lemma ViewDownloadNames(path: string, title: string)
    ensures var v := ViewPdfInPage(path, title);
      && v.downloadHref == path && v.downloadName == ViewDownloadName(title)
      && PdfView.DownloadName(v.loadTitle) == DefaultTitle + ".pdf"
      && (v.downloadName == PdfView.DownloadName(v.loadTitle) <==> Filter(title, KeptInName) == DefaultTitle)
  {
    DefaultDownloadName();
    SameSuffixCancels(Filter(title, KeptInName), DefaultTitle, ".pdf");
  }

  /** The viewer's name for a document shown under the default title. */
  lemma DefaultDownloadName()
    ensures PdfView.DownloadName(DefaultTitle) == DefaultTitle + ".pdf"
  {
    PdfView.SanitizeIdentity(DefaultTitle);
  }

  lemma SameSuffixCancels(a: string, b: string, suffix: string)
    ensures a + suffix == b + suffix <==> a == b
  {
    if a + suffix == b + suffix {
      assert a == (a + suffix)[..|a|];
      assert b == (b + suffix)[..|b|];
    }
  }

  /** `openDocument(id)`: whether a document was found and, if so, what is opened. */
  method OpenDocument(id: string) returns (success: bool, shown: Option<View>)
    ensures success <==> exists k, j :: 0 <= k < |Catalogue| && 0 <= j < |Catalogue[k].items| && Catalogue[k].items[j].id == id
    ensures success <==> shown.Some?
    ensures success ==> exists d :: d in AllDocs(Catalogue) && d.id == id && shown == Some(ViewPdfInPage(d.path, d.title))
  {
    var found := FindDocument(Catalogue, id);
    FoundIsListed(Catalogue, id);
    if found.Some? {
      var d := found.value;
      return true, Some(ViewPdfInPage(d.path, d.title));
    }
    return false, None;
  }

  /** The search finds a document exactly when some category lists the id, and what it finds is
      a listed document with that id. */
  lemma FoundIsListed(cats: seq<Category>, id: string)
    ensures LastMatch(cats, id).Some? <==> exists k, j :: 0 <= k < |cats| && 0 <= j < |cats[k].items| && cats[k].items[j].id == id
    ensures LastMatch(cats, id).Some? ==> LastMatch(cats, id).value in AllDocs(cats) && LastMatch(cats, id).value.id == id
  {
    LastMatchSome(cats, id);
    HasEntryIffFound(cats, id);
    if LastMatch(cats, id).Some? {
      var k := LastMatchWhich(cats, id);
      assert LastMatch(cats, id).value in cats[k].items;
    }
  }

  lemma HasEntryIffFound(cats: seq<Category>, id: string)
    ensures (exists k, j :: 0 <= k < |cats| && 0 <= j < |cats[k].items| && cats[k].items[j].id == id)
        <==> exists k :: 0 <= k < |cats| && FindFirst(cats[k].items, id).Some?
  {
    if exists k :: 0 <= k < |cats| && FindFirst(cats[k].items, id).Some? {
      var k :| 0 <= k < |cats| && FindFirst(cats[k].items, id).Some?;
      var j :| 0 <= j < |cats[k].items| && cats[k].items[j] == FindFirst(cats[k].items, id).value;
    }
  }

  /** The feature flags `checkBrowserSupport` probes, in key order. */
  function Features(localStorage: bool, json: bool, fetch: bool): seq<(string, bool)>
  {
    [("localStorage", localStorage), ("json", json), ("fetch", fetch)]
  }

  /** `feature => !features[feature]`. */
  predicate IsAbsent(feature: (string, bool))
  {
    !feature.1
  }

  /** The keys of a list of flags, in order. */
  function Keys(features: seq<(string, bool)>): (r: seq<string>)
    ensures |r| == |features| && forall k :: 0 <= k < |features| ==> r[k] == features[k].0
  {
    if features == [] then [] else [features[0].0] + Keys(features[1..])
  }

  lemma KeysAppend(a: seq<(string, bool)>, b: seq<(string, bool)>)
    ensures Keys(a + b) == Keys(a) + Keys(b)
  {
    assert forall k :: 0 <= k < |a + b| ==> Keys(a + b)[k] == (Keys(a) + Keys(b))[k];
  }

  /** The keys whose flag is false, in key order. */
  function MissingFeatures(features: seq<(string, bool)>): (r: seq<string>)
    ensures |r| <= |features|
    ensures forall name :: name in r <==> exists k :: 0 <= k < |features| && features[k] == (name, false)
  {
    var missing := Filter(features, IsAbsent);
    var r := Keys(missing);
    forall name | name in r ensures exists k :: 0 <= k < |features| && features[k] == (name, false) {
      var i :| 0 <= i < |r| && r[i] == name;
      assert missing[i] in missing;
    }
    forall name | exists k :: 0 <= k < |features| && features[k] == (name, false) ensures name in r {
      var k :| 0 <= k < |features| && features[k] == (name, false);
      assert features[k] in missing;
      var i :| 0 <= i < |missing| && missing[i] == features[k];
      assert r[i] == name;
    }
    r
  }

  /** `checkBrowserSupport`: false exactly when some feature is missing. */
  function CheckBrowserSupport(localStorage: bool, json: bool, fetch: bool): (supported: bool)
    ensures supported <==> localStorage && json && fetch
  {
    var features := Features(localStorage, json, fetch);
    var missing := MissingFeatures(features);
    assert !localStorage ==> features[0] == ("localStorage", false) && "localStorage" in missing;
    assert !json ==> features[1] == ("json", false) && "json" in missing;
    assert !fetch ==> features[2] == ("fetch", false) && "fetch" in missing;
    assert localStorage && json && fetch ==> |missing| == 0 by {
      if |missing| > 0 {
        assert missing[0] in missing;
      }
    }
    |missing| == 0
  }

  /** The missing list names the absent features in key order. */
  lemma MissingInKeyOrder(localStorage: bool, json: bool, fetch: bool)
    ensures MissingFeatures(Features(localStorage, json, fetch))
         == (if localStorage then [] else ["localStorage"]) + (if json then [] else ["json"]) + (if fetch then [] else ["fetch"])
  {
    MissingOfThree(("localStorage", localStorage), ("json", json), ("fetch", fetch));
  }

  lemma MissingOfThree(a: (string, bool), b: (string, bool), c: (string, bool))
    ensures MissingFeatures([a, b, c]) == (if a.1 then [] else [a.0]) + (if b.1 then [] else [b.0]) + (if c.1 then [] else [c.0])
  {
    var x, y, z := (if a.1 then [] else [a.0]), (if b.1 then [] else [b.0]), (if c.1 then [] else [c.0]);
    MissingCons(c, []);
    assert [c] + [] == [c] && MissingFeatures([]) == [];
    MissingCons(b, [c]);
    assert [b] + [c] == [b, c];
    MissingCons(a, [b, c]);
    assert [a] + [b, c] == [a, b, c];
    AppendRegroup(x, y, z);
  }

  lemma AppendRegroup(x: seq<string>, y: seq<string>, z: seq<string>)
    ensures x + (y + (z + [])) == x + y + z
  {
    assert z + [] == z;
  }

  /** The first flag contributes its key exactly when it is false. */
  lemma MissingCons(f: (string, bool), rest: seq<(string, bool)>)
    ensures MissingFeatures([f] + rest) == (if f.1 then [] else [f.0]) + MissingFeatures(rest)
  {
    assert ([f] + rest)[1..] == rest;
    KeysAppend(if f.1 then [] else [f], Filter(rest, IsAbsent));
  }
}
