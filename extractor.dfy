/**
 * The extraction pipeline of index.ts lines 42-58: prune the noise elements,
 * select the content node, take its `textContent` and clean up whitespace.
 *
 * `Extract` is the pipeline as a function of the parsed document's tree;
 * `ExtractContent` runs it the way the source does, pruning the document
 * object in place first.
 */
module Extractor {
  import opened Wrappers
  import opened Dom
  import opened Pruning
  import opened Select
  import opened Cleanup
  import opened Errors
  import Arena

  /**
   * Lines 42-58 on the parsed document `doc`. The element `querySelector`
   * returns is never null-valued in `textContent`, so the `|| ""` of line 52
   * changes nothing.
   */
  function Extract(doc: seq<Node>): (r: Result<string, Error>)
    ensures r.Failure? ==> r.error == NoMainContent
    ensures r.Success? ==> IsNormalized(r.value) && '\n' !in r.value
  {
    match SelectContentNode(Prune(doc))
    case None => Failure(NoMainContent)
    case Some(n) => Success(Normalize(TextContent(n)))
  }

  /** Lines 42-58 on the document object, which loses its noise elements on the way. */
  method ExtractContent(doc: Arena.Document) returns (r: Result<string, Error>)
    requires doc.Valid()
    modifies doc
    ensures doc.Valid() && doc.View() == Prune(old(doc.View()))
    ensures r == Extract(old(doc.View()))
  {
    doc.RemoveNoise();
    var article := SelectContentNode(doc.View());
    if article.None? {
      return Failure(NoMainContent);
    }
    var content := TextContent(article.value);
    content := Normalize(content);
    r := Success(content);
  }

  // ---------------------------------------------------------------------------

  /**
   * Extraction fails, and then always with "Could not find main content",
   * exactly when the pruned document has no `article`, `main` or `body`.
   */
  lemma ExtractFailsOnlyWithoutContentNode(doc: seq<Node>)
    ensures Extract(doc).Failure? <==>
      var f := Prune(doc); !Occurs(f, "article") && !Occurs(f, "main") && !Occurs(f, "body")
    ensures Extract(doc).Failure? ==> Extract(doc).error == NoMainContent
  {
    SelectionPriority(Prune(doc));
  }

  /**
   * The text comes from the first `article` of the pruned document in tree
   * order, failing that its first `main`, failing that its first `body`.
   */
  lemma ExtractSelectsByPriority(doc: seq<Node>)
    ensures var f := Prune(doc); Occurs(f, "article") ==>
      exists n :: IsFirstInTreeOrder(f, "article", n) && Extract(doc) == Success(Normalize(TextContent(n)))
    ensures var f := Prune(doc); !Occurs(f, "article") && Occurs(f, "main") ==>
      exists n :: IsFirstInTreeOrder(f, "main", n) && Extract(doc) == Success(Normalize(TextContent(n)))
    ensures var f := Prune(doc); !Occurs(f, "article") && !Occurs(f, "main") && Occurs(f, "body") ==>
      exists n :: IsFirstInTreeOrder(f, "body", n) && Extract(doc) == Success(Normalize(TextContent(n)))
  {
    var f := Prune(doc);
    SelectionPriority(f);
    if SelectContentNode(f).Some? {
      var n := SelectContentNode(f).value;
      assert Extract(doc) == Success(Normalize(TextContent(n)));
    }
  }

  /**
   * The content node is an element that is not itself a `script`, `style`,
   * `nav`, `footer` or `aside` element, nothing under it is one, and the
   * collected text is the data of the text nodes under it in tree order.
   */
  lemma ExtractedTextAvoidsNoise(doc: seq<Node>)
    ensures SelectContentNode(Prune(doc)).Some? ==>
      var n := SelectContentNode(Prune(doc)).value;
      && n.Element?
      && !IsNoise(n)
      && NoNoise(n.children)
      && TextContent(n) == TextOf(Preorder(n.children))
  {
    var f := Prune(doc);
    if SelectContentNode(f).Some? {
      var n := SelectContentNode(f).value;
      SelectedNodeIsInDocument(f);
      PruneRemovesNoise(doc);
      DescendantTextInTreeOrder(n.children);
    }
  }

  /**
   * The content node lies outside every noise element of the original
   * document: its position in the pruned tree's tree order is a visit of the
   * original document on which neither the node nor any of its ancestors is a
   * `script`, `style`, `nav`, `footer` or `aside` element.
   */
  lemma SelectedOutsideNoise(doc: seq<Node>)
    ensures SelectContentNode(Prune(doc)).Some? ==>
      var f := Prune(doc);
      exists i :: 0 <= i < |Preorder(f)| && Preorder(f)[i] == SelectContentNode(f).value
        && i < |Visits(f, [])| && Visits(f, [])[i].item == LabelOf(SelectContentNode(f).value)
        && Visits(f, [])[i] in Surviving(Visits(doc, []))
        && Survives(Visits(f, [])[i])
  {
    var f := Prune(doc);
    if SelectContentNode(f).Some? {
      var n := SelectContentNode(f).value;
      SelectedNodeIsInDocument(f);
      var i :| 0 <= i < |Preorder(f)| && Preorder(f)[i] == n;
      VisitsFollowTreeOrder(f, []);
      PruneKeepsTheRest(doc, []);
      SurvivingSurvives(Visits(doc, []));
      assert Visits(f, [])[i] in Surviving(Visits(doc, []));
    }
  }

  /** Whatever lies inside the noise elements, the result is the same. */
  lemma ExtractIgnoresNoise(doc: seq<Node>, other: seq<Node>)
    requires SameOutsideNoise(doc, other)
    ensures Extract(doc) == Extract(other)
  {
    PruneIgnoresNoiseContent(doc, other);
  }

  /**
   * A successful result is in canonical form (no leading, trailing or
   * repeated whitespace, no whitespace but U+0020, hence no newline), is the
   * words of the collected text joined by single spaces, and keeps every
   * non-whitespace character of that text in order.
   */
  lemma ExtractedTextIsNormalized(doc: seq<Node>)
    ensures Extract(doc).Success? ==>
      var text := TextContent(SelectContentNode(Prune(doc)).value);
      var r := Extract(doc).value;
      && IsNormalized(r)
      && '\n' !in r
      && r == JoinWords(Words(text))
      && RemoveWs(r) == RemoveWs(text)
  {
    if Extract(doc).Success? {
      var text := TextContent(SelectContentNode(Prune(doc)).value);
      NormalizeIsJoinedWords(text);
      NormalizeKeepsContent(text);
    }
  }

  /** A content node without text gives the empty string, not an error. */
  lemma ExtractBlank(doc: seq<Node>)
    ensures SelectContentNode(Prune(doc)).Some? ==>
      (Extract(doc) == Success([]) <==> RemoveWs(TextContent(SelectContentNode(Prune(doc)).value)) == [])
  {
    if SelectContentNode(Prune(doc)).Some? {
      NormalizeBlank(TextContent(SelectContentNode(Prune(doc)).value));
    }
  }

  /** Extracting from an already pruned document changes nothing: pruning twice is pruning once. */
  lemma ExtractAfterPrune(doc: seq<Node>)
    ensures Extract(Prune(doc)) == Extract(doc)
  {
    PruneIdempotent(doc);
  }

  /**
   * An example of `SelectedOutsideNoise`: the page's only `article` is an
   * advertisement inside the sidebar `aside`, so the `main` is read instead,
   * although the unpruned page would have given the advertisement.
   */
  lemma ArticleInsideAsideIsNotSelected()
    ensures var ad := Element("article", [Text("ad")]);
      var doc := [Element("html", [Element("body", [
        Element("aside", [ad]),
        Element("main", [Text("Hi")])])])];
      && SelectContentNode(doc) == Some(ad)
      && Extract(doc) == Success("Hi")
  {
    var main := Element("main", [Text("Hi")]);
    SidebarPageSelection();
    assert TextContent(main) == "Hi" by {
      assert [Text("Hi")][1..] == [];
    }
    assert IsNormalized("Hi");
    NormalizeFixedPoints("Hi");
  }

  /** The selection half of `ArticleInsideAsideIsNotSelected`. */
  lemma SidebarPageSelection()
    ensures var ad := Element("article", [Text("ad")]);
      var main := Element("main", [Text("Hi")]);
      var doc := [Element("html", [Element("body", [Element("aside", [ad]), main])])];
      && SelectContentNode(doc) == Some(ad)
      && SelectContentNode(Prune(doc)) == Some(main)
  {
    var ad := Element("article", [Text("ad")]);
    var main := Element("main", [Text("Hi")]);
    var doc := [Element("html", [Element("body", [Element("aside", [ad]), main])])];
    var hi := [Text("Hi")];
    var body := Element("body", [main]);
    var pruned := [Element("html", [body])];
    assert hi[1..] == [] && [main][1..] == [] && [body][1..] == [] && doc[1..] == [];
    assert Prune(hi) == hi;
    assert Prune([main]) == [main];
    assert Prune([Element("aside", [ad]), main]) == [main] by {
      PruneCons(Element("aside", [ad]), [main]);
    }
    assert Prune(doc[0].children) == [body];
    assert Prune(doc) == pruned;
    assert QuerySelector(hi, "article") == None;
    assert QuerySelector([main], "article") == None;
    assert QuerySelector([body], "article") == None;
    assert QuerySelector(pruned, "article") == None;
    assert QuerySelector([body], "main") == Some(main);
    assert QuerySelector(pruned, "main") == Some(main);
    assert QuerySelector(doc, "article") == Some(ad) by {
      assert QuerySelector([Element("aside", [ad]), main], "article") == Some(ad);
    }
  }
}
