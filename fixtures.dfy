/** Equalities between string literals that the Fixtures lemmas use, in a module without imports so they verify quickly. */
module FixtureTexts {
  /** The attribute text of class="bold". */
  lemma ClassAttrText()
    ensures " " + "class" + "=\"" + "bold" + "\""
            == " class=\"bold\""
  {
  }

  /** The attribute text of id="test". */
  lemma IdAttrText()
    ensures " " + "id" + "=\"" + "test" + "\""
            == " id=\"test\""
  {
  }

  /** The two attribute texts in insertion order. */
  lemma TwoAttrsText()
    ensures " class=\"bold\"" + (" id=\"test\"" + "")
            == " class=\"bold\" id=\"test\""
  {
  }

  /** The open tag of a bold paragraph. */
  lemma BoldOpenTagText()
    ensures "<" + "p" + " class=\"bold\"" + ">"
            == "<p class=\"bold\">"
  {
  }

  /** A leaf p around test, without props. */
  lemma PlainLeafText()
    ensures "<" + "p" + "" + ">" + "test" + "</" + "p" + ">"
            == "<p>test</p>"
  {
  }

  /** A leaf p around test, with class="bold". */
  lemma BoldLeafText()
    ensures "<" + "p" + " class=\"bold\"" + ">" + "test" + "</" + "p" + ">"
            == "<p class=\"bold\">test</p>"
  {
  }

  /** An empty paragraph without props. */
  lemma EmptyParagraphText()
    ensures "<" + "p" + "" + "></" + "p" + ">"
            == "<p></p>"
  {
  }

  /** An empty paragraph with class="bold". */
  lemma EmptyBoldParagraphText()
    ensures "<" + "p" + " class=\"bold\"" + "></" + "p" + ">"
            == "<p class=\"bold\"></p>"
  {
  }

  /** An empty d element. */
  lemma EmptyDivisionText()
    ensures "<" + "d" + "" + "></" + "d" + ">"
            == "<d></d>"
  {
  }

  /** A bold paragraph around test. */
  lemma BoldTestText()
    ensures "<p class=\"bold\">" + "test" + "</p>"
            == "<p class=\"bold\">test</p>"
  {
  }

  /** A b element around test. */
  lemma BTestText()
    ensures "<" + "b" + ">" + "test" + "</" + "b" + ">"
            == "<b>test</b>"
  {
  }

  /** A c element around tset. */
  lemma CTsetText()
    ensures "<" + "c" + ">" + "tset" + "</" + "c" + ">"
            == "<c>tset</c>"
  {
  }

  /** The two leaves one after the other. */
  lemma TwoLeavesText()
    ensures "<b>test</b>" + ("<c>tset</c>" + "")
            == "<b>test</b><c>tset</c>"
  {
  }

  /** A bold paragraph around the two leaves. */
  lemma BoldTwoLeavesText()
    ensures "<p class=\"bold\">" + "<b>test</b><c>tset</c>" + "</p>"
            == "<p class=\"bold\"><b>test</b><c>tset</c></p>"
  {
  }

  /** A bold paragraph around an empty d element. */
  lemma BoldEmptyDivisionText()
    ensures "<p class=\"bold\">" + "<d></d>" + "</p>"
            == "<p class=\"bold\"><d></d></p>"
  {
  }

  /** A d element around test. */
  lemma DivisionTestText()
    ensures "<" + "d" + "" + ">" + "test" + ("</" + "d" + ">")
            == "<d>test</d>"
  {
  }

  /** A bold paragraph around a d element around test. */
  lemma BoldDivisionTestText()
    ensures "<p class=\"bold\">" + "<d>test</d>" + "</p>"
            == "<p class=\"bold\"><d>test</d></p>"
  {
  }

  lemma ReprHeadText()
    ensures "TextNode(" + "This is a text node" == "TextNode(This is a text node"
  {
  }

  /** The repr of the bold test node, up to its url. */
  lemma ReprPrefixText()
    ensures "TextNode(" + "This is a text node" + ", " + "bold" + ", " == "TextNode(This is a text node, bold, "
  {
    ReprHeadText();
  }

  lemma ReprUrlText()
    ensures "TextNode(This is a text node, bold, " + "https://www.google.com" + ")"
            == "TextNode(This is a text node, bold, https://www.google.com)"
  {
  }

  /** The repr of the bold test node with a url. */
  lemma ReprWithUrlText()
    ensures "TextNode(" + "This is a text node" + ", " + "bold" + ", " + "https://www.google.com" + ")"
            == "TextNode(This is a text node, bold, https://www.google.com)"
  {
    ReprPrefixText();
    ReprUrlText();
  }

  /** The repr of the bold test node without a url. */
  lemma ReprWithoutUrlText()
    ensures "TextNode(" + "This is a text node" + ", " + "bold" + ", " + "None" + ")"
            == "TextNode(This is a text node, bold, None)"
  {
    ReprPrefixText();
  }

}

/** The byte-exact cases of src/test_htmlnode.py and src/test_textnode.py, stated on the model. */
module Fixtures {
  import opened Wrappers
  import opened Strings
  import opened HtmlNode
  import opened TextNode
  import opened FixtureTexts

  const boldClass: Props := [("class", "bold")]

  lemma PropsFixtures()
    ensures PropsToHtml(None) == ""
    ensures PropsToHtml(Some([])) == ""
    ensures PropsToHtml(Some(boldClass)) == " class=\"bold\""
    ensures PropsToHtml(Some([("class", "bold"), ("id", "test")])) == " class=\"bold\" id=\"test\""
  {
    var two: Props := [("class", "bold"), ("id", "test")];
    PropsToHtmlSpec(Some(boldClass));
    PropsToHtmlSpec(Some(two));
    assert Attrs(boldClass) == AttrToHtml(boldClass[0]) + Attrs([]);
    assert Attrs(two) == AttrToHtml(two[0]) + (AttrToHtml(two[1]) + Attrs([]));
    assert AttrToHtml(("class", "bold")) == " " + "class" + "=\"" + "bold" + "\"";
    assert AttrToHtml(("id", "test")) == " " + "id" + "=\"" + "test" + "\"";
    ClassAttrText();
    IdAttrText();
    TwoAttrsText();
  }

  lemma LeafFixtures()
    ensures ToHtml(Leaf(None, None, None)) == Failure(MissingValue)
    ensures ToHtml(Leaf(None, Some("test"), None)) == Success("test")
    ensures ToHtml(Leaf(Some("p"), Some("test"), None)) == Success("<p>test</p>")
    ensures ToHtml(Leaf(Some("p"), Some("test"), Some(boldClass))) == Success("<p class=\"bold\">test</p>")
  {
    PropsFixtures();
    LeafRendering(Some("p"), Some("test"), None);
    LeafRendering(Some("p"), Some("test"), Some(boldClass));
    PlainLeafText();
    BoldLeafText();
  }

  lemma ParentErrorFixtures()
    ensures ToHtml(Parent(None, NoChildren, None, None)) == Failure(MissingTag)
    ensures ToHtml(Parent(None, Children([]), None, None)) == Failure(MissingTag)
    ensures ToHtml(Parent(Some("p"), NoChildren, None, None)) == Failure(MissingChildren)
  {
  }

  lemma ParentEmptyFixtures()
    ensures ToHtml(Parent(Some("p"), Children([]), None, None)) == Success("<p></p>")
    ensures ToHtml(Parent(Some("p"), Children([]), None, Some(boldClass))) == Success("<p class=\"bold\"></p>")
  {
    PropsFixtures();
    ParentErrors(Some("p"), Children([]), None, None);
    ParentErrors(Some("p"), Children([]), None, Some(boldClass));
    EmptyParagraphText();
    EmptyBoldParagraphText();
  }

  lemma BoldParagraphTags()
    ensures OpenTag("p", Some(boldClass)) == "<p class=\"bold\">"
    ensures CloseTag("p") == "</p>"
  {
    PropsFixtures();
    BoldOpenTagText();
  }

  /** A parent tagged p with props class="bold" around children that render to inner. */
  lemma BoldParagraph(cs: seq<Node>, inner: string)
    requires forall i :: 0 <= i < |cs| ==> Renderable(cs[i])
    requires Concat(Rendered(cs)) == inner
    ensures ToHtml(Parent(Some("p"), Children(cs), None, Some(boldClass)))
            == Success("<p class=\"bold\">" + inner + "</p>")
  {
    BoldParagraphTags();
    ParentRendering("p", cs, None, Some(boldClass));
  }

  /** A single child that renders to text makes its parent's children render to text. */
  lemma OnlyChild(c: Node, text: string)
    requires ToHtml(c) == Success(text)
    ensures Renderable(c) && Concat(Rendered([c])) == text
  {
    assert Rendered([c]) == [text];
    assert Concat([text]) == text + Concat([]);
    assert text + "" == text;
  }

  lemma ParentOneLeafFixture()
    ensures ToHtml(Parent(Some("p"), Children([Leaf(None, Some("test"), None)]), None, Some(boldClass)))
            == Success("<p class=\"bold\">test</p>")
  {
    var test := Leaf(None, Some("test"), None);
    OnlyChild(test, "test");
    BoldParagraph([test], "test");
    BoldTestText();
  }

  /** A tagged leaf without props renders as the value between the open and close tags. */
  lemma PlainTaggedLeaf(tag: string, value: string)
    ensures ToHtml(Leaf(Some(tag), Some(value), None)) == Success("<" + tag + ">" + value + "</" + tag + ">")
  {
    LeafRendering(Some(tag), Some(value), None);
    assert PropsToHtml(None) == "";
    assert "<" + tag + "" == "<" + tag;
  }

  /** Two children that render to x and y make their parent's children render to x + y. */
  lemma TwoChildren(b: Node, x: string, c: Node, y: string)
    requires ToHtml(b) == Success(x) && ToHtml(c) == Success(y)
    ensures Renderable(b) && Renderable(c) && Concat(Rendered([b, c])) == x + (y + "")
  {
    assert Rendered([b, c]) == [x, y];
    assert Concat([x, y]) == x + Concat([y]);
    assert Concat([y]) == y + Concat([]);
  }

  lemma ParentTwoLeavesFixture()
    ensures ToHtml(Parent(Some("p"), Children([Leaf(Some("b"), Some("test"), None), Leaf(Some("c"), Some("tset"), None)]),
                          None, Some(boldClass)))
            == Success("<p class=\"bold\"><b>test</b><c>tset</c></p>")
  {
    var b, c := Leaf(Some("b"), Some("test"), None), Leaf(Some("c"), Some("tset"), None);
    PlainTaggedLeaf("b", "test");
    PlainTaggedLeaf("c", "tset");
    BTestText();
    CTsetText();
    TwoLeavesText();
    BoldTwoLeavesText();
    TwoChildren(b, "<b>test</b>", c, "<c>tset</c>");
    BoldParagraph([b, c], "<b>test</b><c>tset</c>");
  }

  lemma ParentNestedEmptyFixture()
    ensures ToHtml(Parent(Some("p"), Children([Parent(Some("d"), Children([]), None, None)]), None, Some(boldClass)))
            == Success("<p class=\"bold\"><d></d></p>")
  {
    var d := Parent(Some("d"), Children([]), None, None);
    ParentErrors(Some("d"), Children([]), None, None);
    PropsFixtures();
    EmptyDivisionText();
    OnlyChild(d, "<d></d>");
    BoldParagraph([d], "<d></d>");
    BoldEmptyDivisionText();
  }

  lemma ParentNestedLeafFixture()
    ensures ToHtml(Parent(Some("p"), Children([Parent(Some("d"), Children([Leaf(None, Some("test"), None)]), None, None)]),
                          None, Some(boldClass)))
            == Success("<p class=\"bold\"><d>test</d></p>")
  {
    var test := Leaf(None, Some("test"), None);
    var dTest := Parent(Some("d"), Children([test]), None, None);
    OnlyChild(test, "test");
    ParentRendering("d", [test], None, None);
    PropsFixtures();
    DivisionTestText();
    BoldDivisionTestText();
    assert OpenTag("d", None) == "<" + "d" + "" + ">";
    assert ToHtml(dTest) == Success(("<" + "d" + "" + ">") + "test" + ("</" + "d" + ">"));
    OnlyChild(dTest, "<d>test</d>");
    BoldParagraph([dTest], "<d>test</d>");
  }

  lemma TextNodeEqFixtures()
    ensures Eq(TextNode("This is a text node", Bold, None), TextNode("This is a text node", Bold, None))
    ensures Eq(TextNode("This is a text node", Bold, Some("https://www.google.com")),
               TextNode("This is a text node", Bold, Some("https://www.google.com")))
    ensures !Eq(TextNode("This is a text", Bold, None), TextNode("This is a text node", Bold, None))
    ensures !Eq(TextNode("This is a text node", Images, None), TextNode("This is a text node", Bold, None))
    ensures !Eq(TextNode("This is a text node", Bold, Some("https://www.google.com")),
                TextNode("This is a text node", Bold, None))
  {
  }

  lemma TextNodeReprWithUrlFixture()
    ensures Repr(TextNode("This is a text node", Bold, Some("https://www.google.com")))
            == "TextNode(This is a text node, bold, https://www.google.com)"
  {
    ReprWithUrlText();
  }

  lemma TextNodeReprWithoutUrlFixture()
    ensures Repr(TextNode("This is a text node", Bold, None)) == "TextNode(This is a text node, bold, None)"
  {
    ReprWithoutUrlText();
  }
}
