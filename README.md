# HTML node tree and text nodes of a static site generator

This project models the node layer of a small Markdown-to-HTML static site
generator, and proves properties of it in Dafny.

- `src/htmlnode.py` defines `HtmlNode`, `LeafNode` and `ParentNode`. Each node
  has an optional tag, value, children list and props dict. `props_to_html`
  renders the props as ` key="value"` attributes. `to_html` renders a tree to
  HTML text or raises. `__eq__` compares two nodes.
- `src/textnode.py` defines the `TextType` enum and the `TextNode` record
  (text, kind, optional url), with field-wise equality and a fixed `repr`.

Files:

- `wrappers.dfy`: `Option` (Python's `None`) and `Result` (a value, or the
  exception `to_html` raises).
- `strings.dfy`: string helpers. These are concatenation of a list of strings,
  `IndexOf` (first occurrence, like `str.find`) and `Strip`/`StripTags`. The
  last two drop the markup from HTML text.
- `htmlnode.dfy`: module `HtmlNode`. The three classes are one datatype `Node`
  with variants `Base` (a bare `HtmlNode`), `Leaf` and `Parent`. Props are a
  sequence of (key, value) items with distinct keys, which stands for an
  insertion-ordered dict. The optional children list is the datatype
  `Children` (`NoChildren` or `Children(nodes)`). A failed render is
  `Failure(e)`, where `e` is one of:
  - `NotImplemented`: the base `to_html`.
  - `MissingValue`: a leaf with no value.
  - `MissingTag`: a parent with no tag.
  - `MissingChildren`: a parent with no children list.
- `textnode.dfy`: module `TextNode`. It holds the enum, the record, `Eq`,
  `Repr`, and a parser that reads a repr back.
- `fixtures.dfy`: module `Fixtures`. The byte-exact cases of the repository's
  unit tests, stated as lemmas about the model.

Notes on what the source does:

- A bare `HtmlNode` can be built and can sit among a parent's children. Its
  `to_html` raises `NotImplementedError`, so the model has a `Base` variant.
- `__eq__` is not plain structural equality. It first checks
  `isinstance(other, type(self))`. Called directly as a method, a bare
  `HtmlNode`'s `__eq__` accepts a `LeafNode`, but the `LeafNode`'s rejects the
  bare node. The `==` operator is stricter. If the right operand's class is a
  proper subclass of the left's, Python runs the right operand's `__eq__`
  first. So `==` is False in both orders between nodes of different classes.
  That covers the tests and the element-wise comparison of two children
  lists. The model has `NodeEq` for the method and `NodeEqOp` for `==`.
- `__eq__` compares props as dicts, so insertion order does not matter.
- The enum in `src/textnode.py` has the members NORMAL, BOLD, LINKS and IMAGES,
  with values "normal", "bold", "links" and "images".
- Only `None` is rejected, with `is None` checks. An empty value, an empty tag
  and an empty children list all render.

## Model

| member | source | states |
|---|---|---|
| `HtmlNode.PropsToHtmlSpec` | src/htmlnode.py:15-18 | props_to_html gives "" for absent props (and for an empty dict), and otherwise the ` key="value"` texts of all items concatenated in insertion order, with no escaping |
| `HtmlNode.FoldAttrsIsConcat` | src/htmlnode.py:18 | the reduce over the items, starting from any accumulator, appends exactly the concatenated attribute texts to it |
| `HtmlNode.PropsToHtmlAppend` | src/htmlnode.py:18 | adding a new key to the dict appends its ` key="value"` at the end of the output: the output follows insertion order |
| `HtmlNode.PropsToHtmlRoundTrip` | src/htmlnode.py:18 | when no key contains '=' and no value contains '"', the items can be read back from the output in order, so such dicts render to distinct texts |
| `HtmlNode.PropsToHtmlNotInjective` | src/htmlnode.py:18 | because values are not escaped, for any keys k1 != k2 and values v1, v2, the one-item dict {k1: v1 + '" k2="' + v2} and the two-item dict {k1: v1, k2: v2} are different but render to the same text |
| `HtmlNode.ToHtml` | src/htmlnode.py:12-53 | to_html of the three classes succeeds exactly when no node of the tree is faulty on its own (a bare HtmlNode, a leaf without value, a parent without tag or children list), and a failure carries the fault of some node of the tree |
| `HtmlNode.FoldChildren` | src/htmlnode.py:53 | the reduce over the children's renderings succeeds exactly when every child renders, and otherwise raises the error of the first child that fails |
| `HtmlNode.FoldChildrenValue` | src/htmlnode.py:53 | when every child renders, the reduce yields the accumulator followed by the children's texts in order |
| `HtmlNode.LeafRendering` | src/htmlnode.py:33-38 | a leaf fails only when its value is None; without a tag it renders as exactly its value (props ignored); with a tag it renders as `<tag props>value</tag>` |
| `HtmlNode.ParentErrors` | src/htmlnode.py:48-53 | a parent without tag fails with the tag error whatever its children (the tag is checked first); with a tag but no children list it fails with the children error; an empty list renders `<tag props></tag>` |
| `HtmlNode.ParentRendering` | src/htmlnode.py:53 | a parent whose children all render yields its open tag with props, the children's renderings concatenated in order, and its close tag |
| `HtmlNode.ParentFailsAtFirstFailingChild` | src/htmlnode.py:53 | a parent whose i-th child is the first to fail raises that child's error |
| `HtmlNode.ParentValueIgnored` | src/htmlnode.py:45-53 | a parent's value has no effect on its rendering |
| `HtmlNode.StripTagsOfToHtml` | src/htmlnode.py:33-53 | when no tag, prop or value contains angle brackets (beyond '<' in tags and props), removing the markup from a rendering leaves exactly the leaves' values in document order: rendering adds tags and nothing else, and drops parents' values |
| `HtmlNode.AsMapSpec` | src/htmlnode.py:26 | the dict built from distinct-key items maps each key to its item's value and holds nothing else |
| `HtmlNode.PropsEqIgnoresOrder` | src/htmlnode.py:26 | two props dicts are equal exactly when they hold the same items, whatever the insertion order |
| `HtmlNode.NodeEqReflexive` | src/htmlnode.py:23-26 | every node equals itself |
| `HtmlNode.NodeEqTransitive` | src/htmlnode.py:23-26 | node equality is transitive, through the isinstance check and the element-wise children comparison |
| `HtmlNode.NodeEqSymmetric` | src/htmlnode.py:23-26 | __eq__ called on a LeafNode or a ParentNode is symmetric: the other node is not a bare HtmlNode and its __eq__ accepts the first |
| `HtmlNode.NodeEqOpSymmetric` | src/htmlnode.py:23-26 | between nodes of the same class, __eq__ is symmetric, down through children compared with == |
| `HtmlNode.NodeEqOpEquivalence` | src/htmlnode.py:23-26 | == between nodes (same class and __eq__) is reflexive, symmetric and transitive |
| `HtmlNode.ChildrenCompareByClass` | src/htmlnode.py:26 | children are compared with ==, so two parents that differ only in a bare HtmlNode against a LeafNode at one position of the children list are unequal in both orders |
| `HtmlNode.NodeEqNotSymmetric` | src/htmlnode.py:24-25 | called directly as a method, a bare HtmlNode's __eq__ accepts a LeafNode with the same fields while the LeafNode's rejects it; == rejects the pair in both orders |
| `HtmlNode.NodeEqSameText` | src/htmlnode.py:23-26 | nodes equal by the __eq__ of a LeafNode or a ParentNode agree on whether they render and on the text their leaves show |
| `HtmlNode.EqualNodesRenderDifferently` | src/htmlnode.py:15-26 | for any tag, value and two items whose keys start with different characters, the leaves holding the items in the two orders are equal but render differently: equality ignores props order and rendering does not |
| `TextNode.MembersComplete` | src/textnode.py:3-7 | the enum has exactly four members, with four distinct values |
| `TextNode.ValueRoundTrip` | src/textnode.py:3-7 | looking a member up by its value gives it back, and a successful lookup found the member with exactly that value |
| `TextNode.EqIsIdentity` | src/textnode.py:16-17 | two TextNodes are equal exactly when text, kind and url all agree; so equality is reflexive and symmetric, and changing one field (including url present against absent) makes them unequal |
| `TextNode.ParseReprOfRepr` | src/textnode.py:19-20 | the repr `TextNode(text, value, url)` of a node whose text has no ',' can be read back into its text, its kind and its url as printed ("None" when absent) |
| `TextNode.ReprInjective` | src/textnode.py:19-20 | nodes whose texts have no ',' and whose urls are not the string "None" have distinct reprs |
| `TextNode.ReprAmbiguousUrl` | src/textnode.py:19-20 | an absent url and the url "None" print alike |
| `TextNode.ReprAmbiguousText` | src/textnode.py:19-20 | for any strings a, b, c and kind k, the node with text a + ", " + k's value + ", " + b and url c prints like the node with text a and url b + ", " + k's value + ", " + c, so two different nodes share a repr |
| `Fixtures.PropsFixtures` | src/test_htmlnode.py:8-22 | props_to_html of no props, an empty dict, one item and two items gives the texts the tests expect |
| `Fixtures.LeafFixtures` | src/test_htmlnode.py:31-45 | the leaf cases of the tests: a missing value fails; "test", "<p>test</p>" and `<p class="bold">test</p>` |
| `Fixtures.ParentErrorFixtures` | src/test_htmlnode.py:48-56 | parents (None, None), (None, []) and ("p", None) fail with the tag, tag and children errors |
| `Fixtures.ParentEmptyFixtures` | src/test_htmlnode.py:57-62 | "p" with an empty list renders "<p></p>", and with props `<p class="bold"></p>` |
| `Fixtures.ParentOneLeafFixture` | src/test_htmlnode.py:63-65 | a parent with one untagged leaf renders `<p class="bold">test</p>` |
| `Fixtures.ParentTwoLeavesFixture` | src/test_htmlnode.py:66-68 | a parent with two tagged leaves renders `<p class="bold"><b>test</b><c>tset</c></p>` |
| `Fixtures.ParentNestedEmptyFixture` | src/test_htmlnode.py:69-71 | a parent holding an empty parent renders `<p class="bold"><d></d></p>` |
| `Fixtures.ParentNestedLeafFixture` | src/test_htmlnode.py:72-74 | nested parents around a leaf render `<p class="bold"><d>test</d></p>` |
| `Fixtures.TextNodeEqFixtures` | src/test_textnode.py:11-34 | the equality cases of the tests: same fields equal; a different text, kind or url (present against absent) unequal; the kind that differs is IMAGES, since the IMAGE member the test names does not exist in the enum |
| `Fixtures.TextNodeReprWithUrlFixture` | src/test_textnode.py:36-39 | the repr with a url is "TextNode(This is a text node, bold, https://www.google.com)" |
| `Fixtures.TextNodeReprWithoutUrlFixture` | src/test_textnode.py:36-40 | the repr without a url is "TextNode(This is a text node, bold, None)" |

## Left out

- The `__repr__` methods of HtmlNode, LeafNode and ParentNode (src/htmlnode.py:20-21, 40-41, 55-56). Their output depends on how Python formats dicts and lists.
- src/main.py: directory walking, copying, reading and writing files, printing, and the two `str.replace` calls that fill the page template. This is all I/O.
- The Markdown tokenizer, block splitting and classification, document assembly, `extract_title` and `text_node_to_html_node`. The tests import them from `textnode`, but `src/textnode.py` does not define them, so they are not part of this model. The same goes for the enum members TEXT, ITALIC, CODE, LINK and IMAGE that the tests use.
- `HtmlNode.ToHtml` renders all children first and then folds their results. The source's `reduce` renders them one at a time and stops at the first exception. Rendering has no side effects, so the result and the error are the same.
- `HtmlNode.ToHtml` succeeds on every tree without a faulty node. It does not model Python's recursion limit. `to_html` recurses once per tree level (src/htmlnode.py:53), so a tree a few hundred levels deep raises `RecursionError`. It also does not model a children list that contains its own parent. The constructor keeps the caller's list (src/htmlnode.py:9), so appending the parent to that list later makes a cycle, and rendering it raises `RecursionError`. Model trees are finite values, so neither case can be expressed.
- `HtmlNode.NodeEq` has the same gaps. The list `==` at src/htmlnode.py:26 recurses once per level too, so very deep or cyclic trees raise `RecursionError` instead of giving an answer.
- Comparing a node with something that is not a node. `HtmlNode.__eq__` returns False for it, and `TextNode.__eq__` would raise AttributeError. The model only compares nodes with nodes.
- Python's dynamic typing. Tags, values, props keys and props values are strings here; the source does not check this.
- Object identity. Nodes are values because the source itself never changes a field or a children list after construction. Sharing one child object between two parents, or changing a list a parent still holds, therefore does not show up in the model. List `==` also checks identity before `==`, which gives the same answer because `==` between nodes is reflexive.
