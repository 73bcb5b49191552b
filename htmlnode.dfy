/** The HTML node tree of src/htmlnode.py: the base HtmlNode, LeafNode and ParentNode,
    their attribute rendering, their rendering to HTML text and their equality. */
module HtmlNode {
  import opened Wrappers
  import opened Strings

  /** One attribute, as a (key, value) item of the props dict. */
  type Attr = (string, string)

  /** A Python dict has each key once. */
  predicate DistinctKeys(ps: seq<Attr>)
  {
    forall i, j :: 0 <= i < j < |ps| ==> ps[i].0 != ps[j].0
  }

  /** The props dict: its items in insertion order. */
  type Props = ps: seq<Attr> | DistinctKeys(ps)

  /** The ValueError (or NotImplementedError) that to_html raises. */
  datatype RenderError = NotImplemented | MissingValue | MissingTag | MissingChildren

  /** The three classes. Every one carries tag, value, children and props; a LeafNode's
      children are always None, so Leaf has no children field. */
  datatype Node =
    | Base(tag: Option<string>, value: Option<string>, children: Children, props: Option<Props>)
    | Leaf(tag: Option<string>, value: Option<string>, props: Option<Props>)
    | Parent(tag: Option<string>, children: Children, value: Option<string>, props: Option<Props>)

  /** The optional children list: None, or a list (possibly empty). */
  datatype Children = NoChildren | Children(nodes: seq<Node>)

  // ---------------------------------------------------------------------------
  // props_to_html

  /** The text ` key="value"` of one item; nothing is escaped. */
  function AttrToHtml(a: Attr): string
  {
    " " + a.0 + "=\"" + a.1 + "\""
  }

  /** functools.reduce over the items, starting from acc. */
  function FoldAttrs(acc: string, items: seq<Attr>): string
    decreases items
  {
    if items == [] then acc else FoldAttrs(acc + AttrToHtml(items[0]), items[1..])
  }

  /** props_to_html: "" when props is None or empty, otherwise the items folded in order. */
  function PropsToHtml(props: Option<Props>): string
  {
    if props.None? || |props.value| == 0 then "" else FoldAttrs("", props.value)
  }

  /** Reference definition: the attribute texts of the items, concatenated in order. */
  function Attrs(items: seq<Attr>): string
  {
    if items == [] then "" else AttrToHtml(items[0]) + Attrs(items[1..])
  }

  lemma {:induction false} FoldAttrsIsConcat(acc: string, items: seq<Attr>)
    ensures FoldAttrs(acc, items) == acc + Attrs(items)
    decreases items
  {
    if items != [] {
      FoldAttrsIsConcat(acc + AttrToHtml(items[0]), items[1..]);
      assert acc + AttrToHtml(items[0]) + Attrs(items[1..]) == acc + (AttrToHtml(items[0]) + Attrs(items[1..]));
    }
  }

  /** props_to_html renders every item as ` key="value"`, in insertion order, and
      renders absent or empty props as "". */
  lemma PropsToHtmlSpec(props: Option<Props>)
    ensures props.None? ==> PropsToHtml(props) == ""
    ensures props.Some? ==> PropsToHtml(props) == Attrs(props.value)
  {
    if props.Some? {
      FoldAttrsIsConcat("", props.value);
    }
  }

  /** Adding a new key to the dict appends its attribute at the end of the output. */
  lemma PropsToHtmlAppend(items: Props, a: Attr)
    requires DistinctKeys(items + [a])
    ensures PropsToHtml(Some(items + [a])) == PropsToHtml(Some(items)) + AttrToHtml(a)
  {
    PropsToHtmlSpec(Some(items));
    PropsToHtmlSpec(Some(items + [a]));
    AttrsAppend(items, a);
  }

  lemma {:induction false} AttrsAppend(items: seq<Attr>, a: Attr)
    ensures Attrs(items + [a]) == Attrs(items) + AttrToHtml(a)
  {
    if items == [] {
      assert items + [a] == [a];
    } else {
      assert (items + [a])[1..] == items[1..] + [a];
      AttrsAppend(items[1..], a);
    }
  }

  /** Reads back one item from the front of an attribute text: a space, the key up to
      the first '=', then a quoted value. Returns the item and the rest. */
  function ParseAttr(s: string): (r: Option<(Attr, string)>)
    ensures r.Some? ==> |r.value.1| < |s|
  {
    if s == [] || s[0] != ' ' then None
    else
      var afterSpace := s[1..];
      match IndexOf(afterSpace, '=')
      case None => None
      case Some(e) =>
        match ParseQuoted(afterSpace[e + 1..])
        case None => None
        case Some((value, rest)) => Some(((afterSpace[..e], value), rest))
  }

  /** Reads a '"', the value up to the next '"', and that '"'. Returns the value and the rest. */
  function ParseQuoted(s: string): (r: Option<(string, string)>)
    ensures r.Some? ==> |r.value.1| < |s|
  {
    if s == [] || s[0] != '"' then None
    else
      var quoted := s[1..];
      match IndexOf(quoted, '"')
      case None => None
      case Some(q) => Some((quoted[..q], quoted[q + 1..]))
  }

  /** Reads back all items of an attribute text, in order. */
  function ParseAttrs(s: string): (r: Option<seq<Attr>>)
    decreases |s|
  {
    if s == [] then Some([])
    else match ParseAttr(s)
      case None => None
      case Some((a, rest)) =>
        match ParseAttrs(rest)
        case None => None
        case Some(tail) => Some([a] + tail)
  }

  /** Keys without '=' and values without '"' can be read back from the output. */
  predicate Unambiguous(items: seq<Attr>)
  {
    forall i :: 0 <= i < |items| ==> '=' !in items[i].0 && '"' !in items[i].1
  }

  lemma ParseQuotedOf(v: string, tail: string)
    requires '"' !in v
    ensures ParseQuoted(['"'] + (v + ['"'] + tail)) == Some((v, tail))
  {
    var s := ['"'] + (v + ['"'] + tail);
    assert s[1..] == v + ['"'] + tail;
    IndexOfSplit(v, '"', tail);
  }

  /** One item whose key holds no '=' and whose value holds no '"' is read back first. */
  lemma ParseAttrOfAttr(k: string, v: string, tail: string)
    requires '=' !in k && '"' !in v
    ensures ParseAttr(AttrToHtml((k, v)) + tail) == Some(((k, v), tail))
  {
    var afterEq := ['"'] + (v + ['"'] + tail);
    var afterSpace := k + ['='] + afterEq;
    var s := AttrToHtml((k, v)) + tail;
    calc {
      s;
      " " + k + "=\"" + v + "\"" + tail;
      { assert "=\"" == ['='] + ['"']; }
      [' '] + k + (['='] + ['"']) + v + ['"'] + tail;
      [' '] + afterSpace;
    }
    assert s[1..] == afterSpace;
    IndexOfSplit(k, '=', afterEq);
    ParseQuotedOf(v, tail);
  }

  lemma {:induction false} ParseAttrsOfAttrs(items: seq<Attr>)
    requires Unambiguous(items)
    ensures ParseAttrs(Attrs(items)) == Some(items)
  {
    if items != [] {
      UnambiguousTail(items);
      ParseAttrsOfAttrs(items[1..]);
      ParseAttrsStep(items[0], Attrs(items[1..]), items[1..]);
      assert items == [items[0]] + items[1..];
    }
  }

  /** An item's text followed by a text that reads back as tail reads back as the item
      followed by tail. */
  lemma ParseAttrsStep(a: Attr, rest: string, tail: seq<Attr>)
    requires '=' !in a.0 && '"' !in a.1
    requires ParseAttrs(rest) == Some(tail)
    ensures ParseAttrs(AttrToHtml(a) + rest) == Some([a] + tail)
  {
    ParseAttrOfAttr(a.0, a.1, rest);
    assert (AttrToHtml(a) + rest)[0] == ' ';
  }

  lemma UnambiguousTail(items: seq<Attr>)
    requires items != [] && Unambiguous(items)
    ensures Unambiguous(items[1..])
  {
    forall i | 0 <= i < |items[1..]| ensures '=' !in items[1..][i].0 && '"' !in items[1..][i].1 {
      assert items[1..][i] == items[i + 1];
    }
  }

  /** Round trip: props whose keys hold no '=' and whose values hold no '"' are recovered
      from props_to_html, so such props render to distinct texts. */
  lemma PropsToHtmlRoundTrip(props: Props)
    requires Unambiguous(props)
    ensures ParseAttrs(PropsToHtml(Some(props))) == Some(props)
  {
    PropsToHtmlSpec(Some(props));
    ParseAttrsOfAttrs(props);
  }

  /** Without escaping, a value holding '" k2="' followed by v2 renders like a second item
      (k2, v2): two different dicts render alike. */
  lemma PropsToHtmlNotInjective(k1: string, v1: string, k2: string, v2: string)
    requires k1 != k2
    ensures var one: Props := [(k1, v1 + "\" " + k2 + "=\"" + v2)];
            var two: Props := [(k1, v1), (k2, v2)];
            one != two && PropsToHtml(Some(one)) == PropsToHtml(Some(two))
  {
    var one: Props := [(k1, v1 + "\" " + k2 + "=\"" + v2)];
    var two: Props := [(k1, v1), (k2, v2)];
    PropsToHtmlSpec(Some(one));
    PropsToHtmlSpec(Some(two));
    assert Attrs(one[1..]) == "" && Attrs(two[1..][1..]) == "";
    assert Attrs(one) == AttrToHtml(one[0]) + "" == AttrToHtml(one[0]);
    assert Attrs(two[1..]) == AttrToHtml(two[1]) + "" == AttrToHtml(two[1]);
    assert Attrs(two) == AttrToHtml(two[0]) + AttrToHtml(two[1]);
    var sp, eq, q := " ", "=\"", "\"";
    assert "\" " == q + sp;
    calc {
      AttrToHtml(one[0]);
      sp + k1 + eq + (v1 + (q + sp) + k2 + eq + v2) + q;
      (sp + k1 + eq + v1 + q) + (sp + k2 + eq + v2 + q);
      AttrToHtml(two[0]) + AttrToHtml(two[1]);
    }
  }

  // ---------------------------------------------------------------------------
  // to_html

  /** The error a node raises by itself, before looking at any child. */
  function OwnFault(n: Node): Option<RenderError>
  {
    match n
    case Base(_, _, _, _) => Some(NotImplemented)
    case Leaf(_, value, _) => if value.None? then Some(MissingValue) else None
    case Parent(tag, children, _, _) =>
      if tag.None? then Some(MissingTag)
      else if children.NoChildren? then Some(MissingChildren)
      else None
  }

  /** No node of the tree raises on its own. */
  predicate Renderable(n: Node)
  {
    OwnFault(n).None? &&
    (n.Parent? ==> forall i :: 0 <= i < |n.children.nodes| ==> Renderable(n.children.nodes[i]))
  }

  /** Some node of the tree raises e on its own. */
  ghost predicate HasFault(n: Node, e: RenderError)
  {
    OwnFault(n) == Some(e) ||
    (n.Parent? && OwnFault(n).None? &&
     exists i :: 0 <= i < |n.children.nodes| && HasFault(n.children.nodes[i], e))
  }

  /** The reduce over the children's renderings: the first failure is raised,
      otherwise the texts are appended to acc in order. */
  function FoldChildren(acc: string, rs: seq<Result<string, RenderError>>): (r: Result<string, RenderError>)
    decreases rs
    ensures r.Success? <==> forall i :: 0 <= i < |rs| ==> rs[i].Success?
    ensures r.Failure? ==> exists i :: 0 <= i < |rs| && rs[i] == r &&
                                        forall j :: 0 <= j < i ==> rs[j].Success?
  {
    if rs == [] then Success(acc)
    else if rs[0].Failure? then rs[0]
    else
      var r := FoldChildren(acc + rs[0].value, rs[1..]);
      assert r.Failure? ==> exists i :: 1 <= i < |rs| && rs[i] == r &&
                                        forall j :: 0 <= j < i ==> rs[j].Success? by {
        if r.Failure? {
          var i :| 0 <= i < |rs[1..]| && rs[1..][i] == r && forall j :: 0 <= j < i ==> rs[1..][j].Success?;
          assert forall j :: 1 <= j < i + 1 ==> rs[j] == rs[1..][j - 1];
        }
      }
      r
  }

  function OpenTag(tag: string, props: Option<Props>): string
  {
    "<" + tag + PropsToHtml(props) + ">"
  }

  function CloseTag(tag: string): string
  {
    "</" + tag + ">"
  }

  /** to_html of the three classes. Rendering succeeds exactly when no node of the tree is
      faulty, and a failure is the fault of some node of the tree. */
  function ToHtml(n: Node): (r: Result<string, RenderError>)
    ensures r.Success? <==> Renderable(n)
    ensures r.Failure? ==> HasFault(n, r.error)
    decreases n
  {
    match n
    case Base(_, _, _, _) => Failure(NotImplemented)
    case Leaf(tag, value, props) =>
      if value.None? then Failure(MissingValue)
      else if tag.None? then Success(value.value)
      else Success(OpenTag(tag.value, props) + value.value + CloseTag(tag.value))
    case Parent(tag, children, _, props) =>
      if tag.None? then Failure(MissingTag)
      else if children.NoChildren? then Failure(MissingChildren)
      else
        var cs := children.nodes;
        // The reduce renders the children one by one; rendering has no effects, so
        // rendering them all first and then folding gives the same result.
        var rs := seq(|cs|, i requires 0 <= i < |cs| => ToHtml(cs[i]));
        match FoldChildren("", rs)
        case Failure(e) =>
          assert exists i :: 0 <= i < |cs| && HasFault(cs[i], e);
          Failure(e)
        case Success(inner) =>
          assert forall i :: 0 <= i < |cs| ==> rs[i] == ToHtml(cs[i]);
          assert forall i :: 0 <= i < |cs| ==> Renderable(cs[i]);
          Success(OpenTag(tag.value, props) + inner + CloseTag(tag.value))
  }

  /** The texts of children that all render. */
  function Rendered(cs: seq<Node>): (texts: seq<string>)
    requires forall i :: 0 <= i < |cs| ==> Renderable(cs[i])
  {
    seq(|cs|, i requires 0 <= i < |cs| => ToHtml(cs[i]).value)
  }

  /** The values of results that all succeed. */
  function Values(rs: seq<Result<string, RenderError>>): seq<string>
    requires forall i :: 0 <= i < |rs| ==> rs[i].Success?
  {
    seq(|rs|, i requires 0 <= i < |rs| => rs[i].value)
  }

  lemma {:induction false} FoldChildrenValue(acc: string, rs: seq<Result<string, RenderError>>)
    requires forall i :: 0 <= i < |rs| ==> rs[i].Success?
    ensures FoldChildren(acc, rs) == Success(acc + Concat(Values(rs)))
    decreases rs
  {
    if rs == [] {
      assert Values(rs) == [];
      assert acc + "" == acc;
    } else {
      FoldChildrenValue(acc + rs[0].value, rs[1..]);
      assert Values(rs) == [rs[0].value] + Values(rs[1..]);
      assert acc + rs[0].value + Concat(Values(rs[1..])) == acc + (rs[0].value + Concat(Values(rs[1..])));
    }
  }

  /** A leaf: only a missing value fails (an empty one renders); without a tag the value is
      the whole output and props are ignored; with a tag the value is wrapped in it. */
  lemma LeafRendering(tag: Option<string>, value: Option<string>, props: Option<Props>)
    ensures value.None? ==> ToHtml(Leaf(tag, value, props)) == Failure(MissingValue)
    ensures value.Some? && tag.None? ==> ToHtml(Leaf(tag, value, props)) == Success(value.value)
    ensures value.Some? && tag.Some? ==>
              ToHtml(Leaf(tag, value, props)) ==
              Success("<" + tag.value + PropsToHtml(props) + ">" + value.value + "</" + tag.value + ">")
  {
    if value.Some? && tag.Some? {
      assert OpenTag(tag.value, props) + value.value + CloseTag(tag.value) ==
             "<" + tag.value + PropsToHtml(props) + ">" + value.value + "</" + tag.value + ">";
    }
  }

  /** A parent: the tag is checked before the children list, and a missing list fails
      while an empty one does not. */
  lemma ParentErrors(tag: Option<string>, children: Children, value: Option<string>, props: Option<Props>)
    ensures tag.None? ==> ToHtml(Parent(tag, children, value, props)) == Failure(MissingTag)
    ensures tag.Some? && children.NoChildren? ==>
              ToHtml(Parent(tag, children, value, props)) == Failure(MissingChildren)
    ensures tag.Some? && children == Children([]) ==>
              ToHtml(Parent(tag, children, value, props)) ==
              Success("<" + tag.value + PropsToHtml(props) + "></" + tag.value + ">")
  {
    if tag.Some? && children == Children([]) {
      assert FoldChildren("", []) == Success("");
      assert OpenTag(tag.value, props) + "" + CloseTag(tag.value) ==
             "<" + tag.value + PropsToHtml(props) + "></" + tag.value + ">";
    }
  }

  /** A parent whose children all render: its open tag with props, the children's
      renderings concatenated in order, its close tag. Its own value does not appear. */
  lemma ParentRendering(tag: string, cs: seq<Node>, value: Option<string>, props: Option<Props>)
    requires forall i :: 0 <= i < |cs| ==> Renderable(cs[i])
    ensures ToHtml(Parent(Some(tag), Children(cs), value, props)) ==
            Success(OpenTag(tag, props) + Concat(Rendered(cs)) + CloseTag(tag))
  {
    var rs := seq(|cs|, i requires 0 <= i < |cs| => ToHtml(cs[i]));
    FoldChildrenValue("", rs);
    assert Values(rs) == Rendered(cs);
    assert FoldChildren("", rs) == Success("" + Concat(Rendered(cs)));
    assert "" + Concat(Rendered(cs)) == Concat(Rendered(cs));
  }

  /** A parent whose i-th child is the first to fail fails with that child's error. */
  lemma ParentFailsAtFirstFailingChild(tag: string, cs: seq<Node>, value: Option<string>,
                                       props: Option<Props>, i: nat)
    requires i < |cs| && ToHtml(cs[i]).Failure?
    requires forall j :: 0 <= j < i ==> ToHtml(cs[j]).Success?
    ensures ToHtml(Parent(Some(tag), Children(cs), value, props)) == ToHtml(cs[i])
  {
    var rs := seq(|cs|, i requires 0 <= i < |cs| => ToHtml(cs[i]));
    var r := FoldChildren("", rs);
    assert rs[i].Failure?;
    var k :| 0 <= k < |rs| && rs[k] == r && forall j :: 0 <= j < k ==> rs[j].Success?;
  }

  /** The parent's value is never rendered. */
  lemma ParentValueIgnored(tag: Option<string>, children: Children, v1: Option<string>, v2: Option<string>,
                           props: Option<Props>)
    ensures ToHtml(Parent(tag, children, v1, props)) == ToHtml(Parent(tag, children, v2, props))
  {
  }

  // ---------------------------------------------------------------------------
  // The text a reader sees

  /** The text of a tree: its leaves' values in document order. A parent's own value is
      not part of it. */
  function TextContent(n: Node): string
    decreases n
  {
    match n
    case Base(_, _, _, _) => ""
    case Leaf(_, value, _) => if value.Some? then value.value else ""
    case Parent(_, children, _, _) =>
      if children.NoChildren? then ""
      else Concat(seq(|children.nodes|, i requires 0 <= i < |children.nodes| => TextContent(children.nodes[i])))
  }

  /** No tag name, prop key or prop value contains '>', and no leaf value contains '<' or '>'. */
  predicate MarkupFree(n: Node)
    decreases n
  {
    (n.tag.Some? ==> '>' !in n.tag.value) &&
    (n.props.Some? ==> forall i :: 0 <= i < |n.props.value| ==>
                         '>' !in n.props.value[i].0 && '>' !in n.props.value[i].1) &&
    (n.Leaf? && n.value.Some? ==> '<' !in n.value.value && '>' !in n.value.value) &&
    (n.Parent? && n.children.Children? ==>
       forall i :: 0 <= i < |n.children.nodes| ==> MarkupFree(n.children.nodes[i]))
  }

  lemma {:induction false} NoAngleInAttrs(items: seq<Attr>)
    requires forall i :: 0 <= i < |items| ==> '>' !in items[i].0 && '>' !in items[i].1
    ensures '>' !in Attrs(items)
  {
    if items != [] {
      NoAngleInAttrs(items[1..]);
      assert '>' !in items[0].0 && '>' !in items[0].1;
    }
  }

  /** The tags around a node's content vanish when the markup is stripped. */
  lemma StripTagsAround(tag: string, props: Option<Props>, inner: string)
    requires '>' !in tag
    requires props.Some? ==> forall i :: 0 <= i < |props.value| ==>
                               '>' !in props.value[i].0 && '>' !in props.value[i].1
    requires !InTagAfter(inner, false)
    ensures Strip(OpenTag(tag, props) + inner + CloseTag(tag), false) == Strip(inner, false)
    ensures !InTagAfter(OpenTag(tag, props) + inner + CloseTag(tag), false)
  {
    PropsToHtmlSpec(props);
    if props.Some? {
      NoAngleInAttrs(props.value);
    }
    assert OpenTag(tag, props) == "<" + (tag + PropsToHtml(props)) + ">";
    StripTag(tag + PropsToHtml(props));
    assert CloseTag(tag) == "<" + ("/" + tag) + ">";
    StripTag("/" + tag);
    StripBetween(OpenTag(tag, props), inner, CloseTag(tag));
  }

  /** Stripping the markup from a rendering leaves exactly the tree's text, when no value
      or attribute contains angle brackets: rendering adds tags and nothing else. */
  lemma {:induction false} StripTagsOfToHtml(n: Node)
    requires Renderable(n) && MarkupFree(n)
    ensures StripTags(ToHtml(n).value) == TextContent(n)
    ensures !InTagAfter(ToHtml(n).value, false)
    decreases n
  {
    match n
    case Leaf(tag, value, props) =>
      StripPlain(value.value);
      if tag.Some? {
        StripTagsAround(tag.value, props, value.value);
      }
    case Parent(tag, children, _, props) =>
      var cs := children.nodes;
      forall i | 0 <= i < |cs|
        ensures Strip(Rendered(cs)[i], false) == TextContent(cs[i]) && !InTagAfter(Rendered(cs)[i], false)
      {
        StripTagsOfToHtml(cs[i]);
      }
      var texts := seq(|cs|, i requires 0 <= i < |cs| => TextContent(cs[i]));
      StripConcat(Rendered(cs), texts);
      ParentRendering(tag.value, cs, n.value, props);
      StripTagsAround(tag.value, props, Concat(Rendered(cs)));
  }

  // ---------------------------------------------------------------------------
  // __eq__

  /** isinstance(other, type(self)): every node is an HtmlNode, but a LeafNode or a
      ParentNode is an instance only of its own class. */
  predicate IsInstance(other: Node, self: Node)
  {
    self.Base? || (self.Leaf? && other.Leaf?) || (self.Parent? && other.Parent?)
  }

  /** The children attribute; a LeafNode's is None. */
  function ChildrenOf(n: Node): Children
  {
    if n.Leaf? then NoChildren else n.children
  }

  /** The dict built from the items; with distinct keys no item overwrites another. */
  function AsMap(items: seq<Attr>): map<string, string>
  {
    if items == [] then map[]
    else AsMap(items[..|items| - 1])[items[|items| - 1].0 := items[|items| - 1].1]
  }

  /** Equality of two optional dicts: None equals only None, dicts compare by contents. */
  predicate PropsEq(a: Option<Props>, b: Option<Props>)
  {
    if a.None? || b.None? then a.None? && b.None? else AsMap(a.value) == AsMap(b.value)
  }

  /** Both nodes are instances of the same class. */
  predicate SameClass(a: Node, b: Node)
  {
    (a.Base? && b.Base?) || (a.Leaf? && b.Leaf?) || (a.Parent? && b.Parent?)
  }

  /** __eq__ called as a method: other is an instance of self's class, and tag, value,
      children and props are all equal. The children lists compare with list ==, which
      compares paired elements with ==, so paired children must satisfy NodeEqOp. */
  predicate NodeEq(self: Node, other: Node)
    decreases self
  {
    IsInstance(other, self) &&
    self.tag == other.tag &&
    self.value == other.value &&
    PropsEq(self.props, other.props) &&
    match ChildrenOf(self)
    case NoChildren => ChildrenOf(other).NoChildren?
    case Children(xs) =>
      ChildrenOf(other).Children? &&
      |xs| == |ChildrenOf(other).nodes| &&
      forall i :: 0 <= i < |xs| ==>
        SameClass(xs[i], ChildrenOf(other).nodes[i]) && NodeEq(xs[i], ChildrenOf(other).nodes[i])
  }

  /** The == operator between nodes. When the right operand's class is a proper subclass
      of the left's, Python runs the right operand's __eq__ first, whose isinstance check
      rejects the left operand; in the other mixed cases the left operand's check fails.
      So == holds only between nodes of the same class whose __eq__ holds. */
  predicate NodeEqOp(a: Node, b: Node)
  {
    SameClass(a, b) && NodeEq(a, b)
  }

  /** Dropping the last item keeps the keys distinct, and no other key equals the last. */
  lemma DistinctKeysInit(items: Props)
    requires items != []
    ensures DistinctKeys(items[..|items| - 1])
    ensures forall a :: a in items[..|items| - 1] ==> a.0 != items[|items| - 1].0
  {
    var init := items[..|items| - 1];
    forall i, j | 0 <= i < j < |init| ensures init[i].0 != init[j].0 {
      assert init[i] == items[i] && init[j] == items[j];
    }
    forall a | a in init ensures a.0 != items[|items| - 1].0 {
      var i :| 0 <= i < |init| && init[i] == a;
      assert items[i] == a;
    }
  }

  /** Each item of a dict with distinct keys is in its map, and nothing else is. */
  lemma {:induction false} AsMapSpec(items: Props)
    ensures forall a :: a in items ==> a.0 in AsMap(items) && AsMap(items)[a.0] == a.1
    ensures forall k :: k in AsMap(items) ==> (k, AsMap(items)[k]) in items
    decreases |items|
  {
    if items != [] {
      var init := items[..|items| - 1];
      var last := items[|items| - 1];
      DistinctKeysInit(items);
      AsMapSpec(init);
      var m := AsMap(init);
      assert AsMap(items) == m[last.0 := last.1];
      forall a | a in items ensures a.0 in AsMap(items) && AsMap(items)[a.0] == a.1 {
        var i :| 0 <= i < |items| && items[i] == a;
        if i < |init| {
          assert init[i] == a;
        }
      }
      forall k | k in AsMap(items) ensures (k, AsMap(items)[k]) in items {
        if k != last.0 {
          var i :| 0 <= i < |init| && init[i] == (k, m[k]);
          assert items[i] == (k, m[k]);
        } else {
          assert items[|items| - 1] == last;
        }
      }
    }
  }

  /** Props compare as dicts: equal exactly when they hold the same items, whatever the
      insertion order. */
  lemma PropsEqIgnoresOrder(x: Props, y: Props)
    ensures PropsEq(Some(x), Some(y)) <==> (forall a :: a in x <==> a in y)
  {
    AsMapSpec(x);
    AsMapSpec(y);
    if forall a :: a in x <==> a in y {
      forall k | k in AsMap(x) ensures k in AsMap(y) && AsMap(y)[k] == AsMap(x)[k] {
        assert (k, AsMap(x)[k]) in y;
      }
      forall k | k in AsMap(y) ensures k in AsMap(x) {
        assert (k, AsMap(y)[k]) in x;
      }
    }
  }

  /** Every node equals itself. */
  lemma {:induction false} NodeEqReflexive(n: Node)
    ensures NodeEq(n, n)
    decreases n
  {
    if n.props.Some? {
      PropsEqIgnoresOrder(n.props.value, n.props.value);
    }
    if ChildrenOf(n).Children? {
      var xs := ChildrenOf(n).nodes;
      forall i | 0 <= i < |xs| ensures SameClass(xs[i], xs[i]) && NodeEq(xs[i], xs[i]) {
        NodeEqReflexive(xs[i]);
      }
    }
  }

  /** Equality is transitive. */
  lemma {:induction false} NodeEqTransitive(a: Node, b: Node, c: Node)
    requires NodeEq(a, b) && NodeEq(b, c)
    ensures NodeEq(a, c)
    decreases a
  {
    if ChildrenOf(a).Children? {
      var xs, ys, zs := ChildrenOf(a).nodes, ChildrenOf(b).nodes, ChildrenOf(c).nodes;
      forall i | 0 <= i < |xs| ensures SameClass(xs[i], zs[i]) && NodeEq(xs[i], zs[i]) {
        NodeEqTransitive(xs[i], ys[i], zs[i]);
      }
    }
  }

  /** Between nodes of the same class, __eq__ is symmetric. */
  lemma {:induction false} NodeEqOpSymmetric(a: Node, b: Node)
    requires NodeEqOp(a, b)
    ensures NodeEqOp(b, a)
    decreases a
  {
    if ChildrenOf(a).Children? {
      var xs, ys := ChildrenOf(a).nodes, ChildrenOf(b).nodes;
      forall i | 0 <= i < |xs| ensures SameClass(ys[i], xs[i]) && NodeEq(ys[i], xs[i]) {
        NodeEqOpSymmetric(xs[i], ys[i]);
      }
    }
  }

  /** == between nodes is an equivalence: reflexive, symmetric and transitive. */
  lemma NodeEqOpEquivalence(a: Node, b: Node, c: Node)
    ensures NodeEqOp(a, a)
    ensures NodeEqOp(a, b) ==> NodeEqOp(b, a)
    ensures NodeEqOp(a, b) && NodeEqOp(b, c) ==> NodeEqOp(a, c)
  {
    NodeEqReflexive(a);
    if NodeEqOp(a, b) {
      NodeEqOpSymmetric(a, b);
      if NodeEqOp(b, c) {
        NodeEqTransitive(a, b, c);
      }
    }
  }

  /** Called on a LeafNode or a ParentNode, __eq__ is symmetric: the other node is of the
      same class, and paired children are compared with ==. */
  lemma NodeEqSymmetric(a: Node, b: Node)
    requires !a.Base? && NodeEq(a, b)
    ensures !b.Base? && NodeEq(b, a)
  {
    NodeEqOpSymmetric(a, b);
  }

  /** Called directly on a bare HtmlNode, __eq__ accepts a LeafNode, while the LeafNode's
      __eq__ rejects it; == rejects the pair in both orders. */
  lemma NodeEqNotSymmetric()
    ensures var base := Base(None, Some("x"), NoChildren, None);
            var leaf := Leaf(None, Some("x"), None);
            NodeEq(base, leaf) && !NodeEq(leaf, base) && !NodeEqOp(base, leaf) && !NodeEqOp(leaf, base)
  {
  }

  /** Children are compared with ==: a parent holding a bare HtmlNode never equals a parent
      holding a LeafNode at the same position, whichever is on the left. */
  lemma ChildrenCompareByClass(tag: Option<string>, before: seq<Node>, base: Node, leaf: Node,
                               after: seq<Node>, value: Option<string>, props: Option<Props>)
    requires base.Base? && leaf.Leaf?
    ensures !NodeEq(Parent(tag, Children(before + [base] + after), value, props),
                    Parent(tag, Children(before + [leaf] + after), value, props))
    ensures !NodeEq(Parent(tag, Children(before + [leaf] + after), value, props),
                    Parent(tag, Children(before + [base] + after), value, props))
  {
    var k := |before|;
    assert (before + [base] + after)[k] == base;
    assert (before + [leaf] + after)[k] == leaf;
  }

  /** Nodes equal by the __eq__ of a LeafNode or a ParentNode agree on whether they render
      and on the text they show. */
  lemma {:induction false} NodeEqSameText(a: Node, b: Node)
    requires !a.Base? && NodeEq(a, b)
    ensures Renderable(a) <==> Renderable(b)
    ensures TextContent(a) == TextContent(b)
    decreases a
  {
    if a.Parent? && a.children.Children? {
      var xs, ys := a.children.nodes, b.children.nodes;
      forall i | 0 <= i < |xs| ensures (Renderable(xs[i]) <==> Renderable(ys[i])) && TextContent(xs[i]) == TextContent(ys[i]) {
        if !xs[i].Base? {
          NodeEqSameText(xs[i], ys[i]);
        }
      }
      var tx := seq(|xs|, i requires 0 <= i < |xs| => TextContent(xs[i]));
      var ty := seq(|ys|, i requires 0 <= i < |ys| => TextContent(ys[i]));
      assert tx == ty;
    }
  }

  /** The i-th character of a tagged leaf's props text sits after '<' and the tag. */
  lemma PropsCharInLeaf(tag: string, props: string, value: string, i: nat)
    requires i < |props|
    ensures ("<" + tag + props + ">" + value + "</" + tag + ">")[1 + |tag| + i] == props[i]
  {
  }

  /** The first key's first character comes right after the leading space. */
  lemma FirstKeyChar(a: Attr, rest: string)
    requires a.0 != []
    ensures |AttrToHtml(a) + rest| > 1 && (AttrToHtml(a) + rest)[1] == a.0[0]
  {
  }

  /** Equal nodes can render differently: dict equality ignores insertion order, the
      rendering does not. Two items whose keys start differently, in either order, make
      equal leaves with different renderings. */
  lemma EqualNodesRenderDifferently(tag: string, value: string, a: Attr, b: Attr)
    requires a.0 != [] && b.0 != [] && a.0[0] != b.0[0]
    ensures var ab: Props := [a, b];
            var ba: Props := [b, a];
            NodeEq(Leaf(Some(tag), Some(value), Some(ab)), Leaf(Some(tag), Some(value), Some(ba))) &&
            ToHtml(Leaf(Some(tag), Some(value), Some(ab))) != ToHtml(Leaf(Some(tag), Some(value), Some(ba)))
  {
    var ab: Props := [a, b];
    var ba: Props := [b, a];
    PropsEqIgnoresOrder(ab, ba);
    PropsToHtmlSpec(Some(ab));
    PropsToHtmlSpec(Some(ba));
    FirstKeyChar(ab[0], Attrs(ab[1..]));
    FirstKeyChar(ba[0], Attrs(ba[1..]));
    LeafRendering(Some(tag), Some(value), Some(ab));
    LeafRendering(Some(tag), Some(value), Some(ba));
    PropsCharInLeaf(tag, PropsToHtml(Some(ab)), value, 1);
    PropsCharInLeaf(tag, PropsToHtml(Some(ba)), value, 1);
  }

}
