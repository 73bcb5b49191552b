/** TextType and TextNode of src/textnode.py: a (text, kind, optional url) record with
    field-wise equality and a fixed repr. */
module TextNode {
  import opened Wrappers
  import opened Strings

  /** The TextType enum. */
  datatype TextType = Normal | Bold | Links | Images

  /** The members in definition order, as iterating over the enum gives them. */
  const Members: seq<TextType> := [Normal, Bold, Links, Images]

  /** A member's .value. */
  function Value(t: TextType): string
  {
    match t
    case Normal => "normal"
    case Bold => "bold"
    case Links => "links"
    case Images => "images"
  }

  /** TextType(s): the member whose value is s; None where Python raises ValueError. */
  function FromValue(s: string): Option<TextType>
  {
    if s == "normal" then Some(Normal)
    else if s == "bold" then Some(Bold)
    else if s == "links" then Some(Links)
    else if s == "images" then Some(Images)
    else None
  }

  /** The enum has exactly the four members, with four distinct values. */
  lemma MembersComplete(t: TextType)
    ensures t in Members && |Members| == 4
    ensures forall i, j :: 0 <= i < j < |Members| ==> Value(Members[i]) != Value(Members[j])
  {
  }

  /** Looking a member up by its value gives the member back, and a lookup that succeeds
      found a member with exactly that value. */
  lemma ValueRoundTrip(t: TextType, s: string)
    ensures FromValue(Value(t)) == Some(t)
    ensures FromValue(s).Some? ==> Value(FromValue(s).value) == s
  {
  }

  /** A TextNode; url defaults to None. */
  datatype TextNode = TextNode(text: string, textType: TextType, url: Option<string>)

  /** __eq__: text, text_type and url are all equal. */
  predicate Eq(self: TextNode, other: TextNode)
  {
    self.text == other.text && self.textType == other.textType && self.url == other.url
  }

  /** Two TextNodes are equal exactly when they are the same record, so __eq__ is reflexive,
      symmetric and transitive, and changing any one field (text, kind, or url, including
      a url present against an absent one) makes them unequal. */
  lemma EqIsIdentity(a: TextNode, b: TextNode, t: string, k: TextType, u: Option<string>)
    ensures Eq(a, b) <==> a == b
    ensures Eq(a, a) && (Eq(a, b) <==> Eq(b, a))
    ensures Eq(a, a.(text := t)) <==> t == a.text
    ensures Eq(a, a.(textType := k)) <==> k == a.textType
    ensures Eq(a, a.(url := u)) <==> u == a.url
  {
  }

  /** How an f-string shows the url: the string itself, or "None". */
  function UrlString(url: Option<string>): string
  {
    if url.None? then "None" else url.value
  }

  /** __repr__: "TextNode(" text ", " kind value ", " url ")". */
  function Repr(n: TextNode): string
  {
    "TextNode(" + n.text + ", " + Value(n.textType) + ", " + UrlString(n.url) + ")"
  }

  /** Splits a text at its first ',', which must be followed by a space. */
  function SplitField(s: string): Option<(string, string)>
  {
    match IndexOf(s, ',')
    case None => None
    case Some(i) =>
      var after := s[i + 1..];
      if after == [] || after[0] != ' ' then None else Some((s[..i], after[1..]))
  }

  lemma SplitFieldOf(a: string, b: string)
    requires ',' !in a
    ensures SplitField(a + ", " + b) == Some((a, b))
  {
    assert a + ", " + b == a + [','] + (" " + b);
    IndexOfSplit(a, ',', " " + b);
  }

  /** Reads a repr back: the text up to the first ',', the kind's value up to the next ',',
      and the rest as the url as printed. */
  function ParseRepr(s: string): Option<(string, TextType, string)>
  {
    if |s| < 10 || s[..9] != "TextNode(" || s[|s| - 1] != ')' then None
    else ParseFields(s[9..|s| - 1])
  }

  /** Reads the three fields between the parentheses of a repr. */
  function ParseFields(body: string): Option<(string, TextType, string)>
  {
    match SplitField(body)
    case None => None
    case Some((text, rest)) =>
      match SplitField(rest)
      case None => None
      case Some((kind, url)) =>
        match FromValue(kind)
        case None => None
        case Some(k) => Some((text, k, url))
  }

  lemma ParseReprUnwrap(body: string)
    ensures ParseRepr("TextNode(" + body + ")") == ParseFields(body)
  {
    var s := "TextNode(" + body + ")";
    assert s[..9] == "TextNode(";
    assert s[9..|s| - 1] == body;
  }

  lemma ParseFieldsOf(text: string, k: TextType, url: string)
    requires ',' !in text
    ensures ParseFields(text + ", " + (Value(k) + ", " + url)) == Some((text, k, url))
  {
    SplitFieldOf(text, Value(k) + ", " + url);
    SplitFieldOf(Value(k), url);
    ValueRoundTrip(k, Value(k));
  }

  /** Round trip: the repr of a node whose text holds no ',' gives back its text, its kind
      and its url as printed. */
  lemma ParseReprOfRepr(n: TextNode)
    requires ',' !in n.text
    ensures ParseRepr(Repr(n)) == Some((n.text, n.textType, UrlString(n.url)))
  {
    var url := UrlString(n.url);
    var body := n.text + ", " + (Value(n.textType) + ", " + url);
    assert Repr(n) == "TextNode(" + body + ")";
    ParseReprUnwrap(body);
    ParseFieldsOf(n.text, n.textType, url);
  }

  /** Nodes whose texts hold no ',' and whose urls are not the string "None" have distinct
      reprs. */
  lemma ReprInjective(a: TextNode, b: TextNode)
    requires ',' !in a.text && ',' !in b.text
    requires a.url != Some("None") && b.url != Some("None")
    requires Repr(a) == Repr(b)
    ensures a == b
  {
    ParseReprOfRepr(a);
    ParseReprOfRepr(b);
  }

  /** An absent url and the url "None" print alike. */
  lemma ReprAmbiguousUrl()
    ensures Repr(TextNode("a", Bold, None)) == Repr(TextNode("a", Bold, Some("None")))
  {
  }

  /** A text holding ", " followed by a kind's value and ", " looks like the kind and the start
      of the url: two different nodes share a repr. */
  lemma ReprAmbiguousText(a: string, b: string, c: string, k: TextType)
    ensures var one := TextNode(a + ", " + Value(k) + ", " + b, k, Some(c));
            var two := TextNode(a, k, Some(b + ", " + Value(k) + ", " + c));
            one != two && Repr(one) == Repr(two)
  {
    var v := Value(k);
    var one := TextNode(a + ", " + v + ", " + b, k, Some(c));
    var two := TextNode(a, k, Some(b + ", " + v + ", " + c));
    assert |one.text| > |two.text|;
    calc {
      Repr(one);
      "TextNode(" + (a + ", " + v + ", " + b) + ", " + v + ", " + c + ")";
      "TextNode(" + a + ", " + v + ", " + (b + ", " + v + ", " + c) + ")";
      Repr(two);
    }
  }

}
