/** String helpers shared by the renderers and the parsers that invert them. */
module Strings {
  import opened Wrappers

  /** Concatenation of a sequence of strings, in order. */
  function Concat(ss: seq<string>): string
  {
    if ss == [] then "" else ss[0] + Concat(ss[1..])
  }

  /** Position of the first occurrence of c in s, as str.find does (None for -1). */
  function IndexOf(s: string, c: char): (r: Option<nat>)
    ensures r.Some? ==> r.value < |s| && s[r.value] == c && c !in s[..r.value]
    ensures r.None? ==> c !in s
  {
    if s == [] then None
    else if s[0] == c then Some(0)
    else match IndexOf(s[1..], c)
      case None => None
      case Some(i) => assert s[..i + 1] == [s[0]] + s[1..][..i]; Some(i + 1)
  }

  /** In a + [c] + b with no c in a, the first c is the one after a, and a and b are what
      lies before and after it. */
  lemma IndexOfSplit(a: string, c: char, b: string)
    requires c !in a
    ensures IndexOf(a + [c] + b, c) == Some(|a|)
    ensures (a + [c] + b)[..|a|] == a && (a + [c] + b)[|a| + 1..] == b
  {
    assert (a + [c] + b)[|a|] == c;
    assert forall i :: 0 <= i < |a| ==> (a + [c] + b)[i] == a[i];
  }

  /** Drops everything from a '<' up to and including the next '>', as a browser shows text.
      inTag says whether the scan starts inside a tag. */
  function Strip(s: string, inTag: bool): string
  {
    if s == [] then ""
    else if inTag then Strip(s[1..], s[0] != '>')
    else if s[0] == '<' then Strip(s[1..], true)
    else [s[0]] + Strip(s[1..], false)
  }

  /** Whether the scan of Strip is inside a tag after reading s. */
  function InTagAfter(s: string, inTag: bool): bool
  {
    if s == [] then inTag
    else if inTag then InTagAfter(s[1..], s[0] != '>')
    else InTagAfter(s[1..], s[0] == '<')
  }

  function StripTags(s: string): string
  {
    Strip(s, false)
  }

  lemma {:induction false} StripAppend(a: string, b: string, inTag: bool)
    ensures Strip(a + b, inTag) == Strip(a, inTag) + Strip(b, InTagAfter(a, inTag))
    ensures InTagAfter(a + b, inTag) == InTagAfter(b, InTagAfter(a, inTag))
  {
    if a == [] {
      assert a + b == b;
    } else {
      assert (a + b)[1..] == a[1..] + b;
      assert (a + b)[0] == a[0];
      var next := if inTag then a[0] != '>' else a[0] == '<';
      StripAppend(a[1..], b, next);
    }
  }

  /** Text without angle brackets passes through Strip unchanged. */
  lemma {:induction false} StripPlain(s: string)
    requires '<' !in s && '>' !in s
    ensures Strip(s, false) == s && !InTagAfter(s, false)
  {
    if s != [] {
      assert s[0] in s;
      assert forall c :: c in s[1..] ==> c in s;
      StripPlain(s[1..]);
    }
  }

  /** Inside a tag, text without '>' is dropped and the scan stays inside. */
  lemma {:induction false} StripInsideTag(s: string)
    requires '>' !in s
    ensures Strip(s, true) == "" && InTagAfter(s, true)
  {
    if s != [] {
      assert s[0] in s;
      assert forall c :: c in s[1..] ==> c in s;
      StripInsideTag(s[1..]);
    }
  }

  /** A whole tag "<" + body + ">" disappears and leaves the scan outside tags. */
  lemma StripTag(body: string)
    requires '>' !in body
    ensures Strip("<" + body + ">", false) == "" && !InTagAfter("<" + body + ">", false)
  {
    StripAppend("<", body + ">", false);
    assert "<" + body + ">" == "<" + (body + ">");
    StripAppend(body, ">", true);
    StripInsideTag(body);
  }

  /** Markup around a text vanishes when stripped, and leaves the scan outside a tag. */
  lemma StripBetween(open: string, inner: string, close: string)
    requires Strip(open, false) == "" && !InTagAfter(open, false)
    requires Strip(close, false) == "" && !InTagAfter(close, false)
    requires !InTagAfter(inner, false)
    ensures Strip(open + inner + close, false) == Strip(inner, false)
    ensures !InTagAfter(open + inner + close, false)
  {
    StripAppend(open, inner, false);
    StripAppend(open + inner, close, false);
    assert "" + Strip(inner, false) == Strip(inner, false);
    assert Strip(inner, false) + "" == Strip(inner, false);
  }

  /** Stripping a concatenation of pieces that each end outside a tag strips each piece. */
  lemma {:induction false} StripConcat(pieces: seq<string>, texts: seq<string>)
    requires |pieces| == |texts|
    requires forall i :: 0 <= i < |pieces| ==> Strip(pieces[i], false) == texts[i] && !InTagAfter(pieces[i], false)
    ensures Strip(Concat(pieces), false) == Concat(texts) && !InTagAfter(Concat(pieces), false)
  {
    if pieces != [] {
      StripConcat(pieces[1..], texts[1..]);
      StripAppend(pieces[0], Concat(pieces[1..]), false);
    }
  }
}
