/** The outline of a document: the entries the outline view lists, and how each entry
    and each classification print for debugging. The classification itself,
    OutlineRepresentation, is declared with the tags that carry it. */
module Outline {
  import opened Strings
  import opened MarkdownTag

  /** NSRange: where a span starts in the text, and how many characters it covers. */
  datatype Range = Range(location: int, length: int)

  function UpperBound(r: Range): int {
    r.location + r.length
  }

  /** An entry of the outline: the classification of a top-level node, the range of its
      markup, its trimmed content, its indentation and the node's identifier. Two
      entries are equal exactly when these five fields are, as with the synthesized
      Hashable conformance. */
  datatype OutlineElement = OutlineElement(
    representation: OutlineRepresentation,
    range: Range,
    text: string,
    indentationLevel: int,
    nodeIdentifier: nat)

  // ---------------------------------------------------------------------------
  // debugDescription

  /** OutlineRepresentation.debugDescription: `H<level>` for a heading, the language's
      raw value and " Code" for a code block. Only a heading's starts with 'H'. */
  function RepresentationDescription(r: OutlineRepresentation): (d: string)
    ensures |d| > 0 && (d[0] == 'H' <==> r.Heading?)
  {
    match r
    case Heading(level) => "H" + IntToString(level)
    case CodeBlock(language) => RawValue(language) + " Code"
  }

  /** Distinct classifications print differently. */
  lemma RepresentationDescriptionInjective(a: OutlineRepresentation, b: OutlineRepresentation)
    requires RepresentationDescription(a) == RepresentationDescription(b)
    ensures a == b
  {
    var d := RepresentationDescription(a);
    if a.Heading? && b.Heading? {
      assert d[1..] == IntToString(a.level) && d[1..] == IntToString(b.level);
      IntToStringInjective(a.level, b.level);
    } else if a.CodeBlock? && b.CodeBlock? {
      assert d[..|d| - 5] == RawValue(a.language) && d[..|d| - 5] == RawValue(b.language);
      RawValueInjective(a.language, b.language);
    }
  }

  lemma RawValueInjective(a: Language, b: Language)
    requires RawValue(a) == RawValue(b)
    ensures a == b
  {
  }

  /** OutlineElement.debugDescription: the indentation, then the classification and the
      bounds of the range in brackets, then at most the first 20 characters of the text. */
  function ElementDescription(e: OutlineElement): string {
    var front := IntToString(e.indentationLevel) + " - [";
    var back := ":" + IntToString(e.range.location) + "-" + IntToString(UpperBound(e.range)) + "] " + Prefix(e.text, 20);
    front + RepresentationDescription(e.representation) + back
  }

  /** Characters of the text past the twentieth do not show. */
  lemma ElementDescriptionTruncates(e: OutlineElement, text: string)
    requires |e.text| >= 20 && |text| >= 20 && text[..20] == e.text[..20]
    ensures ElementDescription(e.(text := text)) == ElementDescription(e)
  {
  }

  /** Of two entries that agree on the indentation, the range and the shown text, the
      descriptions are equal only when the classifications are. */
  lemma ElementDescriptionShowsRepresentation(a: OutlineElement, b: OutlineElement)
    requires a.indentationLevel == b.indentationLevel && a.range == b.range
    requires Prefix(a.text, 20) == Prefix(b.text, 20)
    requires ElementDescription(a) == ElementDescription(b)
    ensures a.representation == b.representation
  {
    var front := IntToString(a.indentationLevel) + " - [";
    var back := ":" + IntToString(a.range.location) + "-" + IntToString(UpperBound(a.range)) + "] " + Prefix(a.text, 20);
    var ra := RepresentationDescription(a.representation);
    var rb := RepresentationDescription(b.representation);
    Cancel(front, ra, rb, back);
    RepresentationDescriptionInjective(a.representation, b.representation);
  }

  /** Of two entries with non-negative indentation, the descriptions are equal only when
      the indentations are: the digits stop at the first space. */
  lemma ElementDescriptionShowsIndentation(a: OutlineElement, b: OutlineElement)
    requires a.indentationLevel >= 0 && b.indentationLevel >= 0
    requires ElementDescription(a) == ElementDescription(b)
    ensures a.indentationLevel == b.indentationLevel
  {
    var sa := IntToString(a.indentationLevel);
    var sb := IntToString(b.indentationLevel);
    var d := ElementDescription(a);
    DigitsThenSpace(sa, RepresentationDescription(a.representation),
      ":" + IntToString(a.range.location) + "-" + IntToString(UpperBound(a.range)) + "] " + Prefix(a.text, 20));
    DigitsThenSpace(sb, RepresentationDescription(b.representation),
      ":" + IntToString(b.range.location) + "-" + IntToString(UpperBound(b.range)) + "] " + Prefix(b.text, 20));
    assert sa == d[..|sa|] == sb;
    IntToStringInjective(a.indentationLevel, b.indentationLevel);
  }

  /** A digit string followed by " - [" and more: the digits come first, then a space. */
  lemma DigitsThenSpace(s: string, x: string, y: string)
    requires forall k :: 0 <= k < |s| ==> IsDigit(s[k])
    ensures var d := s + " - [" + x + y;
      |s| < |d| && d[..|s|] == s && d[|s|] == ' ' && forall k :: 0 <= k < |s| ==> IsDigit(d[k])
  {
  }

  /** Equal concatenations with a common front and back have equal middles. */
  lemma Cancel(front: string, x: string, y: string, back: string)
    requires front + x + back == front + y + back
    ensures x == y
  {
    var d := front + x + back;
    assert |x| == |y|;
    assert d[|front|..|front| + |x|] == x;
    assert d[|front|..|front| + |y|] == y;
  }
}
