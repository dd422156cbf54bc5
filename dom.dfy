/**
 * The generic element tree that the HTML parser hands to the mappers, and the
 * four queries the mappers ask of it: a case-insensitive tag test, a
 * case-insensitive attribute lookup, the text contents of a node, and the
 * following siblings of a node.
 *
 * A value tree has no parent pointers, so a node whose following siblings
 * matter is addressed by its parent's child list and its position in it:
 * the node `siblings[pos]` has the following siblings `siblings[pos + 1..]`.
 * A node without a parent is `[node]` at position 0.
 */
module Dom {
  import opened Options

  datatype Attribute = Attribute(name: string, value: string)

  /** A node of the parsed document. Doctypes and processing instructions behave like `Comment`. */
  datatype Node =
    | Element(tag: string, attributes: seq<Attribute>, children: seq<Node>)
    | Text(contents: string)
    | Comment(contents: string)
    | Document(children: seq<Node>)

  /** The child list of any node (empty for leaves). */
  function ChildrenOf(n: Node): seq<Node> {
    if n.Element? || n.Document? then n.children else []
  }

  function AttributesOf(n: Node): seq<Attribute> {
    if n.Element? then n.attributes else []
  }

  // ---------------------------------------------------------------------------
  // ASCII case folding

  function ToAsciiLower(c: char): char {
    if 'A' <= c <= 'Z' then (c as int + 32) as char else c
  }

  function Lower(s: string): (r: string)
    ensures |r| == |s|
    ensures forall i :: 0 <= i < |s| ==> r[i] == ToAsciiLower(s[i])
  {
    seq(|s|, i requires 0 <= i < |s| => ToAsciiLower(s[i]))
  }

  /** Equality of two names up to ASCII case. */
  predicate EqIgnoreAsciiCase(a: string, b: string) {
    SameFoldedFrom(a, b, 0)
  }

  /** `a` and `b` have the same length and agree up to case from position `k` on. */
  predicate SameFoldedFrom(a: string, b: string, k: nat)
    decreases |a| - k
  {
    |a| == |b| && (k >= |a| || (ToAsciiLower(a[k]) == ToAsciiLower(b[k]) && SameFoldedFrom(a, b, k + 1)))
  }

  lemma {:induction false} SameFoldedFromMeans(a: string, b: string, k: nat)
    ensures SameFoldedFrom(a, b, k) <==>
              |a| == |b| && forall i :: k <= i < |a| ==> ToAsciiLower(a[i]) == ToAsciiLower(b[i])
    decreases |a| - k
  {
    if k < |a| {
      SameFoldedFromMeans(a, b, k + 1);
    }
  }

  /** Two names are equal up to case exactly when their lower-case forms are equal. */
  lemma EqIgnoreAsciiCaseIffSameLower(a: string, b: string)
    ensures EqIgnoreAsciiCase(a, b) <==> Lower(a) == Lower(b)
  {
    SameFoldedFromMeans(a, b, 0);
    if Lower(a) == Lower(b) {
      assert |a| == |Lower(a)| == |Lower(b)| == |b|;
      forall i | 0 <= i < |a| ensures ToAsciiLower(a[i]) == ToAsciiLower(b[i]) {
        assert Lower(a)[i] == Lower(b)[i];
      }
    }
  }

  /** Matching names up to case is an equivalence: it is how `<Title>` and `<TITLE>` are the same tag. */
  lemma EqIgnoreAsciiCaseIsEquivalence(a: string, b: string, c: string)
    ensures EqIgnoreAsciiCase(a, a)
    ensures EqIgnoreAsciiCase(a, b) ==> EqIgnoreAsciiCase(b, a)
    ensures EqIgnoreAsciiCase(a, b) && EqIgnoreAsciiCase(b, c) ==> EqIgnoreAsciiCase(a, c)
  {
    EqIgnoreAsciiCaseIffSameLower(a, a);
    EqIgnoreAsciiCaseIffSameLower(a, b);
    EqIgnoreAsciiCaseIffSameLower(b, a);
    EqIgnoreAsciiCaseIffSameLower(b, c);
    EqIgnoreAsciiCaseIffSameLower(a, c);
  }

  // ---------------------------------------------------------------------------
  // The four queries

  /** `is_element`: the node is an element whose tag name is `name` up to ASCII case. */
  predicate IsElement(n: Node, name: string) {
    n.Element? && EqIgnoreAsciiCase(n.tag, name)
  }

  /** A node is an element of at most one of two tag names that differ beyond case. */
  lemma IsElementOfOneName(n: Node, a: string, b: string)
    requires IsElement(n, a) && IsElement(n, b)
    ensures EqIgnoreAsciiCase(a, b)
  {
    EqIgnoreAsciiCaseIsEquivalence(n.tag, a, b);
    EqIgnoreAsciiCaseIsEquivalence(a, n.tag, b);
  }

  /** So an `if … else if …` over two such names never has to choose. */
  lemma DistinctNamesNeverBoth(n: Node, a: string, b: string)
    requires !EqIgnoreAsciiCase(a, b)
    ensures !(IsElement(n, a) && IsElement(n, b))
  {
    if IsElement(n, a) && IsElement(n, b) {
      IsElementOfOneName(n, a, b);
    }
  }

  /** `select_attribute`: the first attribute, in document order, whose name is `name` up to case. */
  function SelectAttribute(n: Node, name: string): Option<Attribute> {
    FirstAttribute(AttributesOf(n), name, 0)
  }

  /** The first attribute at position `k` or later whose name is `name` up to case. */
  function FirstAttribute(attrs: seq<Attribute>, name: string, k: nat): Option<Attribute>
    decreases |attrs| - k
  {
    if k >= |attrs| then None
    else if EqIgnoreAsciiCase(attrs[k].name, name) then Some(attrs[k])
    else FirstAttribute(attrs, name, k + 1)
  }

  /**
   * `select_attribute` finds an attribute exactly when one is named `name` up to
   * case, and then it finds the first such attribute.
   */
  lemma SelectAttributeIsFirstMatch(n: Node, name: string)
    ensures SelectAttribute(n, name).None? <==>
              forall i :: 0 <= i < |AttributesOf(n)| ==> !EqIgnoreAsciiCase(AttributesOf(n)[i].name, name)
    ensures SelectAttribute(n, name).Some? ==>
              exists i :: 0 <= i < |AttributesOf(n)| && AttributesOf(n)[i] == SelectAttribute(n, name).value
                          && EqIgnoreAsciiCase(AttributesOf(n)[i].name, name)
                          && forall j :: 0 <= j < i ==> !EqIgnoreAsciiCase(AttributesOf(n)[j].name, name)
  {
    FirstAttributeIsFirstMatch(AttributesOf(n), name, 0);
  }

  lemma {:induction false} FirstAttributeIsFirstMatch(attrs: seq<Attribute>, name: string, k: nat)
    ensures FirstAttribute(attrs, name, k).None? <==>
              forall i :: k <= i < |attrs| ==> !EqIgnoreAsciiCase(attrs[i].name, name)
    ensures FirstAttribute(attrs, name, k).Some? ==>
              exists i :: k <= i < |attrs| && attrs[i] == FirstAttribute(attrs, name, k).value
                          && EqIgnoreAsciiCase(attrs[i].name, name)
                          && forall j :: k <= j < i ==> !EqIgnoreAsciiCase(attrs[j].name, name)
    decreases |attrs| - k
  {
    if k < |attrs| && !EqIgnoreAsciiCase(attrs[k].name, name) {
      FirstAttributeIsFirstMatch(attrs, name, k + 1);
    }
  }

  /** The attribute at position `i` is the one selected when it is the first whose name matches. */
  lemma SelectAttributeAt(n: Node, name: string, i: nat)
    requires i < |AttributesOf(n)| && EqIgnoreAsciiCase(AttributesOf(n)[i].name, name)
    requires forall j :: 0 <= j < i ==> !EqIgnoreAsciiCase(AttributesOf(n)[j].name, name)
    ensures SelectAttribute(n, name) == Some(AttributesOf(n)[i])
  {
    SelectAttributeIsFirstMatch(n, name);
  }

  /** The value of the attribute `name`, or the empty string when it is absent (a builder default). */
  function AttributeValue(n: Node, name: string): string {
    match SelectAttribute(n, name)
    case Some(a) => a.value
    case None => ""
  }

  /** `text_contents`: the concatenation, in document order, of every text node at or below `n`. */
  function TextContents(n: Node): string {
    match n
    case Text(s) => s
    case Comment(_) => ""
    case Element(_, _, cs) => TextsFrom(cs, 0)
    case Document(cs) => TextsFrom(cs, 0)
  }

  function TextsFrom(ns: seq<Node>, k: nat): string
    decreases ns, |ns| - k
  {
    if k >= |ns| then "" else TextContents(ns[k]) + TextsFrom(ns, k + 1)
  }

  /** `children().find(|n| n.is_element(name))`: the position of the first `name` element. */
  function FirstElement(ns: seq<Node>, name: string): (r: Option<nat>)
    ensures r.Some? ==> r.value < |ns| && IsElement(ns[r.value], name)
  {
    FirstElementFrom(ns, name, 0)
  }

  function FirstElementFrom(ns: seq<Node>, name: string, k: nat): (r: Option<nat>)
    ensures r.Some? ==> k <= r.value < |ns| && IsElement(ns[r.value], name)
    decreases |ns| - k
  {
    if k >= |ns| then None
    else if IsElement(ns[k], name) then Some(k)
    else FirstElementFrom(ns, name, k + 1)
  }

  /** `find` gives the first `name` element, and nothing exactly when there is none. */
  lemma FirstElementIsFirst(ns: seq<Node>, name: string)
    ensures FirstElement(ns, name).None? <==> forall i :: 0 <= i < |ns| ==> !IsElement(ns[i], name)
    ensures FirstElement(ns, name).Some? ==> forall j :: 0 <= j < FirstElement(ns, name).value ==> !IsElement(ns[j], name)
  {
    FirstElementFromIsFirst(ns, name, 0);
  }

  lemma {:induction false} FirstElementFromIsFirst(ns: seq<Node>, name: string, k: nat)
    ensures FirstElementFrom(ns, name, k).None? <==> forall i :: k <= i < |ns| ==> !IsElement(ns[i], name)
    ensures FirstElementFrom(ns, name, k).Some? ==>
              forall j :: k <= j < FirstElementFrom(ns, name, k).value ==> !IsElement(ns[j], name)
    decreases |ns| - k
  {
    if k < |ns| && !IsElement(ns[k], name) {
      FirstElementFromIsFirst(ns, name, k + 1);
    }
  }

  /**
   * The position of the last `name` element among `ns[lo..hi]`: what a loop over
   * those nodes that re-assigns a variable at every `name` element leaves in it.
   */
  function LastElementIn(ns: seq<Node>, name: string, lo: nat, hi: nat): (r: Option<nat>)
    requires hi <= |ns|
    ensures r.Some? ==> lo <= r.value < hi && IsElement(ns[r.value], name)
    decreases hi
  {
    if hi <= lo then None
    else if IsElement(ns[hi - 1], name) then Some(hi - 1)
    else LastElementIn(ns, name, lo, hi - 1)
  }

  /** A re-assigning loop keeps the last match, and nothing exactly when there is none. */
  lemma {:induction false} LastElementInIsLast(ns: seq<Node>, name: string, lo: nat, hi: nat)
    requires hi <= |ns|
    ensures LastElementIn(ns, name, lo, hi).None? <==> forall i :: lo <= i < hi ==> !IsElement(ns[i], name)
    ensures LastElementIn(ns, name, lo, hi).Some? ==>
              forall j :: LastElementIn(ns, name, lo, hi).value < j < hi ==> !IsElement(ns[j], name)
    decreases hi
  {
    if lo < hi && !IsElement(ns[hi - 1], name) {
      LastElementInIsLast(ns, name, lo, hi - 1);
    }
  }

  // ---------------------------------------------------------------------------
  // Size, the measure by which the sideways-then-down recursion terminates

  function Size(n: Node): nat {
    match n
    case Element(_, _, cs) => 1 + SizeOf(cs)
    case Document(cs) => 1 + SizeOf(cs)
    case _ => 1
  }

  function SizeOf(ns: seq<Node>): nat {
    if ns == [] then 0 else Size(ns[0]) + SizeOf(ns[1..])
  }

  lemma {:induction false} SizeOfConcat(a: seq<Node>, b: seq<Node>)
    ensures SizeOf(a + b) == SizeOf(a) + SizeOf(b)
  {
    if a == [] {
      assert a + b == b;
    } else {
      assert (a + b)[1..] == a[1..] + b;
      SizeOfConcat(a[1..], b);
    }
  }

  /** A node weighs more than its children, and its following siblings weigh less than it and them together. */
  lemma SizeOfSuffix(ns: seq<Node>, i: nat)
    requires i < |ns|
    ensures SizeOf(ns[i..]) == Size(ns[i]) + SizeOf(ns[i + 1..])
    ensures SizeOf(ChildrenOf(ns[i])) < Size(ns[i])
    ensures SizeOf(ns[i..]) <= SizeOf(ns)
  {
    assert ns == ns[..i] + ns[i..];
    SizeOfConcat(ns[..i], ns[i..]);
    assert ns[i..][1..] == ns[i + 1..];
  }

  /** A later suffix weighs no more than an earlier one. */
  lemma SizeOfLaterSuffix(ns: seq<Node>, i: nat, j: nat)
    requires i <= j <= |ns|
    ensures SizeOf(ns[j..]) <= SizeOf(ns[i..])
  {
    assert ns[i..] == ns[i..j] + ns[j..];
    SizeOfConcat(ns[i..j], ns[j..]);
  }
}
